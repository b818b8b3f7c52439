/**
 * The ELF64 pre-screen (packages/aot/src/elf.ts; System V gABI, chapter 4 "Object Files" and
 * chapter 5 "Program Header").
 */
module Elf {
  import opened Common

  const ELF_MAGIC: seq<byte> := [0x7f, 0x45, 0x4c, 0x46]
  const EM_AARCH64: nat := 183
  const EI_CLASS: nat := 4
  const EI_DATA: nat := 5
  const EI_NIDENT: nat := 16
  const ELF64_HEADER_SIZE: nat := 64
  const ELF64_PHDR_SIZE: nat := 56
  const ELF64_SHDR_SIZE: nat := 64
  const ELFCLASS64: nat := 2
  const ELFDATA2LSB: nat := 1
  const PT_DYNAMIC: nat := 2
  const PT_INTERP: nat := 3
  const SHT_SYMTAB: nat := 2
  const SHN_XINDEX: nat := 0xffff

  /** `.eh_frame` */
  const EH_FRAME: seq<byte> := [46, 101, 104, 95, 102, 114, 97, 109, 101]

  // ---- bounds-checked little-endian reads ----------------------------------------

  /** The number in the `width` bytes at `at`, least significant first. */
  function Word(bytes: seq<byte>, at: nat, width: nat): nat
    requires at + width <= |bytes|
    decreases width
  {
    if width == 0 then 0 else bytes[at] + 256 * Word(bytes, at + 1, width - 1)
  }

  /** A field the file has, or zero where the file ends before it does. */
  function Field(bytes: seq<byte>, at: nat, width: nat): nat {
    if at + width <= |bytes| then Word(bytes, at, width) else 0
  }

  function U16(bytes: seq<byte>, at: nat): (r: Option<nat>)
    ensures r.GetOr(0) == Field(bytes, at, 2)
  {
    if at + 2 > |bytes| then None else Some(bytes[at] as int + 0x100 * bytes[at + 1] as int)
  }

  function U32(bytes: seq<byte>, at: nat): (r: Option<nat>)
    ensures r.GetOr(0) == Field(bytes, at, 4)
  {
    if at + 4 > |bytes| then None
    else Some(bytes[at] as int + 0x100 * bytes[at + 1] as int + 0x1_0000 * bytes[at + 2] as int
              + 0x100_0000 * bytes[at + 3] as int)
  }

  method ReadU64(bytes: seq<byte>, at: nat) returns (r: Option<nat>)
    ensures r == if at + 8 <= |bytes| then Some(Word(bytes, at, 8)) else None
  {
    if at + 8 > |bytes| {
      return None;
    }
    var value: nat := 0;
    var i := 8;
    while i > 0
      invariant 0 <= i <= 8
      invariant value == Word(bytes, at + i, 8 - i)
    {
      i := i - 1;
      value := value * 256 + bytes[at + i];
    }
    return Some(value);
  }

  // ---- verdicts --------------------------------------------------------------------

  datatype ElfType = NoType | Rel | Exec | Dyn | Core | UnknownType

  function ElfTypeOf(value: nat): ElfType {
    if value == 0 then NoType
    else if value == 1 then Rel
    else if value == 2 then Exec
    else if value == 3 then Dyn
    else if value == 4 then Core
    else UnknownType
  }

  datatype Region =
    | EIdent | ElfHeader | ProgramHeaderTable | SectionHeaderTable | SectionNameTable

  datatype Evidence = InterpreterSegment | DynamicSegment | SharedObjectType

  datatype Refusal =
    | NotAnElf(found: seq<byte>)
    | Not64Bit(elfClass: nat)
    | NotLittleEndian(elfData: nat)
    | NotAarch64(machine: nat)
    | DynamicallyLinked(evidence: seq<Evidence>)
    | StrippedWithoutUnwindTables(sectionNames: seq<seq<byte>>)
    | Truncated(region: Region, needed: nat, actual: nat)

  datatype Facts = Facts(
    machine: nat, elfType: ElfType, stripped: bool, hasEhFrame: bool, sectionCount: nat,
    entryPoint: nat, sectionNames: seq<seq<byte>>)

  datatype Screening = Accepted(facts: Facts) | Refused(reason: Refusal)

  datatype Section = Section(name: seq<byte>, kind: nat, size: nat)

  // ---- the layout, as a description --------------------------------------------------

  function Stride(declared: nat, standard: nat): nat {
    if declared == 0 then standard else declared
  }

  /** Where entry `i` of a table starts. */
  function EntryAt(base: nat, i: nat, stride: nat): nat {
    base + i * stride
  }

  function Phoff(b: seq<byte>): nat { Field(b, 32, 8) }
  function Shoff(b: seq<byte>): nat { Field(b, 40, 8) }
  function Phnum(b: seq<byte>): nat { Field(b, 56, 2) }
  function PhStride(b: seq<byte>): nat { Stride(Field(b, 54, 2), ELF64_PHDR_SIZE) }
  function ShStride(b: seq<byte>): nat { Stride(Field(b, 58, 2), ELF64_SHDR_SIZE) }

  predicate HasProgramTable(b: seq<byte>) {
    Phnum(b) > 0 && Phoff(b) > 0
  }

  function SegmentType(b: seq<byte>, i: nat): nat {
    Field(b, EntryAt(Phoff(b), i, PhStride(b)), 4)
  }

  function SegmentTypes(b: seq<byte>): seq<nat> {
    if HasProgramTable(b) then seq(Phnum(b), (i: nat) => SegmentType(b, i)) else []
  }

  /** The real section count: `e_shnum`, or section 0's `sh_size` behind the escape. */
  function SectionCount(b: seq<byte>): nat {
    if Shoff(b) == 0 then 0
    else if Field(b, 60, 2) == 0 then Field(b, Shoff(b) + 32, 8)
    else Field(b, 60, 2)
  }

  /** The real string-table index: `e_shstrndx`, or section 0's `sh_link` behind the escape. */
  function NameTableIndex(b: seq<byte>): nat {
    if Field(b, 62, 2) == SHN_XINDEX then Field(b, Shoff(b) + 40, 4) else Field(b, 62, 2)
  }

  function HeaderAt(b: seq<byte>, i: nat): nat {
    EntryAt(Shoff(b), i, ShStride(b))
  }

  predicate HasNameTable(b: seq<byte>) {
    0 < NameTableIndex(b) < SectionCount(b)
  }

  function NameStart(b: seq<byte>): nat {
    if HasNameTable(b) then Field(b, HeaderAt(b, NameTableIndex(b)) + 24, 8) else 0
  }

  function NameEnd(b: seq<byte>): nat {
    if HasNameTable(b)
    then NameStart(b) + Field(b, HeaderAt(b, NameTableIndex(b)) + 32, 8)
    else 0
  }

  function SectionType(b: seq<byte>, i: nat): nat {
    Field(b, HeaderAt(b, i) + 4, 4)
  }

  function SectionSize(b: seq<byte>, i: nat): nat {
    Field(b, HeaderAt(b, i) + 32, 8)
  }

  /** The NUL-terminated run from `at`, cut at `end`. */
  function CString(b: seq<byte>, at: nat, end: nat): (r: seq<byte>)
    requires end <= |b|
    decreases end - at
  {
    if at >= end || b[at] == 0 then [] else [b[at]] + CString(b, at + 1, end)
  }

  function SectionName(b: seq<byte>, i: nat): seq<byte> {
    var at := NameStart(b) + Field(b, HeaderAt(b, i), 4);
    if NameEnd(b) <= |b| then CString(b, at, NameEnd(b)) else []
  }

  function SectionAt(b: seq<byte>, i: nat): Section {
    Section(SectionName(b, i), SectionType(b, i), SectionSize(b, i))
  }

  function Sections(b: seq<byte>): seq<Section> {
    seq(SectionCount(b), (i: nat) => SectionAt(b, i))
  }

  function Names(sections: seq<Section>): seq<seq<byte>> {
    seq(|sections|, (i: nat) requires i < |sections| => sections[i].name)
  }

  predicate AnySymtab(sections: seq<Section>) {
    exists i :: 0 <= i < |sections| && sections[i].kind == SHT_SYMTAB
  }

  predicate AnyUnwind(sections: seq<Section>) {
    exists i :: 0 <= i < |sections| && sections[i].name == EH_FRAME && sections[i].size > 0
  }

  // ---- what a file is ruled to be, first mismatch first --------------------------------

  /** Interpreter and dynamic segments, each once, in the order the table first shows them. */
  function SegmentEvidence(types: seq<nat>): seq<Evidence> {
    if types == [] then []
    else
      var e, last := SegmentEvidence(types[..|types| - 1]), types[|types| - 1];
      if last == PT_INTERP && InterpreterSegment !in e then e + [InterpreterSegment]
      else if last == PT_DYNAMIC && DynamicSegment !in e then e + [DynamicSegment]
      else e
  }

  function EvidenceOf(b: seq<byte>): seq<Evidence> {
    SegmentEvidence(SegmentTypes(b))
    + if ElfTypeOf(Field(b, 16, 2)).Dyn? then [SharedObjectType] else []
  }

  function Cut(region: Region, needed: nat, b: seq<byte>): Screening {
    Refused(Truncated(region, needed, |b|))
  }

  function Ruling(b: seq<byte>): Screening {
    if b[..Min(4, |b|)] != ELF_MAGIC then Refused(NotAnElf(b[..Min(4, |b|)]))
    else if |b| < EI_NIDENT then Cut(EIdent, EI_NIDENT, b)
    else if b[EI_CLASS] != ELFCLASS64 then Refused(Not64Bit(b[EI_CLASS]))
    else if b[EI_DATA] != ELFDATA2LSB then Refused(NotLittleEndian(b[EI_DATA]))
    else if |b| < ELF64_HEADER_SIZE then Cut(ElfHeader, ELF64_HEADER_SIZE, b)
    else if Field(b, 18, 2) != EM_AARCH64 then Refused(NotAarch64(Field(b, 18, 2)))
    else if HasProgramTable(b) && EntryAt(Phoff(b), Phnum(b), PhStride(b)) > |b| then
      Cut(ProgramHeaderTable, EntryAt(Phoff(b), Phnum(b), PhStride(b)), b)
    else if EvidenceOf(b) != [] then Refused(DynamicallyLinked(EvidenceOf(b)))
    else
      match TableFault(b)
      case Some(fault) => Refused(fault)
      case None =>
        var sections := Sections(b);
        if !AnySymtab(sections) && !AnyUnwind(sections)
        then Refused(StrippedWithoutUnwindTables(Names(sections)))
        else Accepted(Facts(
          Field(b, 18, 2), ElfTypeOf(Field(b, 16, 2)), !AnySymtab(sections), AnyUnwind(sections),
          |sections|, Field(b, 24, 8), Names(sections)))
  }

  /** What stops the section table from being read: a first entry, a table or a name table cut. */
  function TableFault(b: seq<byte>): Option<Refusal> {
    if Shoff(b) == 0 then None
    else if Shoff(b) + ShStride(b) > |b| then
      Some(Truncated(SectionHeaderTable, Shoff(b) + ShStride(b), |b|))
    else if HeaderAt(b, SectionCount(b)) > |b| then
      Some(Truncated(SectionHeaderTable, HeaderAt(b, SectionCount(b)), |b|))
    else if NameEnd(b) > |b| then Some(Truncated(SectionNameTable, NameEnd(b), |b|))
    else None
  }

  // ---- the code --------------------------------------------------------------------

  datatype Header = Header(
    elfType: ElfType, machine: nat, entryPoint: nat, phoff: nat, shoff: nat, phentsize: nat,
    phnum: nat, shentsize: nat, shnum: nat, shstrndx: nat)

  predicate HeaderOf(h: Header, b: seq<byte>) {
    && h.elfType == ElfTypeOf(Field(b, 16, 2)) && h.machine == Field(b, 18, 2)
    && h.entryPoint == Field(b, 24, 8) && h.phoff == Phoff(b) && h.shoff == Shoff(b)
    && h.phentsize == Field(b, 54, 2) && h.phnum == Phnum(b) && h.shentsize == Field(b, 58, 2)
    && h.shnum == Field(b, 60, 2) && h.shstrndx == Field(b, 62, 2)
  }

  method NameAt(b: seq<byte>, tableStart: nat, tableEnd: nat, offset: nat)
    returns (name: seq<byte>)
    requires tableEnd <= |b|
    ensures name == CString(b, tableStart + offset, tableEnd)
  {
    var start := tableStart + offset;
    if start >= tableEnd {
      return [];
    }
    var end := start;
    while end < tableEnd && b[end] != 0
      invariant start <= end <= tableEnd
      invariant CString(b, start, tableEnd) == b[start..end] + CString(b, end, tableEnd)
    {
      assert b[start..end + 1] == b[start..end] + [b[end]];
      end := end + 1;
    }
    name := [];
    for i := start to end
      invariant name == b[start..i]
    {
      name := name + [b[i]];
    }
  }

  /** The loop over a section table that has been bounds-checked. */
  method ReadSections(b: seq<byte>, base: nat, stride: nat, count: nat, nameStart: nat,
                      nameEnd: nat)
    returns (sections: seq<Section>)
    requires base == Shoff(b) && stride == ShStride(b) && count == SectionCount(b)
    requires nameStart == NameStart(b) && nameEnd == NameEnd(b) <= |b|
    ensures sections == Sections(b)
  {
    hide Field, CString, Shoff, ShStride, SectionCount, NameStart, NameEnd;
    sections := [];
    for i := 0 to count
      invariant |sections| == i
      invariant forall j :: 0 <= j < i ==> sections[j] == SectionAt(b, j)
    {
      var at := EntryAt(base, i, stride);
      var name := NameAt(b, nameStart, nameEnd, U32(b, at).GetOr(0));
      var size := ReadField(b, at + 32);
      sections := sections + [Section(name, U32(b, at + 4).GetOr(0), size)];
    }
  }

  /** `u64(...) ?? 0n` */
  method ReadField(b: seq<byte>, at: nat) returns (value: nat)
    ensures value == Field(b, at, 8)
  {
    var read := ReadU64(b, at);
    value := read.GetOr(0);
  }

  method ParseSections(b: seq<byte>, header: Header) returns (r: Result<seq<Section>, Refusal>)
    requires HeaderOf(header, b)
    ensures r == match TableFault(b) case Some(fault) => Err(fault) case None => Ok(Sections(b))
  {
    hide Field, EntryAt, Sections;
    if header.shoff == 0 {
      NoTable(b);
      return Ok([]);
    }
    var stride := if header.shentsize == 0 then ELF64_SHDR_SIZE else header.shentsize;
    var total := |b|;
    var first := header.shoff + stride;
    if first > total {
      return Err(Truncated(SectionHeaderTable, first, total));
    }
    var base := header.shoff;
    var count := header.shnum;
    if count == 0 {
      count := ReadField(b, base + 32);
    }
    var stringIndex :=
      if header.shstrndx == SHN_XINDEX then U32(b, base + 40).GetOr(0) else header.shstrndx;
    var tableBytes := EntryAt(base, count, stride);
    if tableBytes > total {
      return Err(Truncated(SectionHeaderTable, tableBytes, total));
    }
    var nameStart, nameEnd := 0, 0;
    if 0 < stringIndex < count {
      var at := EntryAt(base, stringIndex, stride);
      var offset := ReadField(b, at + 24);
      var size := ReadField(b, at + 32);
      var end := offset + size;
      if end > total {
        return Err(Truncated(SectionNameTable, end, total));
      }
      nameStart, nameEnd := offset, end;
    }
    var sections := ReadSections(b, base, stride, count, nameStart, nameEnd);
    return Ok(sections);
  }

  /** The loop over the program headers. */
  method SegmentLoop(b: seq<byte>, base: nat, stride: nat, phnum: nat)
    returns (evidence: seq<Evidence>)
    requires HasProgramTable(b)
    requires base == Phoff(b) && stride == PhStride(b) && phnum == Phnum(b)
    ensures evidence == SegmentEvidence(SegmentTypes(b))
  {
    hide Field, Phoff, Phnum, PhStride, EntryAt;
    var types := SegmentTypes(b);
    evidence := [];
    for i := 0 to phnum
      invariant evidence == SegmentEvidence(types[..i])
    {
      var segment := U32(b, EntryAt(base, i, stride)).GetOr(0);
      assert types[..i + 1][..i] == types[..i] && types[i] == segment;
      if segment == PT_INTERP && InterpreterSegment !in evidence {
        evidence := evidence + [InterpreterSegment];
      }
      if segment == PT_DYNAMIC && DynamicSegment !in evidence {
        evidence := evidence + [DynamicSegment];
      }
    }
    assert types[..phnum] == types;
  }

  method ReadHeader(b: seq<byte>) returns (h: Header)
    ensures HeaderOf(h, b)
  {
    hide Field;
    var entryPoint := ReadField(b, 24);
    var phoff := ReadField(b, 32);
    var shoff := ReadField(b, 40);
    h := Header(ElfTypeOf(U16(b, 16).GetOr(0)), U16(b, 18).GetOr(0), entryPoint, phoff, shoff,
                U16(b, 54).GetOr(0), U16(b, 56).GetOr(0), U16(b, 58).GetOr(0),
                U16(b, 60).GetOr(0), U16(b, 62).GetOr(0));
  }

  method ScreenElf(b: seq<byte>) returns (r: Screening)
    ensures r == Ruling(b)
  {
    hide Field, Sections, Names, TableFault, EntryAt, SegmentTypes, SegmentEvidence,
         AnySymtab, AnyUnwind;
    for i := 0 to 4
      invariant i <= |b| && b[..i] == ELF_MAGIC[..i]
    {
      if i >= |b| || b[i] != ELF_MAGIC[i] {
        assert i < |b| ==> b[..Min(4, |b|)][i] != ELF_MAGIC[i];
        return Refused(NotAnElf(b[..Min(4, |b|)]));
      }
    }
    if |b| < EI_NIDENT {
      return Cut(EIdent, EI_NIDENT, b);
    }
    if b[EI_CLASS] != ELFCLASS64 {
      return Refused(Not64Bit(b[EI_CLASS]));
    }
    if b[EI_DATA] != ELFDATA2LSB {
      return Refused(NotLittleEndian(b[EI_DATA]));
    }
    if |b| < ELF64_HEADER_SIZE {
      return Cut(ElfHeader, ELF64_HEADER_SIZE, b);
    }
    var header := ReadHeader(b);
    if header.machine != EM_AARCH64 {
      return Refused(NotAarch64(header.machine));
    }
    var evidence := [];
    if header.phnum > 0 && header.phoff > 0 {
      var stride := if header.phentsize == 0 then ELF64_PHDR_SIZE else header.phentsize;
      var needed := EntryAt(header.phoff, header.phnum, stride);
      if needed > |b| {
        return Cut(ProgramHeaderTable, needed, b);
      }
      evidence := SegmentLoop(b, header.phoff, stride, header.phnum);
    } else {
      NoSegments(b);
    }
    if header.elfType.Dyn? {
      evidence := evidence + [SharedObjectType];
    } else {
      assert evidence + [] == evidence;
    }
    if |evidence| > 0 {
      return Refused(DynamicallyLinked(evidence));
    }
    var parsed := ParseSections(b, header);
    if parsed.Err? {
      return Refused(parsed.error);
    }
    var sections := parsed.value;
    var stripped := !AnySymtab(sections);
    var hasEhFrame := AnyUnwind(sections);
    if stripped && !hasEhFrame {
      return Refused(StrippedWithoutUnwindTables(Names(sections)));
    }
    return Accepted(Facts(header.machine, header.elfType, stripped, hasEhFrame, |sections|,
                          header.entryPoint, Names(sections)));
  }

  lemma NoTable(b: seq<byte>)
    requires Shoff(b) == 0
    ensures Sections(b) == []
  {
  }

  lemma NoSegments(b: seq<byte>)
    requires !HasProgramTable(b)
    ensures SegmentEvidence(SegmentTypes(b)) == []
  {
  }

  /** Where no section can hold the names, none has one, and nothing more has to be in the file. */
  lemma NamesNeedATable(b: seq<byte>, i: nat)
    requires NameTableIndex(b) == 0 || NameTableIndex(b) >= SectionCount(b)
    ensures NameEnd(b) == 0 && SectionName(b, i) == [] && !ShowsUnwind(b)
  {
    hide Field, SectionCount, NameTableIndex, HeaderAt, SectionSize;
  }

  // ---- what the rulings mean -----------------------------------------------------------

  /** Evidence is complete, free of repeats, and ordered by first appearance. */
  lemma {:induction false} EvidenceIsComplete(types: seq<nat>)
    ensures var e := SegmentEvidence(types);
      && (InterpreterSegment in e <==> 3 in types)
      && (DynamicSegment in e <==> 2 in types)
      && SharedObjectType !in e
      && (forall i, j :: 0 <= i < j < |e| ==> e[i] != e[j])
      && (e == [InterpreterSegment, DynamicSegment] ==>
            exists i :: 0 <= i < |types| && types[i] == 3 && 2 !in types[..i])
      && (e == [DynamicSegment, InterpreterSegment] ==>
            exists i :: 0 <= i < |types| && types[i] == 2 && 3 !in types[..i])
  {
    if types != [] {
      var n := |types| - 1;
      EvidenceIsComplete(types[..n]);
      var e, e' := SegmentEvidence(types[..n]), SegmentEvidence(types);
      assert types == types[..n] + [types[n]];
      if |e'| == 2 {
        if |e| == 2 {
          assert e == e';
          var first := if e[0] == InterpreterSegment then PT_INTERP else PT_DYNAMIC;
          var second := if e[0] == InterpreterSegment then PT_DYNAMIC else PT_INTERP;
          assert e == [e[0], e[1]];
          var i :| 0 <= i < n && types[..n][i] == first && second !in types[..n][..i];
          assert types[i] == first && types[..n][..i] == types[..i];
        } else {
          assert |e| == 1 && e' == e + [e'[1]] && e[0] in e;
          var first := if e[0] == InterpreterSegment then PT_INTERP else PT_DYNAMIC;
          var second := if e[0] == InterpreterSegment then PT_DYNAMIC else PT_INTERP;
          assert first in types[..n] && second !in types[..n];
          var i :| 0 <= i < n && types[..n][i] == first;
          assert forall j :: 0 <= j < i ==> types[j] == types[..n][j];
          assert types[i] == first && second !in types[..i];
        }
      }
    }
  }

  /** A whole name, NUL-terminated or ended by the table. */
  predicate Spells(b: seq<byte>, at: nat, end: nat, name: seq<byte>)
    requires end <= |b|
  {
    && at + |name| <= end
    && b[at..at + |name|] == name
    && (at + |name| == end || b[at + |name|] == 0)
  }

  lemma {:induction false} CStringSpells(b: seq<byte>, at: nat, end: nat, name: seq<byte>)
    requires end <= |b| && 0 !in name && (name != [] || at <= end)
    ensures CString(b, at, end) == name <==> Spells(b, at, end, name)
    decreases |name|
  {
    if name == [] {
      assert b[at..at] == [];
    } else if at < end && b[at] == name[0] != 0 {
      CStringSpells(b, at + 1, end, name[1..]);
      assert name == [name[0]] + name[1..];
      if at + |name| <= end {
        assert b[at..at + |name|] == [b[at]] + b[at + 1..at + |name|];
        assert b[at..at + |name|][1..] == b[at + 1..at + |name|];
      }
    } else if at < end && at + |name| <= end {
      assert b[at..at + |name|][0] == b[at];
      assert CString(b, at, end) != [] ==> CString(b, at, end)[0] == b[at];
    }
  }

  predicate ShowsSymtab(b: seq<byte>) {
    exists i :: 0 <= i < SectionCount(b) && SectionType(b, i) == 2
  }

  /** A non-empty section whose name is spelled `.eh_frame`. */
  predicate ShowsUnwind(b: seq<byte>) {
    NameEnd(b) <= |b| && exists i :: 0 <= i < SectionCount(b) && IsUnwind(b, i)
  }

  predicate IsUnwind(b: seq<byte>, i: nat)
    requires NameEnd(b) <= |b|
  {
    SectionSize(b, i) > 0
    && Spells(b, NameStart(b) + Field(b, HeaderAt(b, i), 4), NameEnd(b), [46, 101, 104, 95, 102, 114, 97, 109, 101])
  }

  /** An accepted file, as a flat description with no reading order. */
  ghost predicate Acceptable(b: seq<byte>) {
    && |b| >= 64
    && b[..4] == [0x7f, 0x45, 0x4c, 0x46] && b[4] == 2 && b[5] == 1
    && Field(b, 18, 2) == 183
    && Field(b, 16, 2) != 3
    && (Field(b, 56, 2) > 0 && Field(b, 32, 8) > 0 ==>
          && EntryAt(Phoff(b), Phnum(b), PhStride(b)) <= |b|
          && forall i :: 0 <= i < Phnum(b) ==>
               SegmentType(b, i) != 3 && SegmentType(b, i) != 2)
    && Shoff(b) > 0
    && EntryAt(Shoff(b), 1, ShStride(b)) <= |b|
    && HeaderAt(b, SectionCount(b)) <= |b|
    && NameEnd(b) <= |b|
    && (ShowsSymtab(b) || ShowsUnwind(b))
  }

  /** The screen accepts exactly the files of that description. */
  lemma AcceptsExactly(b: seq<byte>)
    ensures Ruling(b).Accepted? <==> Acceptable(b)
  {
    hide Field, CString;
    EvidenceIsComplete(SegmentTypes(b));
    EvidenceMeans(b);
    if NameEnd(b) <= |b| {
      TablesMean(b);
    }
    assert |b| >= 4 ==> b[..Min(4, |b|)] == b[..4];
  }

  lemma EvidenceMeans(b: seq<byte>)
    ensures EvidenceOf(b) == [] <==>
      && Field(b, 16, 2) != 3
      && (HasProgramTable(b) ==> forall i :: 0 <= i < Phnum(b) ==>
           SegmentType(b, i) != PT_INTERP && SegmentType(b, i) != PT_DYNAMIC)
  {
    hide Field, EntryAt, Phoff, Phnum, PhStride;
    var types := SegmentTypes(b);
    EvidenceIsComplete(types);
    var e := SegmentEvidence(types);
    if e != [] {
      assert e[0] in e && (e[0] == InterpreterSegment || e[0] == DynamicSegment);
      assert PT_INTERP in types || PT_DYNAMIC in types;
    }
    assert HasProgramTable(b) ==>
      forall i :: 0 <= i < Phnum(b) ==> types[i] == SegmentType(b, i) && types[i] in types;
  }

  lemma TablesMean(b: seq<byte>)
    requires NameEnd(b) <= |b|
    ensures AnySymtab(Sections(b)) <==> ShowsSymtab(b)
    ensures AnyUnwind(Sections(b)) <==> ShowsUnwind(b)
  {
    hide Field, EntryAt, CString, Spells, NameStart, NameEnd, SectionCount, HeaderAt;
    var sections := Sections(b);
    forall i | 0 <= i < SectionCount(b)
      ensures sections[i].kind == SectionType(b, i)
      ensures sections[i].name == EH_FRAME && sections[i].size > 0 <==> IsUnwind(b, i)
    {
      CStringSpells(b, NameStart(b) + Field(b, HeaderAt(b, i), 4), NameEnd(b), EH_FRAME);
    }
  }

  /** A dynamic-linking refusal names every reason the file shows, once, and at least one. */
  lemma DynamicRefusalIsComplete(b: seq<byte>, evidence: seq<Evidence>)
    requires Ruling(b) == Refused(DynamicallyLinked(evidence))
    ensures evidence != [] && forall i, j :: 0 <= i < j < |evidence| ==> evidence[i] != evidence[j]
    ensures InterpreterSegment in evidence <==>
      HasProgramTable(b) && exists i :: 0 <= i < Phnum(b) && SegmentType(b, i) == 3
    ensures DynamicSegment in evidence <==>
      HasProgramTable(b) && exists i :: 0 <= i < Phnum(b) && SegmentType(b, i) == 2
    ensures SharedObjectType in evidence <==> Field(b, 16, 2) == 3
  {
    hide Field, EntryAt, Sections, Phoff, Phnum, PhStride;
    var types := SegmentTypes(b);
    EvidenceIsComplete(types);
    assert evidence == EvidenceOf(b);
    assert HasProgramTable(b) ==>
      forall i :: 0 <= i < Phnum(b) ==> types[i] == SegmentType(b, i) && types[i] in types;
  }

  // ---- what a refusal says about the file ---------------------------------------------------

  /** What a file has to be, in the order in which a failure is reported. */
  datatype Requirement =
    | Magic | WholeIdent | Class64 | LittleEndianData | WholeHeader | Aarch64 | WholeProgramTable
    | Static | WholeFirstSection | WholeSectionTable | WholeNameTable | Recoverable

  function Place(requirement: Requirement): nat {
    match requirement
    case Magic => 0
    case WholeIdent => 1
    case Class64 => 2
    case LittleEndianData => 3
    case WholeHeader => 4
    case Aarch64 => 5
    case WholeProgramTable => 6
    case Static => 7
    case WholeFirstSection => 8
    case WholeSectionTable => 9
    case WholeNameTable => 10
    case Recoverable => 11
  }

  predicate HasDynamicSegment(b: seq<byte>) {
    exists i ::
      0 <= i < Phnum(b) && (SegmentType(b, i) == 3 || SegmentType(b, i) == 2)
  }

  /** What the file shows when it fails a requirement, whatever else is wrong with it. */
  ghost predicate Unmet(b: seq<byte>, requirement: Requirement) {
    match requirement
    case Magic => |b| < 4 || b[..4] != [0x7f, 0x45, 0x4c, 0x46]
    case WholeIdent => |b| < 16
    case Class64 => |b| > 4 && b[4] != 2
    case LittleEndianData => |b| > 5 && b[5] != 1
    case WholeHeader => |b| < 64
    case Aarch64 => Field(b, 18, 2) != 183
    case WholeProgramTable =>
      HasProgramTable(b) && EntryAt(Phoff(b), Phnum(b), PhStride(b)) > |b|
    case Static => Field(b, 16, 2) == 3 || (HasProgramTable(b) && HasDynamicSegment(b))
    case WholeFirstSection => Shoff(b) > 0 && Shoff(b) + ShStride(b) > |b|
    case WholeSectionTable => Shoff(b) > 0 && HeaderAt(b, SectionCount(b)) > |b|
    case WholeNameTable => Shoff(b) > 0 && NameEnd(b) > |b|
    case Recoverable => !ShowsSymtab(b) && !ShowsUnwind(b)
  }

  /** The refusal that names a requirement, with the figures it carries. */
  predicate Reports(b: seq<byte>, requirement: Requirement, r: Refusal) {
    match requirement
    case Magic => r == NotAnElf(b[..Min(4, |b|)])
    case WholeIdent => r == Truncated(EIdent, 16, |b|)
    case Class64 => |b| > 4 && r == Not64Bit(b[4])
    case LittleEndianData => |b| > 5 && r == NotLittleEndian(b[5])
    case WholeHeader => r == Truncated(ElfHeader, 64, |b|)
    case Aarch64 => r == NotAarch64(Field(b, 18, 2))
    case WholeProgramTable =>
      r == Truncated(ProgramHeaderTable, EntryAt(Phoff(b), Phnum(b), PhStride(b)), |b|)
    case Static => r.DynamicallyLinked?
    case WholeFirstSection => r == Truncated(SectionHeaderTable, Shoff(b) + ShStride(b), |b|)
    case WholeSectionTable =>
      r == Truncated(SectionHeaderTable, HeaderAt(b, SectionCount(b)), |b|)
    case WholeNameTable => r == Truncated(SectionNameTable, NameEnd(b), |b|)
    case Recoverable => r == StrippedWithoutUnwindTables(Names(Sections(b)))
  }

  ghost predicate IsFirstUnmet(b: seq<byte>, requirement: Requirement) {
    && Unmet(b, requirement)
    && forall other :: Place(other) < Place(requirement) ==> !Unmet(b, other)
  }

  /** Every other requirement has a place before or after; this one's is its own. */
  lemma MetBefore(b: seq<byte>, requirement: Requirement, other: Requirement)
    requires IsFirstUnmet(b, requirement)
    ensures Place(other) < Place(requirement) ==> !Unmet(b, other)
  {
    hide Unmet;
  }

  /** The screen refuses a file for the first requirement it fails, and says so with its figures. */
  lemma RefusesForTheFirstUnmet(b: seq<byte>, requirement: Requirement)
    requires IsFirstUnmet(b, requirement)
    ensures Ruling(b).Refused? && Reports(b, requirement, Ruling(b).reason)
  {
    hide Field, CString, IsFirstUnmet, ShowsSymtab, ShowsUnwind, Sections, Names, HeaderAt, EntryAt,
         NameEnd, NameStart, SectionCount, AnySymtab, AnyUnwind;
    assert Unmet(b, requirement) by { FirstIsUnmet(b, requirement); }
    MetBefore(b, requirement, Magic);
    MetBefore(b, requirement, WholeIdent);
    MetBefore(b, requirement, Class64);
    MetBefore(b, requirement, LittleEndianData);
    MetBefore(b, requirement, WholeHeader);
    MetBefore(b, requirement, Aarch64);
    MetBefore(b, requirement, WholeProgramTable);
    MetBefore(b, requirement, Static);
    MetBefore(b, requirement, WholeFirstSection);
    MetBefore(b, requirement, WholeSectionTable);
    MetBefore(b, requirement, WholeNameTable);
    EvidenceMeans(b);
    if NameEnd(b) <= |b| {
      TablesMean(b);
    }
    NoSections(b);
    assert |b| >= 4 ==> b[..Min(4, |b|)] == b[..4];
  }

  lemma FirstIsUnmet(b: seq<byte>, requirement: Requirement)
    requires IsFirstUnmet(b, requirement)
    ensures Unmet(b, requirement)
  {
  }

  lemma NoSections(b: seq<byte>)
    ensures Shoff(b) == 0 ==> SectionCount(b) == 0 && NameEnd(b) == 0
  {
  }

  /** Every file is refused for exactly one first unmet requirement, or meets all and is accepted. */
  lemma RefusesExactlyTheUnfit(b: seq<byte>)
    ensures Ruling(b).Refused? <==> exists requirement :: Unmet(b, requirement)
    ensures Ruling(b).Refused? ==> exists requirement :: IsFirstUnmet(b, requirement)
  {
    hide Unmet, Ruling, Acceptable;
    if exists requirement :: Unmet(b, requirement) {
      var requirement :| Unmet(b, requirement);
      FirstUnmetExists(b, requirement);
      var first :| IsFirstUnmet(b, first);
      RefusesForTheFirstUnmet(b, first);
    } else {
      AcceptsExactly(b);
      AllMetIsAcceptable(b);
    }
  }

  lemma {:induction false} FirstUnmetExists(b: seq<byte>, requirement: Requirement)
    requires Unmet(b, requirement)
    ensures exists first :: IsFirstUnmet(b, first)
    decreases Place(requirement)
  {
    hide Unmet;
    if !IsFirstUnmet(b, requirement) {
      var other :| Place(other) < Place(requirement) && Unmet(b, other);
      FirstUnmetExists(b, other);
    }
  }

  lemma AllMetIsAcceptable(b: seq<byte>)
    requires forall requirement :: !Unmet(b, requirement)
    ensures Acceptable(b)
  {
    hide Field, CString, IsUnwind, SectionType, HeaderAt, NameEnd, NameStart, SectionCount;
    assert !Unmet(b, Magic) && !Unmet(b, Class64) && !Unmet(b, LittleEndianData);
    assert !Unmet(b, WholeHeader) && !Unmet(b, Aarch64) && !Unmet(b, WholeProgramTable);
    assert !Unmet(b, Static) && !Unmet(b, WholeFirstSection) && !Unmet(b, WholeSectionTable);
    assert !Unmet(b, WholeNameTable) && !Unmet(b, Recoverable);
    NoSections(b);
  }
}
