/**
 * The writer side of the section table: files laid out per the gABI, in every form the header
 * allows, and what the screen reads back (packages/aot/src/elf.ts; tools/aot/stubs.ts).
 */
module ElfLayout {
  import opened Common
  import opened Elf

  /** Which of the two numbers are escaped into section 0. */
  datatype Form = Form(escapedCount: bool, escapedIndex: bool)

  /** Where the pieces of one file are. */
  datatype Plan = Plan(table: nat, names: nat, namesSize: nat, nameOffsets: seq<nat>, k: nat)

  /** `b` holds a section table for `sections` at standard stride, in the given form. */
  ghost predicate Lays(b: seq<byte>, sections: seq<Section>, plan: Plan, form: Form) {
    && LaysHeader(b, |sections|, plan, form)
    && |plan.nameOffsets| == |sections|
    && forall i :: 0 <= i < |sections| ==>
         LaysSection(b, sections[i], plan, i, form.escapedCount && i == 0)
  }

  ghost predicate LaysHeader(b: seq<byte>, count: nat, plan: Plan, form: Form) {
    && Shoff(b) == plan.table > 0
    && (Field(b, 58, 2) == 0 || Field(b, 58, 2) == ELF64_SHDR_SIZE)
    && plan.table + 64 * count <= |b|
    && Field(b, 60, 2) == (if form.escapedCount then 0 else count)
    && Field(b, 62, 2) == (if form.escapedIndex then SHN_XINDEX else plan.k)
    && 0 < plan.k < count
    && (form.escapedCount ==> Field(b, plan.table + 32, 8) == count)
    && (form.escapedIndex ==> Field(b, plan.table + 40, 4) == plan.k)
    && (!form.escapedIndex ==> plan.k < SHN_XINDEX)
    && Field(b, plan.table + 64 * plan.k + 24, 8) == plan.names
    && Field(b, plan.table + 64 * plan.k + 32, 8) == plan.namesSize
    && plan.names + plan.namesSize <= |b|
  }

  ghost predicate LaysSection(b: seq<byte>, section: Section, plan: Plan, i: nat, sizeTaken: bool)
    requires i < |plan.nameOffsets|
    requires plan.names + plan.namesSize <= |b|
  {
    && Field(b, plan.table + 64 * i, 4) == plan.nameOffsets[i]
    && Field(b, plan.table + 64 * i + 4, 4) == section.kind
    && (!sizeTaken ==> Field(b, plan.table + 64 * i + 32, 8) == section.size)
    && 0 !in section.name
    && Spells(b, plan.names + plan.nameOffsets[i], plan.names + plan.namesSize, section.name)
  }

  /**
   * Parsing a file so laid out finds no fault and recovers the count, every name and every
   * type, and every size but that of a section 0 whose size field carries the count.
   */
  lemma ParseRecovers(b: seq<byte>, sections: seq<Section>, plan: Plan, form: Form)
    requires Lays(b, sections, plan, form)
    ensures TableFault(b) == None
    ensures |Sections(b)| == |sections|
    ensures forall i :: 0 <= i < |sections| ==>
      Sections(b)[i].name == sections[i].name && Sections(b)[i].kind == sections[i].kind
    ensures forall i :: (if form.escapedCount then 1 else 0) <= i < |sections| ==>
      Sections(b)[i].size == sections[i].size
    ensures form.escapedCount ==> Sections(b)[0].size == |sections|
  {
    hide Field, CString, Spells;
    assert ShStride(b) == 64 && SectionCount(b) == |sections| && NameTableIndex(b) == plan.k;
    assert HeaderAt(b, plan.k) == plan.table + 64 * plan.k;
    assert NameStart(b) == plan.names && NameEnd(b) == plan.names + plan.namesSize;
    forall i | 0 <= i < |sections|
      ensures SectionName(b, i) == sections[i].name && SectionType(b, i) == sections[i].kind
      ensures (form.escapedCount && i == 0) || SectionSize(b, i) == sections[i].size
    {
      assert LaysSection(b, sections[i], plan, i, form.escapedCount && i == 0);
      SpelledNameIsRead(b, plan.names + plan.nameOffsets[i], NameEnd(b), sections[i].name);
    }
  }

  lemma SpelledNameIsRead(b: seq<byte>, at: nat, end: nat, name: seq<byte>)
    requires end <= |b| && 0 !in name && Spells(b, at, end, name)
    ensures CString(b, at, end) == name
  {
    CStringSpells(b, at, end, name);
  }

  /** Unwind tables as the screen sees them: an escaped count makes section 0 look non-empty. */
  ghost predicate UnwindSeen(sections: seq<Section>, form: Form)
    requires sections != []
  {
    AnyUnwind(sections) || (form.escapedCount && sections[0].name == EH_FRAME)
  }

  /** What the screen reports about a list it has read back. */
  lemma FactsOfForm(read: seq<Section>, sections: seq<Section>, form: Form)
    requires |read| == |sections| > 0
    requires forall i :: 0 <= i < |sections| ==>
      read[i].name == sections[i].name && read[i].kind == sections[i].kind
    requires forall i :: (if form.escapedCount then 1 else 0) <= i < |sections| ==>
      read[i].size == sections[i].size
    requires form.escapedCount ==> read[0].size > 0
    ensures Names(read) == Names(sections) && AnySymtab(read) == AnySymtab(sections)
    ensures AnyUnwind(read) <==> UnwindSeen(sections, form)
  {
    if AnyUnwind(sections) {
      var i :| 0 <= i < |sections| && sections[i].name == EH_FRAME && sections[i].size > 0;
      assert read[i].name == EH_FRAME && read[i].size > 0;
    }
    if form.escapedCount && sections[0].name == EH_FRAME {
      assert read[0].name == EH_FRAME && read[0].size > 0;
    }
  }

  /**
   * One list of sections, two files, any two forms: where the string-table index is kept changes
   * nothing, and where the count is kept changes one fact in one case only, that of a section 0
   * called `.eh_frame` beside which no unwind table has any content.
   */
  lemma EscapesMakeNoDifference(
      a: seq<byte>, b: seq<byte>, sections: seq<Section>, planA: Plan, planB: Plan, formA: Form,
      formB: Form)
    requires Lays(a, sections, planA, formA) && Lays(b, sections, planB, formB)
    ensures |Sections(a)| == |Sections(b)| == |sections|
    ensures Names(Sections(a)) == Names(Sections(b))
    ensures AnySymtab(Sections(a)) == AnySymtab(Sections(b))
    ensures AnyUnwind(Sections(a)) == AnyUnwind(Sections(b))
      <==> formA.escapedCount == formB.escapedCount || sections[0].name != EH_FRAME
           || AnyUnwind(sections)
  {
    hide Lays, Sections, Names, AnySymtab, AnyUnwind;
    ParseRecovers(a, sections, planA, formA);
    ParseRecovers(b, sections, planB, formB);
    assert |sections| > 0 by {
      LaysSomething(a, sections, planA, formA);
    }
    FactsOfForm(Sections(a), sections, formA);
    FactsOfForm(Sections(b), sections, formB);
  }

  lemma LaysSomething(b: seq<byte>, sections: seq<Section>, plan: Plan, form: Form)
    requires Lays(b, sections, plan, form)
    ensures |sections| > 0
  {
  }

  // ---- a writer --------------------------------------------------------------------------

  lemma {:induction false} WordIsSlice(b: seq<byte>, at: nat, width: nat)
    requires at + width <= |b|
    ensures Word(b, at, width) == FromLittleEndian(b[at..at + width])
    decreases width
  {
    if width > 0 {
      WordIsSlice(b, at + 1, width - 1);
      assert b[at..at + width][1..] == b[at + 1..at + width];
    }
  }

  lemma FieldReadsBack(b: seq<byte>, at: nat, value: nat, width: nat)
    requires at + width <= |b| && b[at..at + width] == LittleEndian(value, width)
    requires value < Power256(width)
    ensures Field(b, at, width) == value
  {
    hide Word, FromLittleEndian, LittleEndian, Power256;
    WordIsSlice(b, at, width);
    LittleEndianRoundTrip(value, width);
  }

  /** A C structure: fields in order, each a value and a width. */
  datatype Struct = End | Then(value: nat, width: nat, rest: Struct)

  function Size(fields: Struct): nat {
    match fields
    case End => 0
    case Then(_, width, rest) => width + Size(rest)
  }

  function Pack(fields: Struct): (r: seq<byte>)
    ensures |r| == Size(fields)
  {
    match fields
    case End => []
    case Then(value, width, rest) => LittleEndian(value, width) + Pack(rest)
  }

  ghost predicate Fits(fields: Struct) {
    fields.Then? ==> fields.value < Power256(fields.width) && Fits(fields.rest)
  }

  /** Every field of the structure reads back at its place from `at`. */
  ghost predicate Reads(b: seq<byte>, at: nat, fields: Struct)
    decreases fields
  {
    fields.Then? ==>
      Field(b, at, fields.width) == fields.value && Reads(b, at + fields.width, fields.rest)
  }

  lemma {:induction false} PackedReads(b: seq<byte>, at: nat, fields: Struct)
    requires at + |Pack(fields)| <= |b| && b[at..at + |Pack(fields)|] == Pack(fields)
    requires Fits(fields)
    ensures Reads(b, at, fields)
    decreases fields
  {
    hide Word, Field, LittleEndian, Power256;
    match fields
    case End =>
    case Then(value, width, rest) =>
      var whole := b[at..at + |Pack(fields)|];
      assert b[at..at + width] == whole[..width] == LittleEndian(value, width);
      assert b[at + width..at + width + |Pack(rest)|] == whole[width..] == Pack(rest);
      FieldReadsBack(b, at, value, width);
      PackedReads(b, at + width, rest);
  }

  /** Every name followed by its NUL. */
  function Strings(sections: seq<Section>): seq<byte> {
    if sections == [] then []
    else Strings(sections[..|sections| - 1]) + sections[|sections| - 1].name + [0]
  }

  function NameOffset(sections: seq<Section>, i: nat): nat
    requires i <= |sections|
  {
    |Strings(sections[..i])|
  }

  lemma {:induction false} StringsSpell(sections: seq<Section>, i: nat)
    requires i < |sections|
    ensures var s, at := Strings(sections), NameOffset(sections, i);
      at + |sections[i].name| < |s| && s[at..at + |sections[i].name|] == sections[i].name
      && s[at + |sections[i].name|] == 0
    decreases |sections|
  {
    var front := sections[..|sections| - 1];
    if i < |front| {
      StringsSpell(front, i);
      assert front[..i] == sections[..i];
    }
  }

  /** One section header: name, type, flags, address, offset, size, link, info, align, entsize. */
  function EntryStruct(name: nat, kind: nat, offset: nat, size: nat, link: nat): Struct {
    Then(name, 4, Then(kind, 4, Then(0, 8, Then(0, 8, Then(offset, 8, Then(size, 8,
      Then(link, 4, Then(0, 4, Then(0, 8, Then(0, 8, End))))))))))
  }

  /** A structure is as long, and fits as well, as its rest with one more field in front. */
  lemma OneField(s: Struct, size: nat)
    requires s.Then? && Size(s.rest) == size && s.value < Power256(s.width) && Fits(s.rest)
    ensures Size(s) == s.width + size && Fits(s)
  {
  }

  lemma EntrySize(name: nat, kind: nat, offset: nat, size: nat, link: nat)
    requires name < 0x1_0000_0000 && kind < 0x1_0000_0000 && link < 0x1_0000_0000
    requires offset < 0x1_0000_0000_0000_0000 && size < 0x1_0000_0000_0000_0000
    ensures var s := EntryStruct(name, kind, offset, size, link); Size(s) == 64 && Fits(s)
  {
    hide Size, Fits, Power256;
    Bounds();
    var s := EntryStruct(name, kind, offset, size, link);
    Nothing();
    OneField(s.rest.rest.rest.rest.rest.rest.rest.rest.rest, 0);
    OneField(s.rest.rest.rest.rest.rest.rest.rest.rest, 8);
    OneField(s.rest.rest.rest.rest.rest.rest.rest, 16);
    OneField(s.rest.rest.rest.rest.rest.rest, 20);
    OneField(s.rest.rest.rest.rest.rest, 24);
    OneField(s.rest.rest.rest.rest, 32);
    OneField(s.rest.rest.rest, 40);
    OneField(s.rest.rest, 48);
    OneField(s.rest, 56);
    OneField(s, 60);
  }

  lemma Nothing()
    ensures Size(End) == 0 && Fits(End)
  {
  }

  lemma Bounds()
    ensures Power256(2) == 0x1_0000 && Power256(4) == 0x1_0000_0000
    ensures Power256(8) == 0x1_0000_0000_0000_0000
  {
    assert Power256(4) == 256 * (256 * Power256(2));
    assert Power256(8) == 256 * (256 * (256 * (256 * Power256(4))));
  }

  function Entry(name: nat, kind: nat, offset: nat, size: nat, link: nat): seq<byte> {
    Pack(EntryStruct(name, kind, offset, size, link))
  }

  /** The numbers of a file header that differ from file to file. */
  datatype Head = Head(
    elfType: nat, version: nat, entryPoint: nat, phoff: nat, shoff: nat, phentsize: nat, phnum: nat,
    shentsize: nat, shnum: nat, shstrndx: nat)

  ghost predicate HeadFits(h: Head) {
    && h.elfType < 0x1_0000 && h.version < 0x1_0000_0000
    && h.entryPoint < 0x1_0000_0000_0000_0000 && h.phoff < 0x1_0000_0000_0000_0000
    && h.shoff < 0x1_0000_0000_0000_0000 && h.phentsize < 0x1_0000 && h.phnum < 0x1_0000
    && h.shentsize < 0x1_0000 && h.shnum < 0x1_0000 && h.shstrndx < 0x1_0000
  }

  /** From `e_type` on, after the magic, class, data, version and padding. */
  function HeaderTail(h: Head): Struct {
    Then(h.elfType, 2, Then(183, 2, Then(h.version, 4, Then(h.entryPoint, 8, Then(h.phoff, 8,
      TableTail(h))))))
  }

  /** From `e_shoff` on. */
  function TableTail(h: Head): Struct {
    Then(h.shoff, 8, Then(0, 4, Then(64, 2, Then(h.phentsize, 2, Then(h.phnum, 2,
      Then(h.shentsize, 2, Then(h.shnum, 2, Then(h.shstrndx, 2, End))))))))
  }

  lemma TailSize(h: Head)
    requires HeadFits(h)
    ensures var s := HeaderTail(h); Size(s) == 48 && Fits(s)
  {
    hide Size, Fits, Power256;
    Bounds();
    var s, t := HeaderTail(h), TableTail(h);
    Nothing();
    OneField(t.rest.rest.rest.rest.rest.rest.rest, 0);
    OneField(t.rest.rest.rest.rest.rest.rest, 2);
    OneField(t.rest.rest.rest.rest.rest, 4);
    OneField(t.rest.rest.rest.rest, 6);
    OneField(t.rest.rest.rest, 8);
    OneField(t.rest.rest, 10);
    OneField(t.rest, 12);
    OneField(t, 16);
    OneField(s.rest.rest.rest.rest, 24);
    OneField(s.rest.rest.rest, 32);
    OneField(s.rest.rest, 40);
    OneField(s.rest, 44);
    OneField(s, 46);
  }

  const IDENT: seq<byte> := [0x7f, 0x45, 0x4c, 0x46, 2, 1, 1, 0, 0, 0, 0, 0, 0, 0, 0, 0]

  /** The file header: a little-endian ELF64 file for AArch64. */
  function FileHeader(h: Head): seq<byte> {
    IDENT + Pack(HeaderTail(h))
  }

  // ---- program headers -----------------------------------------------------------------------

  /** Type, flags, offset, two addresses, two sizes, alignment. */
  function SegmentStruct(kind: nat): Struct {
    Then(kind, 4, Then(0, 4, Then(0, 8, Then(0, 8, Then(0, 8, Then(0, 8, Then(0, 8,
      Then(0, 8, End))))))))
  }

  lemma SegmentSize(kind: nat)
    requires kind < 0x1_0000_0000
    ensures Size(SegmentStruct(kind)) == 56 && Fits(SegmentStruct(kind))
  {
    hide Size, Fits, Power256;
    Bounds();
    var s := SegmentStruct(kind);
    Nothing();
    OneField(s.rest.rest.rest.rest.rest.rest.rest, 0);
    OneField(s.rest.rest.rest.rest.rest.rest, 8);
    OneField(s.rest.rest.rest.rest.rest, 16);
    OneField(s.rest.rest.rest.rest, 24);
    OneField(s.rest.rest.rest, 32);
    OneField(s.rest.rest, 40);
    OneField(s.rest, 48);
    OneField(s, 52);
  }

  function ProgramTable(segments: seq<nat>): seq<byte> {
    if segments == [] then []
    else
      var n := |segments| - 1;
      ProgramTable(segments[..n]) + Pack(SegmentStruct(segments[n]))
  }

  ghost predicate AreKinds(segments: seq<nat>) {
    forall i :: 0 <= i < |segments| ==> segments[i] < 0x1_0000_0000
  }

  lemma {:induction false} ProgramTableSize(segments: seq<nat>)
    requires AreKinds(segments)
    ensures |ProgramTable(segments)| == 56 * |segments|
  {
    hide Pack, SegmentStruct;
    if segments != [] {
      ProgramTableSize(segments[..|segments| - 1]);
      SegmentSize(segments[|segments| - 1]);
    }
  }

  lemma {:induction false} ProgramEntry(segments: seq<nat>, i: nat)
    requires AreKinds(segments) && i < |segments|
    ensures |ProgramTable(segments)| == 56 * |segments|
    ensures ProgramTable(segments)[56 * i..56 * i + 56] == Pack(SegmentStruct(segments[i]))
  {
    hide Pack, SegmentStruct;
    var n := |segments| - 1;
    var front, last := ProgramTable(segments[..n]), Pack(SegmentStruct(segments[n]));
    ProgramTableSize(segments);
    ProgramTableSize(segments[..n]);
    if i < n {
      ProgramEntry(segments[..n], i);
      SliceOfPart(front, last, 56 * i, 56);
    } else {
      assert (front + last)[|front|..] == last;
    }
  }

  lemma SliceOfPart(front: seq<byte>, back: seq<byte>, at: nat, size: nat)
    requires at + size <= |front|
    ensures (front + back)[at..at + size] == front[at..at + size]
  {
  }

  lemma KindComesFirst(b: seq<byte>, at: nat, kind: nat)
    requires kind < 0x1_0000_0000 && at + 56 <= |b|
    requires b[at..at + 56] == Pack(SegmentStruct(kind))
    ensures Field(b, at, 4) == kind
  {
    hide Field, Pack, Size, Fits;
    SegmentSize(kind);
    PackedReads(b, at, SegmentStruct(kind));
  }

  lemma PartOf(b: seq<byte>, at: nat, whole: seq<byte>, from: nat, size: nat)
    requires at + |whole| <= |b| && b[at..at + |whole|] == whole && from + size <= |whole|
    ensures b[at + from..at + from + size] == whole[from..from + size]
  {
    Within(b, at, whole, from, from + size);
  }

  /** The type of a segment is read from the front of its entry in a table. */
  lemma KindInTable(b: seq<byte>, at: nat, table: seq<byte>, from: nat, kind: nat)
    requires kind < 0x1_0000_0000 && from + 56 <= |table| && at + |table| <= |b|
    requires b[at..at + |table|] == table && table[from..from + 56] == Pack(SegmentStruct(kind))
    ensures Field(b, at + from, 4) == kind
  {
    hide Field, Pack, Size, Fits, SegmentStruct;
    PartOf(b, at, table, from, 56);
    KindComesFirst(b, at + from, kind);
  }

  /** What a file is besides its sections; the strides are written out, or left to the standard. */
  datatype Exe = Exe(elfType: nat, entryPoint: nat, segments: seq<nat>, declared: bool)

  /** The header of section `i`; section 0 carries what is escaped, `k` is the string table. */
  function EntryFor(sections: seq<Section>, k: nat, form: Form, i: nat): seq<byte>
    requires i < |sections|
  {
    Entry(NameOffset(sections, i), sections[i].kind, 64,
          if form.escapedCount && i == 0 then |sections| else sections[i].size,
          if form.escapedIndex && i == 0 then k else 0)
  }

  function Table(sections: seq<Section>, k: nat, form: Form, n: nat): seq<byte>
    requires n <= |sections|
  {
    if n == 0 then [] else Table(sections, k, form, n - 1) + EntryFor(sections, k, form, n - 1)
  }

  /** A list the format has room for: the string table is section `k`, of the size it will have. */
  ghost predicate Writable(sections: seq<Section>, k: nat, form: Form) {
    && 0 < k < |sections| < (if form.escapedCount then 0x1_0000_0000 else 0x1_0000)
    && (!form.escapedIndex ==> k < 0xffff)
    && |Strings(sections)| < 0x1_0000_0000
    && sections[k].size == |Strings(sections)|
    && forall i :: 0 <= i < |sections| ==>
         && 0 !in sections[i].name
         && sections[i].kind < 0x1_0000_0000
         && sections[i].size < 0x1_0000_0000_0000_0000
  }

  lemma EntryForSize(sections: seq<Section>, k: nat, form: Form, i: nat)
    requires Writable(sections, k, form) && i < |sections|
    ensures |EntryFor(sections, k, form, i)| == 64
  {
    hide Strings, Fits, Size, Pack;
    StringsSpell(sections, i);
    EntrySize(NameOffset(sections, i), sections[i].kind, 64,
              if form.escapedCount && i == 0 then |sections| else sections[i].size,
              if form.escapedIndex && i == 0 then k else 0);
  }

  lemma {:induction false} TableSize(sections: seq<Section>, k: nat, form: Form, n: nat)
    requires Writable(sections, k, form) && n <= |sections|
    ensures |Table(sections, k, form, n)| == 64 * n
  {
    hide EntryFor, Writable;
    if n > 0 {
      TableSize(sections, k, form, n - 1);
      EntryForSize(sections, k, form, n - 1);
    }
  }

  lemma {:induction false} TableEntry(
      sections: seq<Section>, k: nat, form: Form, n: nat, i: nat)
    requires Writable(sections, k, form) && i < n <= |sections|
    ensures |Table(sections, k, form, n)| == 64 * n
    ensures Table(sections, k, form, n)[64 * i..64 * i + 64] == EntryFor(sections, k, form, i)
    decreases n
  {
    hide EntryFor, Writable;
    TableSize(sections, k, form, n);
    TableSize(sections, k, form, n - 1);
    EntryForSize(sections, k, form, n - 1);
    if i < n - 1 {
      TableEntry(sections, k, form, n - 1, i);
      SliceOfPart(Table(sections, k, form, n - 1), EntryFor(sections, k, form, n - 1), 64 * i, 64);
    }
  }

  ghost predicate ExeFits(exe: Exe) {
    && exe.elfType < 0x1_0000 && exe.entryPoint < 0x1_0000_0000_0000_0000
    && |exe.segments| < 0x1_0000 && AreKinds(exe.segments)
  }

  /** File header, names, sections, segments. */
  function ElfFile(sections: seq<Section>, k: nat, form: Form, exe: Exe): seq<byte> {
    FileHeader(HeadOf(sections, k, form, exe)) + Strings(sections)
    + Table(sections, k, form, |sections|) + ProgramTable(exe.segments)
  }

  function PlanOf(sections: seq<Section>, k: nat): Plan {
    var strings := Strings(sections);
    Plan(64 + |strings|, 64, |strings|,
         seq(|sections|, (i: nat) requires i < |sections| => NameOffset(sections, i)), k)
  }

  /** The numbers the file header carries. */
  function HeadOf(sections: seq<Section>, k: nat, form: Form, exe: Exe): Head {
    var table := 64 + |Strings(sections)|;
    Head(exe.elfType, 1, exe.entryPoint, table + 64 * |sections|, table,
         if exe.declared then 56 else 0, |exe.segments|, if exe.declared then 64 else 0,
         if form.escapedCount then 0 else |sections|, if form.escapedIndex then 0xffff else k)
  }

  lemma HeadOfFits(sections: seq<Section>, k: nat, form: Form, exe: Exe)
    requires Writable(sections, k, form) && ExeFits(exe)
    ensures HeadFits(HeadOf(sections, k, form, exe))
  {
    hide Strings;
  }

  /** The four parts, where they are. */
  lemma FileShape(sections: seq<Section>, k: nat, form: Form, exe: Exe)
    requires Writable(sections, k, form) && ExeFits(exe)
    ensures var b, at := ElfFile(sections, k, form, exe), 64 + |Strings(sections)|;
      var end := at + 64 * |sections|;
      && |b| == end + 56 * |exe.segments|
      && b[..64] == FileHeader(HeadOf(sections, k, form, exe))
      && b[64..at] == Strings(sections)
      && b[at..end] == Table(sections, k, form, |sections|)
      && b[end..] == ProgramTable(exe.segments)
  {
    hide Strings, Size, Fits, Pack, Table, HeadOf, HeaderTail, HeadFits, ProgramTable;
    HeadOfFits(sections, k, form, exe);
    TailSize(HeadOf(sections, k, form, exe));
    TableSize(sections, k, form, |sections|);
    ProgramTableSize(exe.segments);
    FourParts(FileHeader(HeadOf(sections, k, form, exe)), Strings(sections),
              Table(sections, k, form, |sections|), ProgramTable(exe.segments));
  }

  lemma FourParts(a: seq<byte>, b: seq<byte>, c: seq<byte>, d: seq<byte>)
    ensures var whole, at := a + b + c + d, |a| + |b|;
      && |whole| == at + |c| + |d| && whole[..|a|] == a && whole[|a|..at] == b
      && whole[at..at + |c|] == c && whole[at + |c|..] == d
  {
  }

  lemma EntryFields(b: seq<byte>, at: nat, name: nat, kind: nat, offset: nat, size: nat, link: nat)
    requires at + 64 <= |b| && b[at..at + 64] == Entry(name, kind, offset, size, link)
    requires name < 0x1_0000_0000 && kind < 0x1_0000_0000 && link < 0x1_0000_0000
    requires offset < 0x1_0000_0000_0000_0000 && size < 0x1_0000_0000_0000_0000
    ensures Field(b, at, 4) == name && Field(b, at + 4, 4) == kind
    ensures Field(b, at + 24, 8) == offset && Field(b, at + 32, 8) == size
    ensures Field(b, at + 40, 4) == link
  {
    hide Word, Field, LittleEndian, Power256, Pack, Fits, Size;
    var s0 := EntryStruct(name, kind, offset, size, link);
    var s3 := s0.rest.rest.rest;
    var s6 := s3.rest.rest.rest;
    EntrySize(name, kind, offset, size, link);
    PackedReads(b, at, s0);
    assert Reads(b, at + 4, s0.rest) && Reads(b, at + 8, s0.rest.rest);
    assert Reads(b, at + 16, s3) && Reads(b, at + 24, s3.rest);
    assert Reads(b, at + 32, s3.rest.rest) && Reads(b, at + 40, s6);
  }

  lemma HeaderFields(b: seq<byte>, h: Head)
    requires 64 <= |b| && b[..64] == FileHeader(h) && HeadFits(h)
    ensures b[..4] == [0x7f, 0x45, 0x4c, 0x46] && b[4] == 2 && b[5] == 1
    ensures Field(b, 16, 2) == h.elfType && Field(b, 18, 2) == 183 && Field(b, 20, 4) == h.version
    ensures Field(b, 24, 8) == h.entryPoint && Field(b, 32, 8) == h.phoff
    ensures Field(b, 40, 8) == h.shoff && Field(b, 54, 2) == h.phentsize && Field(b, 56, 2) == h.phnum
    ensures Field(b, 58, 2) == h.shentsize && Field(b, 60, 2) == h.shnum
    ensures Field(b, 62, 2) == h.shstrndx
  {
    hide Word, Field, LittleEndian, Power256, Pack, Fits, Size, HeadFits;
    assert b[..16] == b[..64][..16] == IDENT;
    assert b[..4] == b[..16][..4] && b[4] == b[..16][4] && b[5] == b[..16][5];
    var s, t := HeaderTail(h), TableTail(h);
    TailSize(h);
    assert b[16..16 + |Pack(s)|] == b[..64][16..] == Pack(s);
    PackedReads(b, 16, s);
    assert Reads(b, 18, s.rest) && Reads(b, 20, s.rest.rest) && Reads(b, 24, s.rest.rest.rest);
    assert Reads(b, 32, s.rest.rest.rest.rest) && Reads(b, 40, t) && Reads(b, 48, t.rest);
    assert Reads(b, 52, t.rest.rest) && Reads(b, 54, t.rest.rest.rest);
    assert Reads(b, 56, t.rest.rest.rest.rest) && Reads(b, 58, t.rest.rest.rest.rest.rest);
    assert Reads(b, 60, t.rest.rest.rest.rest.rest.rest);
    assert Reads(b, 62, t.rest.rest.rest.rest.rest.rest.rest);
  }

  /** What the writer writes is laid out as described, in whichever form it is asked for. */
  lemma WriterLays(sections: seq<Section>, k: nat, form: Form, exe: Exe)
    requires Writable(sections, k, form) && ExeFits(exe)
    ensures Lays(ElfFile(sections, k, form, exe), sections, PlanOf(sections, k), form)
  {
    hide Field, Entry, FileHeader, ElfFile, Table, Strings, Spells, ProgramTable, HeadFits;
    var b, plan := ElfFile(sections, k, form, exe), PlanOf(sections, k);
    FileShape(sections, k, form, exe);
    HeadOfFits(sections, k, form, exe);
    HeaderFields(b, HeadOf(sections, k, form, exe));
    forall i | 0 <= i < |sections|
      ensures LaysSection(b, sections[i], plan, i, form.escapedCount && i == 0)
    {
      WriterLaysSection(sections, k, form, exe, i);
    }
    WriterEntry(sections, k, form, exe, 0);
    WriterEntry(sections, k, form, exe, k);
  }

  lemma WriterEntry(sections: seq<Section>, k: nat, form: Form, exe: Exe, i: nat)
    requires Writable(sections, k, form) && ExeFits(exe) && i < |sections|
    ensures var b, at := ElfFile(sections, k, form, exe), PlanOf(sections, k).table + 64 * i;
      && Field(b, at, 4) == NameOffset(sections, i)
      && Field(b, at + 4, 4) == sections[i].kind && Field(b, at + 24, 8) == 64
      && Field(b, at + 32, 8)
           == (if form.escapedCount && i == 0 then |sections| else sections[i].size)
      && Field(b, at + 40, 4) == (if form.escapedIndex && i == 0 then k else 0)
  {
    hide Field, Entry, FileHeader, ElfFile, Table, Strings, ExeFits;
    var b, plan := ElfFile(sections, k, form, exe), PlanOf(sections, k);
    var at := plan.table + 64 * i;
    TableEntry(sections, k, form, |sections|, i);
    StringsSpell(sections, i);
    FileShape(sections, k, form, exe);
    Within(b, plan.table, Table(sections, k, form, |sections|), 64 * i, 64 * i + 64);
    assert b[at..at + 64] == EntryFor(sections, k, form, i);
    EntryFields(b, at, NameOffset(sections, i), sections[i].kind, 64,
                if form.escapedCount && i == 0 then |sections| else sections[i].size,
                if form.escapedIndex && i == 0 then k else 0);
  }

  lemma WriterLaysSection(sections: seq<Section>, k: nat, form: Form, exe: Exe, i: nat)
    requires Writable(sections, k, form) && ExeFits(exe) && i < |sections|
    ensures |ElfFile(sections, k, form, exe)| >= 64 + |Strings(sections)|
    ensures LaysSection(ElfFile(sections, k, form, exe), sections[i], PlanOf(sections, k), i,
                        form.escapedCount && i == 0)
  {
    hide Field, EntryFor, FileHeader, ElfFile, Table, Strings, ExeFits, ProgramTable, HeadOf;
    WriterEntry(sections, k, form, exe, i);
    StringsSpell(sections, i);
    var b, strings := ElfFile(sections, k, form, exe), Strings(sections);
    var at, name := NameOffset(sections, i), sections[i].name;
    FileShape(sections, k, form, exe);
    Within(b, 64, strings, at, at + |name|);
    Within(b, 64, strings, at + |name|, at + |name| + 1);
    assert b[64 + at + |name|..64 + at + |name| + 1][0] == strings[at + |name|];
  }

  // ---- what the screen makes of a written file ------------------------------------------------

  ghost predicate IsTyped(value: nat, elfType: ElfType) {
    && (elfType.NoType? <==> value == 0) && (elfType.Rel? <==> value == 1)
    && (elfType.Exec? <==> value == 2) && (elfType.Dyn? <==> value == 3)
    && (elfType.Core? <==> value == 4)
  }

  /** An interpreter or dynamic segment, or a shared object. */
  predicate IsDynamic(exe: Exe) {
    3 in exe.segments || 2 in exe.segments || exe.elfType == 3
  }

  ghost predicate IsEvidenceOf(exe: Exe, evidence: seq<Evidence>) {
    && (InterpreterSegment in evidence <==> 3 in exe.segments)
    && (DynamicSegment in evidence <==> 2 in exe.segments)
    && (SharedObjectType in evidence <==> exe.elfType == 3)
    && forall i, j :: 0 <= i < j < |evidence| ==> evidence[i] != evidence[j]
  }

  predicate HasSymbolTable(sections: seq<Section>) {
    exists i :: 0 <= i < |sections| && sections[i].kind == 2
  }

  /** A section called `.eh_frame` with something in it; an escaped count passes for something. */
  predicate HasUnwindTable(sections: seq<Section>, form: Form) {
    exists i :: 0 <= i < |sections|
      && sections[i].name == [46, 101, 104, 95, 102, 114, 97, 109, 101]
      && (sections[i].size > 0 || (form.escapedCount && i == 0))
  }

  predicate AreNamesOf(names: seq<seq<byte>>, sections: seq<Section>) {
    |names| == |sections| && forall i :: 0 <= i < |sections| ==> names[i] == sections[i].name
  }

  /** Everything the screen says of a file, from what was written into it. */
  ghost predicate IsScreening(r: Screening, sections: seq<Section>, form: Form, exe: Exe) {
    if IsDynamic(exe) then
      r.Refused? && r.reason.DynamicallyLinked? && IsEvidenceOf(exe, r.reason.evidence)
    else if !HasSymbolTable(sections) && !HasUnwindTable(sections, form) then
      && r.Refused? && r.reason.StrippedWithoutUnwindTables?
      && AreNamesOf(r.reason.sectionNames, sections)
    else
      && r.Accepted? && r.facts.machine == 183 && IsTyped(exe.elfType, r.facts.elfType)
      && r.facts.stripped == !HasSymbolTable(sections)
      && r.facts.hasEhFrame == HasUnwindTable(sections, form)
      && r.facts.sectionCount == |sections| && r.facts.entryPoint == exe.entryPoint
      && AreNamesOf(r.facts.sectionNames, sections)
  }

  lemma EntriesAre()
    ensures forall base: nat, i: nat :: EntryAt(base, i, 56) == base + 56 * i
  {
  }

  lemma WrittenSegments(sections: seq<Section>, k: nat, form: Form, exe: Exe)
    requires Writable(sections, k, form) && ExeFits(exe)
    ensures var b := ElfFile(sections, k, form, exe);
      SegmentTypes(b) == exe.segments
      && (HasProgramTable(b) ==> EntryAt(Phoff(b), Phnum(b), PhStride(b)) <= |b|)
  {
    hide Field, FileHeader, ElfFile, Table, Strings, ProgramTable, HeadFits, Pack, SegmentStruct,
         EntryAt;
    EntriesAre();
    var b := ElfFile(sections, k, form, exe);
    FileShape(sections, k, form, exe);
    HeadOfFits(sections, k, form, exe);
    HeaderFields(b, HeadOf(sections, k, form, exe));
    var at, table := Phoff(b), ProgramTable(exe.segments);
    assert b[at..at + |table|] == b[at..] == table;
    forall i | 0 <= i < |exe.segments| ensures SegmentType(b, i) == exe.segments[i] {
      ProgramEntry(exe.segments, i);
      KindInTable(b, at, table, 56 * i, exe.segments[i]);
      assert EntryAt(at, i, 56) == at + 56 * i;
    }
  }

  lemma SymbolsAndUnwind(sections: seq<Section>, form: Form)
    requires sections != []
    ensures AnySymtab(sections) == HasSymbolTable(sections)
    ensures UnwindSeen(sections, form) <==> HasUnwindTable(sections, form)
    ensures AreNamesOf(Names(sections), sections)
  {
  }

  lemma EvidenceFromSegments(exe: Exe, b: seq<byte>)
    requires SegmentTypes(b) == exe.segments && Field(b, 16, 2) == exe.elfType
    ensures IsEvidenceOf(exe, EvidenceOf(b)) && (EvidenceOf(b) == [] <==> !IsDynamic(exe))
  {
    hide Field, SegmentTypes;
    EvidenceIsComplete(exe.segments);
    var e := EvidenceOf(b);
    if e != [] {
      assert e[0] in e;
      assert e[0] == InterpreterSegment || e[0] == DynamicSegment || e[0] == SharedObjectType;
    }
  }

  /** Round trip: the screen says of a written file what was written into it, in every form. */
  lemma WriteThenScreen(sections: seq<Section>, k: nat, form: Form, exe: Exe)
    requires Writable(sections, k, form) && ExeFits(exe)
    ensures IsScreening(Ruling(ElfFile(sections, k, form, exe)), sections, form, exe)
  {
    hide Field, FileHeader, ElfFile, Table, Strings, TableFault, Sections, Lays, UnwindSeen,
         AnyUnwind, AnySymtab, Names, EvidenceOf, IsEvidenceOf, IsDynamic, HasSymbolTable,
         HasUnwindTable, AreNamesOf, EntryAt, Phoff, Phnum, PhStride, HeadFits, ExeFits;
    var b, plan := ElfFile(sections, k, form, exe), PlanOf(sections, k);
    FileShape(sections, k, form, exe);
    HeadOfFits(sections, k, form, exe);
    HeaderFields(b, HeadOf(sections, k, form, exe));
    WrittenSegments(sections, k, form, exe);
    EvidenceFromSegments(exe, b);
    WriterLays(sections, k, form, exe);
    ParseRecovers(b, sections, plan, form);
    assert b[..Min(4, |b|)] == b[..4];
    FactsOfForm(Sections(b), sections, form);
    SymbolsAndUnwind(sections, form);
  }

  /** An empty section 0 called `.eh_frame`, and the string table. */
  const MISNAMED: seq<Section> := [Section(EH_FRAME, 0, 0), Section([], 3, 11)]

  const PLAIN: Exe := Exe(2, 0, [], true)

  /** The exception is real: one list, two ways of keeping the count, refused and accepted. */
  lemma EscapedCountCanChangeTheVerdict()
    ensures Writable(MISNAMED, 1, Form(false, false)) && Writable(MISNAMED, 1, Form(true, false))
    ensures Ruling(ElfFile(MISNAMED, 1, Form(false, false), PLAIN)).Refused?
    ensures Ruling(ElfFile(MISNAMED, 1, Form(true, false), PLAIN)).Accepted?
  {
    hide Ruling, ElfFile, Writable, HasSymbolTable, HasUnwindTable;
    MisnamedIsWritable();
    MisnamedUnwind();
    PlainFits();
    WriteThenScreen(MISNAMED, 1, Form(false, false), PLAIN);
    WriteThenScreen(MISNAMED, 1, Form(true, false), PLAIN);
  }

  lemma PlainFits()
    ensures ExeFits(PLAIN) && !IsDynamic(PLAIN)
  {
  }

  lemma MisnamedUnwind()
    ensures !HasSymbolTable(MISNAMED) && !HasUnwindTable(MISNAMED, Form(false, false))
    ensures HasUnwindTable(MISNAMED, Form(true, false))
  {
    assert |MISNAMED| == 2 && MISNAMED[0].name == EH_FRAME;
  }

  lemma MisnamedIsWritable()
    ensures Writable(MISNAMED, 1, Form(false, false)) && Writable(MISNAMED, 1, Form(true, false))
  {
    var first := MISNAMED[..1];
    assert first == [MISNAMED[0]] && first[..0] == [];
    assert Strings(first) == EH_FRAME + [0];
    assert Strings(MISNAMED) == Strings(first) + [] + [0];
    assert |Strings(MISNAMED)| == 11;
  }
}
