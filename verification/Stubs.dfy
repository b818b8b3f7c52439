/** The fixtures written byte by byte for the two readers (tools/aot/stubs.ts). */
module Stubs {
  import opened Common
  import opened Elf
  import opened ElfLayout
  import F = Features
  import opened FeatureWriter

  /** A typed store into a buffer, least significant byte first. */
  method SetUint(file: array<byte>, at: nat, value: nat, width: nat)
    requires at + width <= file.Length && value < Power256(width)
    modifies file
    ensures Field(file[..], at, width) == value
    ensures forall other: nat, w: nat ::
      other + w <= file.Length && (other + w <= at || at + width <= other) ==>
        Field(file[..], other, w) == old(Field(file[..], other, w))
  {
    hide Field, Word, LittleEndian, Power256;
    var data := LittleEndian(value, width);
    ghost var before := file[..];
    forall i | 0 <= i < width {
      file[at + i] := data[i];
    }
    ghost var after := file[..];
    assert after[at..at + width] == data;
    FieldReadsBack(after, at, value, width);
    forall other: nat, w: nat | other + w <= file.Length && (other + w <= at || at + width <= other)
      ensures Field(after, other, w) == Field(before, other, w)
    {
      FieldKept(before, after, other, w);
    }
  }

  /** A field depends on its own bytes only. */
  lemma {:induction false} WordIsLocal(a: seq<byte>, b: seq<byte>, at: nat, width: nat)
    requires at + width <= |a| && at + width <= |b|
    requires forall i :: at <= i < at + width ==> a[i] == b[i]
    ensures Word(a, at, width) == Word(b, at, width)
    decreases width
  {
    if width > 0 {
      WordIsLocal(a, b, at + 1, width - 1);
    }
  }

  lemma {:induction false} ZerosWord(b: seq<byte>, at: nat, width: nat)
    requires at + width <= |b| && forall i :: at <= i < at + width ==> b[i] == 0
    ensures Word(b, at, width) == 0
    decreases width
  {
    if width > 0 {
      ZerosWord(b, at + 1, width - 1);
    }
  }

  /** What each of the stores below leaves for the next: earlier fields keep their values. */
  lemma FieldKept(before: seq<byte>, after: seq<byte>, at: nat, width: nat)
    requires |before| == |after| && at + width <= |after|
    requires forall i :: at <= i < at + width ==> after[i] == before[i]
    ensures Field(after, at, width) == Field(before, at, width)
  {
    WordIsLocal(before, after, at, width);
  }

  method AcceptableElf() returns (file: array<byte>)
    ensures fresh(file) && file.Length == 192
    ensures Acceptable(file[..]) && Ruling(file[..]).Accepted?
    ensures SectionCount(file[..]) == 2 && AnySymtab(Sections(file[..]))
  {
    hide Field, Ruling, Acceptable, Sections, SectionCount, AnySymtab, Power256;
    file := new byte[64 + 2 * 64](_ => 0);
    file[0], file[1], file[2], file[3], file[4], file[5], file[6] := 0x7f, 0x45, 0x4c, 0x46, 2, 1, 1;
    Bounds();
    FixtureStart(file[..]);
    SetUint(file, 16, 2, 2);
    SetUint(file, 18, 183, 2);
    SetUint(file, 40, 64, 8);
    SetUint(file, 58, 64, 2);
    SetUint(file, 60, 2, 2);
    SetUint(file, 64 + 64 + 4, 2, 4);
    AcceptableFields(file[..]);
  }

  lemma FixtureStart(b: seq<byte>)
    requires |b| == 192
    requires b[..7] == [0x7f, 0x45, 0x4c, 0x46, 2, 1, 1] && forall i :: 7 <= i < 192 ==> b[i] == 0
    ensures FixtureIdent(b) && Field(b, 56, 2) == 0 && Field(b, 62, 2) == 0
  {
    ZerosWord(b, 56, 2);
    ZerosWord(b, 62, 2);
    forall i | 0 <= i < 7 ensures b[i] == b[..7][i] && Field(b, i, 1) == b[i] {
    }
  }

  /** The identification bytes, as one-byte fields. */
  predicate FixtureIdent(b: seq<byte>) {
    && Field(b, 0, 1) == 0x7f && Field(b, 1, 1) == 0x45 && Field(b, 2, 1) == 0x4c
    && Field(b, 3, 1) == 0x46 && Field(b, 4, 1) == 2 && Field(b, 5, 1) == 1
  }

  lemma AcceptableFields(b: seq<byte>)
    requires |b| == 192 && FixtureIdent(b)
    requires Field(b, 16, 2) == 2 && Field(b, 18, 2) == 183 && Field(b, 40, 8) == 64
    requires Field(b, 58, 2) == 64 && Field(b, 60, 2) == 2 && Field(b, 132, 4) == 2
    requires Field(b, 56, 2) == 0 && Field(b, 62, 2) == 0
    ensures Acceptable(b) && Ruling(b).Accepted?
    ensures SectionCount(b) == 2 && AnySymtab(Sections(b))
  {
    hide Field, CString, Spells;
    FixtureBytes(b);
    assert EntryAt(64, 1, 64) == 128 && EntryAt(64, 2, 64) == 192;
    assert NameEnd(b) == 0;
    assert SectionType(b, 1) == SHT_SYMTAB;
    assert Acceptable(b);
    AcceptsExactly(b);
    TablesMean(b);
  }

  lemma FixtureBytes(b: seq<byte>)
    requires |b| == 192 && FixtureIdent(b)
    ensures b[..4] == ELF_MAGIC && b[EI_CLASS] == ELFCLASS64 && b[EI_DATA] == ELFDATA2LSB
  {
    assert forall i :: 0 <= i < 6 ==> Field(b, i, 1) == b[i] as int;
  }

  /**
   * The same verdict from a third of the bytes: one section header laid over the file header,
   * with `e_version` standing in for its type.
   */
  function TinyElf(): seq<byte> {
    FileHeader(TINY)
  }

  const TINY: Head := Head(2, 2, 0, 0, 16, 0, 0, 48, 1, 0)

  /** The least accepted length is a file header's 64 bytes, not the fixture's 192. */
  lemma LeastAcceptedLength()
    ensures |TinyElf()| == 64 && Ruling(TinyElf()).Accepted?
    ensures forall b :: Ruling(b).Accepted? ==> |b| >= 64
  {
    hide Ruling, Field, CString, Spells, TableFault, FileHeader;
    forall b | Ruling(b).Accepted? ensures |b| >= 64 {
      AcceptsExactly(b);
    }
    var b := TinyElf();
    TinySize();
    assert b[..64] == b;
    HeaderFields(b, TINY);
    assert EntryAt(16, 1, 48) == 64;
    assert NameEnd(b) == 0;
    assert SectionType(b, 0) == SHT_SYMTAB;
    assert Acceptable(b);
    AcceptsExactly(b);
  }

  lemma TinySize()
    ensures |TinyElf()| == 64
  {
    hide Pack, Size, Fits;
    TailSize(TINY);
  }

  // ---- the feature section, with one byte per length ------------------------------------

  function StubEntries(pairs: seq<F.Declared>): seq<nat> {
    if pairs == [] then []
    else
      var d := pairs[|pairs| - 1];
      StubEntries(pairs[..|pairs| - 1]) + ([PrefixOf(d.use) as nat, |d.name|] + d.name)
  }

  function StubPayload(pairs: seq<F.Declared>): seq<nat> {
    [|F.SECTION_NAME|] + F.SECTION_NAME + ([|pairs|] + StubEntries(pairs))
  }

  method FeatureSection(pairs: seq<F.Declared>) returns (section: seq<nat>)
    ensures section == [0, |StubPayload(pairs)|] + StubPayload(pairs)
  {
    var body: seq<nat> := [|pairs|];
    for i := 0 to |pairs|
      invariant body == [|pairs|] + StubEntries(pairs[..i])
    {
      var d := pairs[i];
      assert pairs[..i + 1][..i] == pairs[..i];
      body := body + ([PrefixOf(d.use) as nat, |d.name|] + d.name);
    }
    assert pairs[..|pairs|] == pairs;
    var payload := [|F.SECTION_NAME|] + F.SECTION_NAME + body;
    section := [0, |payload|] + payload;
  }

  lemma {:induction false} EntriesAppend(front: seq<F.Declared>, d: F.Declared)
    ensures EncodeEntries(front + [d]) == EncodeEntries(front) + EncodeEntry(d)
  {
    hide EncodeEntry;
    if front == [] {
      assert EncodeEntries([d]) == EncodeEntry(d) + EncodeEntries([]);
    } else {
      EntriesAppend(front[1..], d);
      assert (front + [d])[1..] == front[1..] + [d];
    }
  }

  /** One byte per length is never longer than LEB128, and the same where lengths are small. */
  lemma {:induction false} StubEntriesAgree(pairs: seq<F.Declared>)
    ensures |StubEntries(pairs)| <= |EncodeEntries(pairs)|
    ensures (forall i :: 0 <= i < |pairs| ==> |pairs[i].name| < 128) ==>
      StubEntries(pairs) == EncodeEntries(pairs)
  {
    if pairs != [] {
      var front, d := pairs[..|pairs| - 1], pairs[|pairs| - 1];
      StubEntriesAgree(front);
      EntriesAppend(front, d);
      assert pairs == front + [d];
    }
  }

  lemma {:induction false} NamesAreShorterThanEntries(pairs: seq<F.Declared>, i: nat)
    requires i < |pairs|
    ensures |pairs[i].name| < |StubEntries(pairs)|
    decreases |pairs|
  {
    if i < |pairs| - 1 {
      NamesAreShorterThanEntries(pairs[..|pairs| - 1], i);
    }
  }

  lemma {:induction false} AsManyEntriesAsBytes(pairs: seq<F.Declared>)
    ensures |pairs| <= |StubEntries(pairs)|
  {
    if pairs != [] {
      AsManyEntriesAsBytes(pairs[..|pairs| - 1]);
    }
  }

  /**
   * The fixture writer writes a valid encoding exactly while its payload is under 128 bytes: the
   * length byte it pushes is a LEB128 number only up to there.
   */
  lemma StubEncodesExactlyUnder128(pairs: seq<F.Declared>)
    ensures [0, |StubPayload(pairs)|] + StubPayload(pairs)
              == EncodeSection(F.CUSTOM_SECTION, TargetBody(pairs))
      <==> |StubPayload(pairs)| < 128
  {
    hide StubEntries, EncodeEntries;
    StubEntriesAgree(pairs);
    AsManyEntriesAsBytes(pairs);
    var stub, body := StubPayload(pairs), TargetBody(pairs);
    assert |stub| <= |body|;
    LongLeb(|body|);
    if |stub| < 128 {
      forall i | 0 <= i < |pairs| ensures |pairs[i].name| < 128 {
        NamesAreShorterThanEntries(pairs, i);
      }
      assert stub == body;
    }
  }

  lemma LongLeb(n: nat)
    ensures n >= 128 ==> |EncodeLeb(n)| >= 2
  {
  }

  /** What the fixture writer writes, within its range, the reader reads back. */
  lemma StubReadsBack(pairs: seq<F.Declared>)
    requires |StubPayload(pairs)| < 128
    ensures var wasm := PREAMBLE + EncodeSection(F.CUSTOM_SECTION, TargetBody(pairs));
      F.ReadModule(wasm).Features? && F.ReadModule(wasm).declared == pairs
  {
    hide F.ReadModule, EncodeSection, TargetBody, StubEntries;
    StubIsEncodable(pairs);
    WriteThenRead([], pairs, []);
    assert Module([], pairs) + [] == PREAMBLE + EncodeSection(F.CUSTOM_SECTION, TargetBody(pairs));
  }

  lemma StubIsEncodable(pairs: seq<F.Declared>)
    requires |StubPayload(pairs)| < 128
    ensures Encodable([], pairs)
  {
    hide StubEntries, EncodeEntries;
    StubEntriesAgree(pairs);
    AsManyEntriesAsBytes(pairs);
    forall i | 0 <= i < |pairs| ensures |pairs[i].name| < 128 {
      NamesAreShorterThanEntries(pairs, i);
    }
    assert EncodeLeb(|pairs|) == [|pairs|] && EncodeLeb(|F.SECTION_NAME|) == [15];
  }
}
