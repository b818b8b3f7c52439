/**
 * The writer side of `target_features`, and what the reader makes of whole, longer and shorter
 * modules (tools/aot/features.ts, tools/aot/stubs.ts).
 */
module FeatureWriter {
  import opened Common
  import opened Ordering
  import opened Features

  // ---- answers that more bytes cannot change -----------------------------------------

  /** Everything but running out of bytes. */
  predicate IsFinal(r: Scan) {
    r.Failed? ==>
      !r.reason.Truncated? && !r.reason.NoTargetFeaturesSection?
      && (r.reason.NotWasm? ==> |r.reason.found| == 4)
  }

  lemma {:induction false} LebIsStable(p: seq<byte>, suffix: seq<byte>, at: nat, left: nat)
    requires LebAt(p, at, left).Some?
    ensures LebAt(p + suffix, at, left) == LebAt(p, at, left)
    decreases left
  {
    if p[at] >= 128 {
      LebIsStable(p, suffix, at + 1, left - 1);
    }
  }

  lemma {:induction false} WalkIsStable(p: seq<byte>, suffix: seq<byte>, at: nat)
    requires IsFinal(Walk(p, at))
    ensures Walk(p + suffix, at) == Walk(p, at)
    decreases |p| - at
  {
    hide LebAt, Section, TargetPayload;
    LebIsStable(p, suffix, at + 1, 5);
    var size := LebAt(p, at + 1, 5).value;
    var end := size.next + size.value;
    assert (p + suffix)[size.next..end] == p[size.next..end];
    if p[at] != CUSTOM_SECTION || TargetPayload(p[size.next..end]).None? {
      WalkIsStable(p, suffix, end);
    }
  }

  /** A final answer on a prefix is the answer on every module that begins with it. */
  lemma FinalAnswersAreStable(p: seq<byte>, suffix: seq<byte>)
    requires IsFinal(ReadModule(p))
    ensures ReadModule(p + suffix) == ReadModule(p)
  {
    hide Walk;
    var b := p + suffix;
    if |p| >= 4 {
      assert b[..Min(4, |b|)] == p[..Min(4, |p|)];
      if |p| >= 8 && p[..4] == MAGIC && VersionOf(p) == VERSION {
        WalkIsStable(p, suffix, 8);
      }
    }
  }

  /** Cutting a module short yields a failure or the very same feature set, never another. */
  lemma TruncationNeverYieldsAnotherSet(b: seq<byte>, n: nat)
    requires n <= |b| && ReadModule(b[..n]).Features?
    ensures ReadModule(b) == ReadModule(b[..n])
  {
    hide ReadModule;
    FinalAnswersAreStable(b[..n], b[n..]);
    assert b == b[..n] + b[n..];
  }

  // ---- a writer ------------------------------------------------------------------------

  function Power128(k: nat): nat {
    if k == 0 then 1 else 128 * Power128(k - 1)
  }

  function EncodeLeb(n: nat): (r: seq<byte>)
    ensures |r| > 0
  {
    if n < 128 then [n] else [128 + n % 128] + EncodeLeb(n / 128)
  }

  /** Decoding inverts encoding and consumes exactly the bytes that were written. */
  lemma {:induction false} LebRoundTrip(n: nat, b: seq<byte>, at: nat, left: nat)
    requires left > 0 && n < Power128(left)
    requires at + |EncodeLeb(n)| <= |b| && b[at..at + |EncodeLeb(n)|] == EncodeLeb(n)
    ensures LebAt(b, at, left) == Some(Read(n, at + |EncodeLeb(n)|))
    decreases left
  {
    var code := EncodeLeb(n);
    assert b[at] == code[0];
    if n >= 128 {
      assert Power128(left) == 128 * Power128(left - 1);
      assert b[at + 1..at + |code|] == code[1..] == EncodeLeb(n / 128);
      LebRoundTrip(n / 128, b, at + 1, left - 1);
    }
  }

  const U35: nat := 0x8_0000_0000

  lemma FiveBytes()
    ensures Power128(5) == U35
  {
    assert Power128(5) == 128 * (128 * (128 * (128 * (128 * Power128(0)))));
  }

  function PrefixOf(use: Use): byte {
    match use
    case Used => 0x2b
    case Disallowed => 0x2d
    case Required => 0x3d
  }

  /** `+` is used, `-` disallowed, `=` required, and nothing else is anything. */
  lemma PrefixesAre(prefix: byte)
    ensures UseOf(prefix) == Some(Used) <==> prefix == '+' as int
    ensures UseOf(prefix) == Some(Disallowed) <==> prefix == '-' as int
    ensures UseOf(prefix) == Some(Required) <==> prefix == '=' as int
  {
  }

  function EncodeEntry(d: Declared): seq<byte> {
    [PrefixOf(d.use)] + EncodeLeb(|d.name|) + d.name
  }

  function EncodeEntries(pairs: seq<Declared>): seq<byte> {
    if pairs == [] then [] else EncodeEntry(pairs[0]) + EncodeEntries(pairs[1..])
  }

  /** `target_features`, spelled out. */
  const TARGET: seq<byte> :=
    [116, 97, 114, 103, 101, 116, 95, 102, 101, 97, 116, 117, 114, 101, 115]

  /** A custom section's name and what follows it. */
  function Named(name: seq<byte>, payload: seq<byte>): seq<byte> {
    EncodeLeb(|name|) + name + payload
  }

  function TargetBody(pairs: seq<Declared>): seq<byte> {
    Named(TARGET, EncodeLeb(|pairs|) + EncodeEntries(pairs))
  }

  datatype Other = Other(id: byte, payload: seq<byte>)

  function EncodeSection(id: byte, payload: seq<byte>): seq<byte> {
    [id] + EncodeLeb(|payload|) + payload
  }

  function EncodeOthers(others: seq<Other>): seq<byte> {
    if others == [] then []
    else EncodeSection(others[0].id, others[0].payload) + EncodeOthers(others[1..])
  }

  const PREAMBLE: seq<byte> := [0x00, 0x61, 0x73, 0x6d, 1, 0, 0, 0]

  /** Other sections, then the feature section. */
  function Module(others: seq<Other>, pairs: seq<Declared>): seq<byte> {
    PREAMBLE + EncodeOthers(others) + EncodeSection(0, TargetBody(pairs))
  }

  predicate IsSkipped(other: Other) {
    && |other.payload| < U35
    && (other.id == 0 ==> TargetPayload(other.payload) == None)
  }

  lemma NameIsRead(name: seq<byte>, payload: seq<byte>)
    requires |name| < U35
    ensures TargetPayload(Named(name, payload)) == if name == TARGET then Some(payload) else None
  {
    hide LebAt, EncodeLeb, Power128;
    var body, leb := Named(name, payload), EncodeLeb(|name|);
    FiveBytes();
    assert body[0..0 + |leb|] == leb;
    LebRoundTrip(|name|, body, 0, 5);
    assert body[|leb|..|leb| + |name|] == name && body[|leb| + |name|..] == payload;
  }

  /** A section of another kind is skipped, and so is a custom section with another name. */
  lemma OtherSectionsAreSkipped(id: byte, name: seq<byte>, payload: seq<byte>)
    requires |payload| < U35 && |name| < U35 && |Named(name, payload)| < U35
    ensures id != 0 ==> IsSkipped(Other(id, payload))
    ensures name != TARGET ==> IsSkipped(Other(0, Named(name, payload)))
  {
    hide TargetPayload, Named;
    NameIsRead(name, payload);
  }

  /** Sizes a LEB128 of five bytes can state, and no earlier section of the same name. */
  ghost predicate Encodable(others: seq<Other>, pairs: seq<Declared>) {
    && |TargetBody(pairs)| < U35 && |pairs| < U35
    && (forall i :: 0 <= i < |pairs| ==> |pairs[i].name| < U35)
    && forall i :: 0 <= i < |others| ==> IsSkipped(others[i])
  }

  /** A byte, a length and a body written at `at`, each where it starts. */
  lemma ThreeParts(b: seq<byte>, at: nat, head: byte, leb: seq<byte>, body: seq<byte>)
    requires at + |[head] + leb + body| <= |b|
    requires b[at..at + |[head] + leb + body|] == [head] + leb + body
    ensures b[at] == head && b[at + 1..at + 1 + |leb|] == leb
    ensures b[at + 1 + |leb|..at + 1 + |leb| + |body|] == body
  {
    var whole := [head] + leb + body;
    Within(b, at, whole, 0, 1);
    Within(b, at, whole, 1, 1 + |leb|);
    Within(b, at, whole, 1 + |leb|, |whole|);
    assert whole[0..1] == [head] && whole[1..1 + |leb|] == leb && whole[1 + |leb|..] == body;
    assert b[at] == b[at..at + 1][0];
  }

  lemma EntryIsRead(p: seq<byte>, at: nat, d: Declared)
    requires |d.name| < U35 && at + |EncodeEntry(d)| <= |p|
    requires p[at..at + |EncodeEntry(d)|] == EncodeEntry(d)
    ensures UseOf(p[at]) == Some(d.use)
    ensures var end := at + |EncodeEntry(d)|;
      LebAt(p, at + 1, 5) == Some(Read(|d.name|, end - |d.name|))
      && p[end - |d.name|..end] == d.name
  {
    hide LebAt, EncodeLeb, Power128;
    ThreeParts(p, at, PrefixOf(d.use), EncodeLeb(|d.name|), d.name);
    FiveBytes();
    LebRoundTrip(|d.name|, p, at + 1, 5);
  }

  /** Whole entries are read in order, whatever comes behind them. */
  lemma {:induction false} EntriesRoundTrip(
      p: seq<byte>, at: nat, pairs: seq<Declared>, code: seq<byte>, count: nat, index: nat,
      rest: Result<seq<Declared>, Failure>)
    requires index + |pairs| <= count && at + |code| <= |p|
    requires code == EncodeEntries(pairs) && p[at..at + |code|] == code
    requires forall i :: 0 <= i < |pairs| ==> |pairs[i].name| < U35
    requires rest == Entries(p, at + |code|, count, index + |pairs|)
    ensures Entries(p, at, count, index) == Then(pairs, rest)
    decreases |pairs|
  {
    hide Entries, Then;
    if pairs == [] {
      PrependNothing(rest);
    } else {
      var next, tail := at + |EncodeEntry(pairs[0])|, EncodeEntries(pairs[1..]);
      hide EncodeEntry, EncodeEntries;
      EntriesLength(pairs);
      FirstIsRead(p, at, pairs, count, index);
      EntriesRoundTrip(p, next, pairs[1..], tail, count, index + 1, rest);
      OneMoreEntry(pairs, rest);
    }
  }

  lemma FirstIsRead(p: seq<byte>, at: nat, pairs: seq<Declared>, count: nat, index: nat)
    requires pairs != [] && index < count && |pairs[0].name| < U35
    requires at + |EncodeEntries(pairs)| <= |p|
    requires p[at..at + |EncodeEntries(pairs)|] == EncodeEntries(pairs)
    ensures var next, rest := at + |EncodeEntry(pairs[0])|, EncodeEntries(pairs[1..]);
      && next + |rest| <= |p| && p[next..next + |rest|] == rest
      && Entries(p, at, count, index) == Then([pairs[0]], Entries(p, next, count, index + 1))
  {
    hide LebAt, EncodeEntry, EncodeEntries, Entries, Then, UseOf;
    FirstEntry(p, at, pairs);
    EntryIsRead(p, at, pairs[0]);
    EntryLength(pairs[0]);
    EntriesStep(p, at, pairs[0], at + |EncodeEntry(pairs[0])|, count, index);
  }

  lemma OneMoreEntry(pairs: seq<Declared>, rest: Result<seq<Declared>, Failure>)
    requires pairs != []
    ensures Then([pairs[0]], Then(pairs[1..], rest)) == Then(pairs, rest)
  {
    hide Then;
    PrependTwice([pairs[0]], pairs[1..], rest);
    assert [pairs[0]] + pairs[1..] == pairs;
  }

  lemma EntriesLength(pairs: seq<Declared>)
    requires pairs != []
    ensures |EncodeEntries(pairs)| == |EncodeEntry(pairs[0])| + |EncodeEntries(pairs[1..])|
  {
  }

  lemma FirstEntry(p: seq<byte>, at: nat, pairs: seq<Declared>)
    requires pairs != [] && at + |EncodeEntries(pairs)| <= |p|
    requires p[at..at + |EncodeEntries(pairs)|] == EncodeEntries(pairs)
    ensures var entry, rest := EncodeEntry(pairs[0]), EncodeEntries(pairs[1..]);
      && at + |entry| + |rest| <= |p|
      && p[at..at + |entry|] == entry && p[at + |entry|..at + |entry| + |rest|] == rest
  {
    hide EncodeEntry;
    var code, entry := EncodeEntries(pairs), EncodeEntry(pairs[0]);
    assert code[..|entry|] == entry && code[|entry|..] == EncodeEntries(pairs[1..]);
    Within(p, at, code, 0, |entry|);
    Within(p, at, code, |entry|, |code|);
  }

  lemma EntriesStep(p: seq<byte>, at: nat, d: Declared, next: nat, count: nat, index: nat)
    requires index < count && at < |p| && at + |d.name| < next <= |p|
    requires UseOf(p[at]) == Some(d.use)
    requires LebAt(p, at + 1, 5) == Some(Read(|d.name|, next - |d.name|))
    requires p[next - |d.name|..next] == d.name
    ensures Entries(p, at, count, index) == Then([d], Entries(p, next, count, index + 1))
  {
    hide LebAt, UseOf;
  }

  lemma EntryLength(d: Declared)
    ensures |EncodeEntry(d)| > |d.name|
  {
  }

  lemma AllEntries(p: seq<byte>, at: nat, count: nat)
    ensures Entries(p, at, count, count) == Ok([])
  {
  }

  lemma BodyRoundTrip(pairs: seq<Declared>)
    requires |pairs| < U35 && forall i :: 0 <= i < |pairs| ==> |pairs[i].name| < U35
    ensures TargetPayload(TargetBody(pairs)).Some?
    ensures Section(TargetPayload(TargetBody(pairs)).value) == Summary(Ok(pairs))
  {
    hide LebAt, EncodeLeb, Power128, Entries, Summary, TargetPayload, Named;
    var rest, count := EncodeLeb(|pairs|) + EncodeEntries(pairs), EncodeLeb(|pairs|);
    FiveBytes();
    NameIsRead(TARGET, rest);
    assert rest[0..0 + |count|] == count;
    LebRoundTrip(|pairs|, rest, 0, 5);
    assert rest[|count|..|count| + |EncodeEntries(pairs)|] == EncodeEntries(pairs);
    NothingFollows(pairs);
    AllEntries(rest, |rest|, |pairs|);
    EntriesRoundTrip(rest, |count|, pairs, EncodeEntries(pairs), |pairs|, 0, Ok([]));
  }

  /** The walk over one encoded section reads its size and its payload. */
  lemma SectionIsRead(b: seq<byte>, at: nat, id: byte, payload: seq<byte>)
    requires |payload| < U35
    requires at + |EncodeSection(id, payload)| <= |b|
    requires b[at..at + |EncodeSection(id, payload)|] == EncodeSection(id, payload)
    ensures b[at] == id
    ensures var end := at + |EncodeSection(id, payload)|;
      LebAt(b, at + 1, 5) == Some(Read(|payload|, end - |payload|))
      && b[end - |payload|..end] == payload
  {
    hide LebAt, EncodeLeb, Power128;
    ThreeParts(b, at, id, EncodeLeb(|payload|), payload);
    FiveBytes();
    LebRoundTrip(|payload|, b, at + 1, 5);
  }

  lemma {:induction false} OthersAreSkipped(b: seq<byte>, at: nat, others: seq<Other>)
    requires at + |EncodeOthers(others)| <= |b|
    requires b[at..at + |EncodeOthers(others)|] == EncodeOthers(others)
    requires forall i :: 0 <= i < |others| ==> IsSkipped(others[i])
    ensures Walk(b, at) == Walk(b, at + |EncodeOthers(others)|)
    decreases |others|
  {
    hide LebAt, EncodeSection, TargetPayload, Section;
    if others != [] {
      var code := EncodeOthers(others);
      var first := EncodeSection(others[0].id, others[0].payload);
      Within(b, at, code, 0, |first|);
      Within(b, at, code, |first|, |code|);
      assert code[..|first|] == first && code[|first|..] == EncodeOthers(others[1..]);
      SectionLength(others[0]);
      SectionIsRead(b, at, others[0].id, others[0].payload);
      OthersAreSkipped(b, at + |first|, others[1..]);
    }
  }

  lemma SectionLength(other: Other)
    ensures |EncodeSection(other.id, other.payload)| > |other.payload|
  {
  }

  /**
   * Round trip: a feature section written after arbitrary other sections, and before anything at
   * all, reads back as the pairs in order, with the sorted set of names not marked `-`.
   */
  lemma WriteThenRead(others: seq<Other>, pairs: seq<Declared>, suffix: seq<byte>)
    requires Encodable(others, pairs)
    ensures var r := ReadModule(Module(others, pairs) + suffix);
      && r.Features? && r.declared == pairs
      && StrictlySorted(r.required)
      && forall x :: x in r.required <==>
           exists i :: 0 <= i < |pairs| && pairs[i].name == x && !pairs[i].use.Disallowed?
  {
    hide LebAt, EncodeSection, TargetPayload, Section, EncodeOthers, TargetBody, Summary;
    ModuleIsRead(others, pairs);
    SummaryOfPairs(pairs);
    hide ReadModule, Module;
    FinalAnswersAreStable(Module(others, pairs), suffix);
  }

  lemma ModuleIsRead(others: seq<Other>, pairs: seq<Declared>)
    requires Encodable(others, pairs)
    ensures ReadModule(Module(others, pairs)) == Summary(Ok(pairs))
  {
    hide LebAt, EncodeSection, TargetPayload, Section, EncodeOthers, TargetBody, Summary, IsSkipped,
         ReadModule;
    var b, skipped := Module(others, pairs), EncodeOthers(others);
    var code := EncodeSection(0, TargetBody(pairs));
    var at := 8 + |skipped|;
    assert b[..8] == PREAMBLE && b[8..at] == skipped && b[at..at + |code|] == code;
    Preamble(b);
    OthersAreSkipped(b, 8, others);
    SectionLength(Other(0, TargetBody(pairs)));
    SectionIsRead(b, at, 0, TargetBody(pairs));
    BodyRoundTrip(pairs);
  }

  lemma SummaryOfPairs(pairs: seq<Declared>)
    ensures var r := Summary(Ok(pairs));
      && IsFinal(r) && r.Features? && r.declared == pairs
      && StrictlySorted(r.required)
      && forall x :: x in r.required <==>
           exists i :: 0 <= i < |pairs| && pairs[i].name == x && !pairs[i].use.Disallowed?
  {
    SortedDistinctIsTheSet(RequiredNames(pairs));
    forall x ensures x in RequiredNames(pairs) <==>
      exists i :: 0 <= i < |pairs| && pairs[i].name == x && !pairs[i].use.Disallowed?
    {
      RequiredIsNotDisallowed(pairs, x);
    }
  }

  lemma {:induction false} RequiredIsNotDisallowed(pairs: seq<Declared>, x: Name)
    ensures x in RequiredNames(pairs) <==>
      exists i :: 0 <= i < |pairs| && pairs[i].name == x && !pairs[i].use.Disallowed?
  {
    if pairs != [] {
      RequiredIsNotDisallowed(pairs[1..], x);
      if x in RequiredNames(pairs[1..]) {
        var i :| 0 <= i < |pairs| - 1 && pairs[1..][i].name == x && !pairs[1..][i].use.Disallowed?;
        assert pairs[i + 1].name == x;
      }
      if i :| 0 <= i < |pairs| && pairs[i].name == x && !pairs[i].use.Disallowed? {
        assert i > 0 ==> pairs[1..][i - 1].name == x;
      }
    }
  }

  // ---- where a broken module breaks ------------------------------------------------------

  /** No byte below 128 among the first `left`: a number that does not end. */
  predicate NeverEnds(b: seq<byte>, at: nat, left: nat) {
    forall i :: at <= i < at + left && i < |b| ==> b[i] >= 128
  }

  lemma {:induction false} LebFailsExactly(b: seq<byte>, at: nat, left: nat)
    ensures LebAt(b, at, left) == None <==> NeverEnds(b, at, left)
    decreases left
  {
    if left > 0 && at < |b| && b[at] >= 128 {
      LebFailsExactly(b, at + 1, left - 1);
      assert NeverEnds(b, at, left) <==> NeverEnds(b, at + 1, left - 1);
    }
  }

  /** How the entry behind `index` whole ones is broken. */
  ghost predicate BreaksEntry(tail: seq<byte>, count: nat, index: nat, failure: Failure) {
    if tail == [] then failure == MalformedSection(EndedAfter(count, index))
    else if tail[0] != 0x2b && tail[0] != 0x2d && tail[0] != 0x3d then
      failure == UnknownPrefix(tail[0], index)
    else if NeverEnds(tail, 1, 5) then failure == MalformedSection(NoNameLength(index))
    else failure == MalformedSection(NameRunsPast(index)) && IsCutShort(tail[1..])
  }

  /** A length and fewer bytes than it promises. */
  ghost predicate IsCutShort(bytes: seq<byte>) {
    exists n: nat, short :: n < U35 && |short| < n && bytes == EncodeLeb(n) + short
  }

  lemma CutShortIsRead(b: seq<byte>, at: nat, n: nat, short: seq<byte>)
    requires n < U35 && |short| < n && at <= |b| && b[at..] == EncodeLeb(n) + short
    ensures LebAt(b, at, 5) == Some(Read(n, |b| - |short|))
  {
    hide LebAt, EncodeLeb, Power128;
    FiveBytes();
    var leb := EncodeLeb(n);
    assert b[at..at + |leb|] == b[at..][..|leb|] == leb;
    LebRoundTrip(n, b, at, 5);
  }

  lemma EntryBreaks(p: seq<byte>, at: nat, count: nat, index: nat, failure: Failure)
    requires index < count && at <= |p| && BreaksEntry(p[at..], count, index, failure)
    ensures Entries(p, at, count, index) == Err(failure)
  {
    hide LebAt, EncodeLeb, NeverEnds;
    var tail := p[at..];
    if tail != [] {
      assert tail[0] == p[at] && tail[1..] == p[at + 1..];
      LebFailsExactly(p, at + 1, 5);
      SameEnding(p, at);
      if failure.MalformedSection? && failure.detail.NameRunsPast? {
        var n: nat, short :| n < U35 && |short| < n && tail[1..] == EncodeLeb(n) + short;
        CutShortIsRead(p, at + 1, n, short);
      }
    }
  }

  lemma SameEnding(p: seq<byte>, at: nat)
    requires at <= |p|
    ensures NeverEnds(p[at..], 1, 5) <==> NeverEnds(p, at + 1, 5)
  {
    var tail := p[at..];
    if NeverEnds(tail, 1, 5) {
      forall i | at + 1 <= i < at + 6 && i < |p| ensures p[i] >= 128 {
        assert p[i] == tail[i - at];
      }
    }
  }

  /** A feature section that breaks in an entry says in which and how. */
  lemma BrokenEntryIsTold(pairs: seq<Declared>, count: nat, tail: seq<byte>, failure: Failure)
    requires |pairs| < count < U35 && BreaksEntry(tail, count, |pairs|, failure)
    requires forall i :: 0 <= i < |pairs| ==> |pairs[i].name| < U35
    ensures Section(EncodeLeb(count) + EncodeEntries(pairs) + tail) == Failed(failure)
  {
    hide LebAt, EncodeLeb, Power128, Entries, EncodeEntries, BreaksEntry;
    var leb, front := EncodeLeb(count), EncodeEntries(pairs);
    var p := leb + front + tail;
    FiveBytes();
    assert p[0..0 + |leb|] == leb;
    LebRoundTrip(count, p, 0, 5);
    assert p[|leb|..|leb| + |front|] == front && p[|leb| + |front|..] == tail;
    EntryBreaks(p, |leb| + |front|, count, |pairs|, failure);
    EntriesRoundTrip(p, |leb|, pairs, front, count, 0, Err(failure));
  }

  lemma UnendingCountIsTold(payload: seq<byte>)
    requires NeverEnds(payload, 0, 5)
    ensures Section(payload) == Failed(MalformedSection(NoFeatureCount))
  {
    hide LebAt;
    LebFailsExactly(payload, 0, 5);
  }

  /** How the sections from `at` on are broken, or end without the one looked for. */
  ghost predicate BreaksModule(tail: seq<byte>, at: nat, failure: Failure) {
    if tail == [] then failure == NoTargetFeaturesSection
    else if NeverEnds(tail, 1, 5) then failure == Truncated(at, 1)
    else exists n: nat, short ::
      n < U35 && |short| < n && tail[1..] == EncodeLeb(n) + short && failure == Truncated(at, n)
  }

  lemma WalkBreaks(b: seq<byte>, at: nat, failure: Failure)
    requires at <= |b| && BreaksModule(b[at..], at, failure)
    ensures Walk(b, at) == Failed(failure)
  {
    hide LebAt, EncodeLeb, NeverEnds, Section, TargetPayload;
    var tail := b[at..];
    if tail != [] {
      assert tail[1..] == b[at + 1..];
      LebFailsExactly(b, at + 1, 5);
      SameEnding(b, at);
      if !NeverEnds(tail, 1, 5) {
        var n: nat, short :|
          n < U35 && |short| < n && tail[1..] == EncodeLeb(n) + short && failure == Truncated(at, n);
        CutShortIsRead(b, at + 1, n, short);
      }
    }
  }

  /** A module that ends, or breaks off, before a feature section says where. */
  lemma BrokenModuleIsTold(others: seq<Other>, tail: seq<byte>, failure: Failure)
    requires forall i :: 0 <= i < |others| ==> IsSkipped(others[i])
    requires BreaksModule(tail, 8 + |EncodeOthers(others)|, failure)
    ensures ReadModule(PREAMBLE + EncodeOthers(others) + tail) == Failed(failure)
  {
    hide EncodeOthers, BreaksModule, Walk, IsSkipped;
    var skipped := EncodeOthers(others);
    var b := PREAMBLE + skipped + tail;
    Preamble(b);
    assert b[8..8 + |skipped|] == skipped && b[8 + |skipped|..] == tail;
    OthersAreSkipped(b, 8, others);
    WalkBreaks(b, 8 + |skipped|, failure);
  }

  lemma Preamble(b: seq<byte>)
    requires |b| >= 8 && b[..8] == PREAMBLE
    ensures ReadModule(b) == Walk(b, 8)
  {
    hide Walk;
    assert b[..Min(4, |b|)] == b[..8][..4] == MAGIC;
    assert b[4] == b[..8][4] && b[5] == b[..8][5] && b[6] == b[..8][6] && b[7] == b[..8][7];
  }

  /** What is not a module at all, and what is one of another version. */
  lemma BrokenPreambleIsTold(b: seq<byte>)
    ensures ReadModule(b) == Failed(NotWasm(b[..Min(4, |b|)]))
      <==> |b| < 4 || b[..4] != [0x00, 0x61, 0x73, 0x6d]
    ensures 4 <= |b| < 8 && b[..4] == [0x00, 0x61, 0x73, 0x6d] ==>
      ReadModule(b) == Failed(Truncated(4, 4))
    ensures |b| >= 8 && b[..4] == [0x00, 0x61, 0x73, 0x6d] && b[4..8] != [1, 0, 0, 0] ==>
      var r := ReadModule(b);
      && r.Failed? && r.reason.UnsupportedVersion?
      && -0x8000_0000 <= r.reason.version < 0x8000_0000
      && (r.reason.version - FromLittleEndian(b[4..8])) % 0x1_0000_0000 == 0
  {
    hide Walk;
    assert |b| >= 4 ==> b[..Min(4, |b|)] == b[..4];
    if |b| >= 8 && b[..4] == [0x00, 0x61, 0x73, 0x6d] {
      var v := b[4..8];
      assert v == [b[4], b[5], b[6], b[7]];
      FourBytesAre(v);
    } else if 4 <= |b| {
      assert b[..4] == [0x00, 0x61, 0x73, 0x6d] ==> |b| < 8;
    }
    WalkNeverSaysNotWasm(b, 8);
  }

  lemma FourBytesAre(v: seq<byte>)
    requires |v| == 4
    ensures FromLittleEndian(v)
         == v[0] as int + 0x100 * v[1] as int + 0x1_0000 * v[2] as int + 0x100_0000 * v[3] as int
  {
    assert v[1..][1..] == v[2..] && v[2..][1..] == v[3..] && v[3..][1..] == [];
    assert FromLittleEndian(v[3..]) == v[3];
    assert FromLittleEndian(v[2..]) == v[2] + 256 * FromLittleEndian(v[3..]);
    assert FromLittleEndian(v[1..]) == v[1] + 256 * FromLittleEndian(v[2..]);
  }

  lemma {:induction false} WalkNeverSaysNotWasm(b: seq<byte>, at: nat)
    ensures Walk(b, at).Failed? ==> !Walk(b, at).reason.NotWasm?
    decreases |b| - at
  {
    hide LebAt, TargetPayload;
    if at < |b| && LebAt(b, at + 1, 5).Some? {
      var size := LebAt(b, at + 1, 5).value;
      if size.next + size.value <= |b| {
        WalkNeverSaysNotWasm(b, size.next + size.value);
        if TargetPayload(b[size.next..size.next + size.value]).Some? {
          SectionNeverSaysNotWasm(TargetPayload(b[size.next..size.next + size.value]).value);
        }
      }
    }
  }

  lemma SectionNeverSaysNotWasm(p: seq<byte>)
    ensures Section(p).Failed? ==> !Section(p).reason.NotWasm?
  {
    hide LebAt;
    if LebAt(p, 0, 5).Some? {
      var count := LebAt(p, 0, 5).value;
      EntriesNeverSayNotWasm(p, count.next, count.value, 0);
    }
  }

  lemma {:induction false} EntriesNeverSayNotWasm(p: seq<byte>, at: nat, count: nat, index: nat)
    requires index <= count
    ensures Entries(p, at, count, index).Err? ==> !Entries(p, at, count, index).error.NotWasm?
    decreases count - index
  {
    hide LebAt;
    if index < count && at < |p| && UseOf(p[at]).Some? && LebAt(p, at + 1, 5).Some? {
      var len := LebAt(p, at + 1, 5).value;
      if len.next + len.value <= |p| {
        EntriesNeverSayNotWasm(p, len.next + len.value, count, index + 1);
      }
    }
  }
}
