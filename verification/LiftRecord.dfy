/** What the container leaves on record of a lift, and the verdict it comes to (tools/aot/lift.ts). */
module LiftRecord {
  import opened Common
  import opened Text
  import opened Image
  import opened CacheKey
  import Scan

  // ---- meta.txt -------------------------------------------------------------------------

  type Meta = map<string, string>

  /** `key=value`, or nothing for a line with no key. */
  function MetaLine(meta: Meta, line: string): Meta {
    var at := IndexOf(line, '=');
    if at <= 0 then meta else meta[line[..at] := Trim(line[at + 1..])]
  }

  function MetaLines(lines: seq<string>): Meta {
    if lines == [] then map[] else MetaLine(MetaLines(lines[..|lines| - 1]), lines[|lines| - 1])
  }

  function MetaOf(text: string): Meta {
    MetaLines(Split(text, '\n'))
  }

  method ParseMeta(text: string) returns (entries: Meta)
    ensures entries == MetaOf(text)
  {
    hide Split, Trim;
    entries := map[];
    var lines := Split(text, '\n');
    for i := 0 to |lines|
      invariant entries == MetaLines(lines[..i])
    {
      assert lines[..i + 1][..i] == lines[..i];
      var line := lines[i];
      var at := IndexOf(line, '=');
      if at <= 0 {
        continue;
      }
      entries := entries[line[..at] := Trim(line[at + 1..])];
    }
    assert lines[..|lines|] == lines;
  }

  /** What the container prints for one entry. */
  function PrintedEntry(entry: (string, string)): string {
    entry.0 + "=" + entry.1
  }

  function PrintedLines(entries: seq<(string, string)>): seq<string> {
    if entries == [] then [""]
    else [PrintedEntry(entries[0])] + PrintedLines(entries[1..])
  }

  ghost predicate Printable(entry: (string, string)) {
    && entry.0 != "" && '=' !in entry.0 && '\n' !in entry.0 && '\n' !in entry.1
  }

  /** Later entries win; values lose surrounding white space. */
  function Recorded(meta: Meta, entries: seq<(string, string)>): Meta
    decreases |entries|
  {
    if entries == [] then meta
    else Recorded(meta[entries[0].0 := Trim(entries[0].1)], entries[1..])
  }

  lemma MetaLineReadsBack(meta: Meta, entry: (string, string))
    requires Printable(entry)
    ensures MetaLine(meta, PrintedEntry(entry)) == meta[entry.0 := Trim(entry.1)]
  {
    hide Trim;
    var line := PrintedEntry(entry);
    var at := IndexOf(line, '=');
    assert line[|entry.0|] == '=' && line[..|entry.0|] == entry.0;
    assert at <= |entry.0|;
    assert line[at + 1..] == entry.1;
  }

  lemma {:induction false} MetaFrom(front: seq<string>, entries: seq<(string, string)>)
    requires forall i :: 0 <= i < |entries| ==> Printable(entries[i])
    ensures MetaLines(front + PrintedLines(entries)) == Recorded(MetaLines(front), entries)
    decreases |entries|
  {
    hide Trim, PrintedEntry, MetaLine, MetaLines;
    if entries == [] {
      MetaPush(front, "");
      BlankLine(MetaLines(front));
    } else {
      var line := PrintedEntry(entries[0]);
      MetaPush(front, line);
      MetaLineReadsBack(MetaLines(front), entries[0]);
      MetaFrom(front + [line], entries[1..]);
      assert front + PrintedLines(entries) == (front + [line]) + PrintedLines(entries[1..]);
    }
  }

  lemma MetaPush(front: seq<string>, line: string)
    ensures MetaLines(front + [line]) == MetaLine(MetaLines(front), line)
  {
    hide MetaLine;
    assert (front + [line])[..|front|] == front;
  }

  lemma BlankLine(meta: Meta)
    ensures MetaLine(meta, "") == meta
  {
  }

  /** Every entry printed one to a line is read back under its key, the last one winning. */
  lemma PrintedMetaReadsBack(entries: seq<(string, string)>)
    requires forall i :: 0 <= i < |entries| ==> Printable(entries[i])
    ensures MetaOf(Join(PrintedLines(entries), '\n')) == Recorded(map[], entries)
  {
    hide Recorded, MetaLine, Trim, Split, Join;
    PrintedLinesAreLines(entries);
    SplitJoin(PrintedLines(entries), '\n');
    MetaFrom([], entries);
    assert [] + PrintedLines(entries) == PrintedLines(entries);
  }

  lemma {:induction false} PrintedLinesAreLines(entries: seq<(string, string)>)
    requires forall i :: 0 <= i < |entries| ==> Printable(entries[i])
    ensures |PrintedLines(entries)| > 0
    ensures forall i :: 0 <= i < |PrintedLines(entries)| ==> '\n' !in PrintedLines(entries)[i]
  {
    if entries != [] {
      PrintedLinesAreLines(entries[1..]);
    }
  }

  /** The line is an entry of the record: that key, and that value once its blanks are gone. */
  ghost predicate IsEntry(line: string, key: string, value: string) {
    && key != "" && '=' !in key
    && exists raw :: line == key + "=" + raw && IsCoreOf(value, raw)
  }

  /** Line `i` is the last entry of the key. */
  ghost predicate LastEntry(lines: seq<string>, key: string, value: string, i: nat) {
    && i < |lines| && IsEntry(lines[i], key, value)
    && forall j, other :: i < j < |lines| ==> !IsEntry(lines[j], key, other)
  }

  ghost predicate LastSays(lines: seq<string>, key: string, value: string) {
    exists i: nat :: LastEntry(lines, key, value, i)
  }

  ghost predicate Holding(meta: Meta, key: string, value: string) {
    key in meta && meta[key] == value
  }

  lemma MetaLineIsAnEntry(meta: Meta, line: string, key: string, value: string)
    ensures IsEntry(line, key, value) ==> Holding(MetaLine(meta, line), key, value)
    ensures Holding(MetaLine(meta, line), key, value) ==>
      IsEntry(line, key, value) || Holding(meta, key, value)
    ensures (forall other :: !IsEntry(line, key, other)) ==>
      (Holding(MetaLine(meta, line), key, value) <==> Holding(meta, key, value))
  {
    hide Trim, IsCoreOf;
    if IsEntry(line, key, value) {
      var raw :| line == key + "=" + raw && IsCoreOf(value, raw);
      EqualsSignAt(line, key, raw);
      TrimIsTheCore(raw, value);
    }
    var at := IndexOf(line, '=');
    if at > 0 && line[..at] == key {
      var raw := line[at + 1..];
      assert line == key + "=" + raw;
      TrimIsTheCore(raw, Trim(raw));
      assert IsEntry(line, key, Trim(raw));
    }
  }

  lemma EqualsSignAt(line: string, key: string, raw: string)
    requires '=' !in key && line == key + "=" + raw
    ensures IndexOf(line, '=') == |key| && line[..|key|] == key && line[|key| + 1..] == raw
  {
    assert line[|key|] == '=' && line[..|key|] == key;
    assert IndexOf(line, '=') >= |key| by {
      assert forall i :: 0 <= i < |key| ==> line[i] == key[i];
    }
  }

  ghost predicate NoEntry(line: string, key: string) {
    forall other :: !IsEntry(line, key, other)
  }

  /** One more line: it is the last entry of its key, and leaves every other key's as it was. */
  lemma OneMoreLastEntry(before: seq<string>, line: string, key: string, value: string)
    ensures IsEntry(line, key, value) ==> LastSays(before + [line], key, value)
    ensures LastSays(before + [line], key, value) ==>
      IsEntry(line, key, value) || (NoEntry(line, key) && LastSays(before, key, value))
    ensures NoEntry(line, key) && LastSays(before, key, value) ==> LastSays(before + [line], key, value)
  {
    hide IsEntry;
    var lines, n := before + [line], |before|;
    assert lines[n] == line && forall j :: 0 <= j < n ==> lines[j] == before[j];
    if IsEntry(line, key, value) {
      assert LastEntry(lines, key, value, n);
    }
    if i: nat :| LastEntry(lines, key, value, i) {
      if i < n {
        assert LastEntry(before, key, value, i);
      }
    }
    if NoEntry(line, key) {
      if i: nat :| LastEntry(before, key, value, i) {
        assert LastEntry(lines, key, value, i);
      }
    }
  }

  lemma {:induction false} MetaLinesHold(lines: seq<string>, key: string, value: string)
    ensures Holding(MetaLines(lines), key, value) <==> LastSays(lines, key, value)
  {
    if lines != [] {
      hide IsEntry, MetaLine, Holding, LastSays, NoEntry;
      var before, line := lines[..|lines| - 1], lines[|lines| - 1];
      MetaLinesHold(before, key, value);
      assert lines == before + [line];
      OneMoreLastEntry(before, line, key, value);
      MetaLineHolds(MetaLines(before), line, key, value);
    }
  }

  lemma MetaLineHolds(meta: Meta, line: string, key: string, value: string)
    ensures Holding(MetaLine(meta, line), key, value) <==>
      IsEntry(line, key, value) || (NoEntry(line, key) && Holding(meta, key, value))
  {
    hide IsEntry, MetaLine, Holding;
    MetaLineIsAnEntry(meta, line, key, value);
    if other :| IsEntry(line, key, other) {
      MetaLineIsAnEntry(meta, line, key, other);
      OneValue(MetaLine(meta, line), key, value, other);
    }
  }

  lemma OneValue(meta: Meta, key: string, a: string, b: string)
    ensures Holding(meta, key, a) && Holding(meta, key, b) ==> a == b
  {
  }

  /** The record holds of every key the value of its last entry, and of no other key anything. */
  lemma MetaHoldsTheLastEntries(text: string, key: string, value: string)
    ensures Holding(MetaOf(text), key, value) <==> LastSays(Split(text, '\n'), key, value)
  {
    hide Holding, LastSays;
    MetaLinesHold(Split(text, '\n'), key, value);
  }

  function Lookup(meta: Meta, key: string): Option<string> {
    if key in meta then Some(meta[key]) else None
  }

  /** The five tools `meta.txt` names. */
  const META_TOOLS: seq<string> :=
    ["elfconv-commit", "elflift-sha256", "clang", "wasi-sdk", "wasmedge"]

  /** A tool the container puts a version of on record. */
  predicate IsMetaTool(tool: string) {
    tool == "elfconv-commit" || tool == "elflift-sha256" || tool == "clang" || tool == "wasi-sdk"
    || tool == "wasmedge"
  }

  lemma FiveTexts(a: string, b: string, c: string, d: string, e: string, x: string)
    requires |a| == |b| == 14 && |c| == 5 && |d| == |e| == 8 && a != b && d != e
    ensures multiset([a, b, c, d, e])[x]
         == if x == a || x == b || x == c || x == d || x == e then 1 else 0
  {
    assert multiset([a, b, c, d, e]) == multiset{a, b, c, d, e};
  }

  lemma MetaToolsAre(tool: string)
    ensures multiset(META_TOOLS)[tool] == if IsMetaTool(tool) then 1 else 0
  {
    assert "elfconv-commit"[3] == 'c' && "elflift-sha256"[3] == 'l';
    assert "wasi-sdk"[4] == '-' && "wasmedge"[4] == 'e';
    FiveTexts("elfconv-commit", "elflift-sha256", "clang", "wasi-sdk", "wasmedge", tool);
  }

  predicate IsUnidentified(meta: Meta, tool: string) {
    IsBlank(Lookup(meta, tool).GetOr(""))
  }

  function BlankAmong(meta: Meta, tools: seq<string>): seq<string> {
    if tools == [] then []
    else (if IsUnidentified(meta, tools[0]) then [tools[0]] else []) + BlankAmong(meta, tools[1..])
  }

  function UnidentifiedIn(meta: Meta, tools: seq<string>): seq<string> {
    SortTexts(BlankAmong(meta, tools))
  }

  lemma {:induction false} BlankAmongCounts(meta: Meta, tools: seq<string>, tool: string)
    ensures multiset(BlankAmong(meta, tools))[tool]
         == if IsUnidentified(meta, tool) then multiset(tools)[tool] else 0
  {
    hide IsUnidentified;
    if tools != [] {
      BlankAmongCounts(meta, tools[1..], tool);
      assert tools == [tools[0]] + tools[1..];
    }
  }

  /** Not on record, or on record as nothing but blanks. */
  ghost predicate HasNoVersion(meta: Meta, tool: string) {
    tool in meta ==> AllSpace(meta[tool])
  }

  lemma UnidentifiedHasNoVersion(meta: Meta, tool: string)
    ensures IsUnidentified(meta, tool) <==> HasNoVersion(meta, tool)
  {
    hide AllSpace, IsBlank;
    BlankIsAllSpace("");
    BlankIsAllSpace(Lookup(meta, tool).GetOr(""));
    assert AllSpace("") by {
      NothingIsSpace();
    }
  }

  lemma NothingIsSpace()
    ensures AllSpace("")
  {
  }

  /** Exactly the tools without a version, each as often as it was asked about, in order. */
  lemma UnidentifiedAreSorted(meta: Meta, tools: seq<string>)
    ensures InOrder(UnidentifiedIn(meta, tools))
    ensures forall tool :: multiset(UnidentifiedIn(meta, tools))[tool]
                        == if HasNoVersion(meta, tool) then multiset(tools)[tool] else 0
  {
    hide SortTexts, BlankAmong, IsUnidentified, InOrder, HasNoVersion;
    SortTextsSorts(BlankAmong(meta, tools));
    forall tool
      ensures multiset(UnidentifiedIn(meta, tools))[tool]
           == if HasNoVersion(meta, tool) then multiset(tools)[tool] else 0
    {
      UnidentifiedHasNoVersion(meta, tool);
      BlankAmongCounts(meta, tools, tool);
    }
  }

  // ---- the undecoded probe ------------------------------------------------------------------

  datatype NotRunWhy = NoBitcode | DisassemblerFailed | UndecodedUnreadable

  datatype Undecoded =
    | Measured(callSites: int, addresses: seq<nat>)
    | CountedOnly(callSites: int)
    | NotRun(why: NotRunWhy)

  /** `Number.parseInt(text, 10) || 0` */
  function ParseInt(text: string): int {
    var s := TrimStart(text);
    var negative := s != "" && s[0] == '-';
    var digits := if s != "" && (s[0] == '-' || s[0] == '+') then s[1..] else s;
    var value: int := DecimalValue(digits[..Run(digits, IsDigit)]);
    if negative then -value else value
  }

  /** Blanks, a sign or none, the numeral of `m`, and nothing that would go on with it. */
  ghost predicate SpellsAs(text: string, blanks: string, sign: string, digits: string, rest: string,
                           m: nat)
  {
    && AllSpace(blanks) && (sign == "" || sign == "+" || sign == "-") && IsNumeral(digits, m)
    && (rest == "" || !IsDigit(rest[0])) && text == blanks + sign + digits + rest
  }

  ghost predicate Spells(text: string, n: int) {
    exists blanks, sign, digits, rest, m: nat ::
      SpellsAs(text, blanks, sign, digits, rest, m) && n == (if sign == "-" then 0 - m else m)
  }

  lemma SpelledIsRead(
      text: string, blanks: string, sign: string, digits: string, rest: string, m: nat)
    requires SpellsAs(text, blanks, sign, digits, rest, m)
    ensures ParseInt(text) == if sign == "-" then 0 - m else m
  {
    hide IsSpace, IsNumeral, DecimalValue;
    NumeralIsRead(digits, m);
    SpacesAre();
    var core := sign + (digits + rest);
    assert text == blanks + core;
    TrimStartSkips(blanks, core);
    assert sign != "" ==> core[1..] == digits + rest;
    assert sign == "" ==> core == digits + rest;
    RunOf(digits, rest, IsDigit);
    assert (digits + rest)[..|digits|] == digits;
  }

  lemma Parts(a: string, b: string, cd: string, n: nat)
    requires n <= |cd|
    ensures a + b + cd == a + b + cd[..n] + cd[n..]
  {
    assert cd == cd[..n] + cd[n..];
  }

  lemma RunIsANumeral(tail: string)
    requires Run(tail, IsDigit) > 0
    ensures var n := Run(tail, IsDigit);
      IsNumeral(tail[..n], DecimalValue(tail[..n])) && (tail[n..] == "" || !IsDigit(tail[n..][0]))
  {
    hide DecimalValue, IsNumeral;
    DigitsAreANumeral(tail[..Run(tail, IsDigit)]);
  }

  lemma TailSpells(blanks: string, sign: string, tail: string)
    requires AllSpace(blanks) && (sign == "" || sign == "+" || sign == "-")
    requires Run(tail, IsDigit) > 0
    ensures var n := Run(tail, IsDigit);
      SpellsAs(blanks + sign + tail, blanks, sign, tail[..n], tail[n..], DecimalValue(tail[..n]))
  {
    hide AllSpace, IsNumeral, AllDigits, IsDigit;
    RunIsANumeral(tail);
    Parts(blanks, sign, tail, Run(tail, IsDigit));
  }

  /** The number at the front of a text, 0 without one. */
  function Leading(tail: string): int {
    DecimalValue(tail[..Run(tail, IsDigit)])
  }

  lemma ReadParts(text: string) returns (blanks: string, sign: string, tail: string)
    ensures AllSpace(blanks) && (sign == "" || sign == "+" || sign == "-")
    ensures text == blanks + sign + tail
    ensures ParseInt(text) == if sign == "-" then 0 - Leading(tail) else Leading(tail)
  {
    hide AllSpace, Run, DecimalValue, TrimStart;
    blanks := TrimStartParts(text);
    var s := TrimStart(text);
    sign, tail := "", s;
    if s != "" && (s[0] == '-' || s[0] == '+') {
      sign, tail := [s[0]], s[1..];
    }
    assert s == sign + tail;
    assert text == blanks + (sign + tail);
  }

  lemma NothingLeading(tail: string)
    ensures Run(tail, IsDigit) == 0 ==> Leading(tail) == 0
  {
    assert tail[..0] == "";
  }

  lemma ReadIsSpelled(text: string)
    requires ParseInt(text) != 0
    ensures Spells(text, ParseInt(text))
  {
    hide SpellsAs, AllSpace, Run, ParseInt;
    var blanks, sign, tail := ReadParts(text);
    NothingLeading(tail);
    TailSpells(blanks, sign, tail);
  }

  /** A text is read as a number other than 0 exactly when it spells it. */
  lemma ReadsWhatIsSpelled(text: string, n: int)
    ensures n != 0 ==> (ParseInt(text) == n <==> Spells(text, n))
    ensures ParseInt(text) == 0 <==> forall m :: Spells(text, m) ==> m == 0
  {
    hide ParseInt, SpellsAs;
    forall m | Spells(text, m) ensures ParseInt(text) == m {
      var blanks, sign, digits, rest, k: nat :|
        SpellsAs(text, blanks, sign, digits, rest, k) && m == (if sign == "-" then 0 - k else k);
      SpelledIsRead(text, blanks, sign, digits, rest, k);
    }
    if ParseInt(text) != 0 {
      ReadIsSpelled(text);
    }
  }

  /** What a decimal printer writes for a number, blanks before it or not, is read as that number. */
  lemma PrintedCountIsRead(blanks: string, n: nat, rest: string)
    requires AllSpace(blanks) && (rest == "" || !IsDigit(rest[0]))
    ensures ParseInt(blanks + DecimalText(n) + rest) == n
    ensures ParseInt(blanks + "-" + DecimalText(n) + rest) == 0 - n
  {
    hide ParseInt, AllSpace, DecimalText;
    var digits := DecimalText(n);
    assert digits == Zeros(0) + digits;
    assert blanks + digits + rest == blanks + "" + digits + rest;
    SpelledIsRead(blanks + digits + rest, blanks, "", digits, rest, n);
    SpelledIsRead(blanks + "-" + digits + rest, blanks, "-", digits, rest, n);
  }

  function InsertAddress(address: nat, sorted: seq<nat>): seq<nat> {
    if sorted == [] || address <= sorted[0] then [address] + sorted
    else [sorted[0]] + InsertAddress(address, sorted[1..])
  }

  function SortAddresses(addresses: seq<nat>): seq<nat> {
    if addresses == [] then [] else InsertAddress(addresses[0], SortAddresses(addresses[1..]))
  }

  ghost predicate Ascending(addresses: seq<nat>) {
    forall i, j :: 0 <= i < j < |addresses| ==> addresses[i] <= addresses[j]
  }

  lemma {:induction false} InsertKeepsAll(address: nat, sorted: seq<nat>)
    ensures multiset(InsertAddress(address, sorted)) == multiset([address] + sorted)
  {
    if sorted != [] && address > sorted[0] {
      InsertKeepsAll(address, sorted[1..]);
      assert sorted == [sorted[0]] + sorted[1..];
      assert multiset([address] + sorted)
          == multiset([sorted[0]]) + multiset([address] + sorted[1..]);
    }
  }

  lemma {:induction false} InsertKeepsAscending(address: nat, sorted: seq<nat>)
    requires Ascending(sorted)
    ensures Ascending(InsertAddress(address, sorted))
    ensures forall x :: x in InsertAddress(address, sorted) ==> x == address || x in sorted
  {
    if sorted != [] && address > sorted[0] {
      InsertKeepsAscending(address, sorted[1..]);
      var tail := InsertAddress(address, sorted[1..]);
      forall i | 0 <= i < |tail| ensures sorted[0] <= tail[i] {
        assert tail[i] in tail;
        if tail[i] != address {
          var j :| 0 <= j < |sorted| - 1 && sorted[1..][j] == tail[i];
          assert sorted[0] <= sorted[j + 1];
        }
      }
    }
  }

  /** The list kept is the list read, in ascending order; repeats are kept. */
  lemma {:induction false} AddressesAreSorted(addresses: seq<nat>)
    ensures Ascending(SortAddresses(addresses))
    ensures multiset(SortAddresses(addresses)) == multiset(addresses)
  {
    if addresses != [] {
      AddressesAreSorted(addresses[1..]);
      InsertKeepsAscending(addresses[0], SortAddresses(addresses[1..]));
      InsertKeepsAll(addresses[0], SortAddresses(addresses[1..]));
      assert addresses == [addresses[0]] + addresses[1..];
    }
  }

  ghost predicate NoRepeats(addresses: seq<nat>) {
    forall i, j :: 0 <= i < j < |addresses| ==> addresses[i] != addresses[j]
  }

  ghost predicate StrictlyAscending(addresses: seq<nat>) {
    forall i, j :: 0 <= i < j < |addresses| ==> addresses[i] < addresses[j]
  }

  lemma {:induction false} NoRepeatsIsCounted(addresses: seq<nat>)
    ensures NoRepeats(addresses) <==> forall x :: x in addresses ==> multiset(addresses)[x] == 1
  {
    if addresses != [] {
      var head, tail := addresses[0], addresses[1..];
      NoRepeatsIsCounted(tail);
      assert addresses == [head] + tail;
      assert multiset(addresses) == multiset(tail) + multiset([head]);
      assert NoRepeats(addresses) <==> NoRepeats(tail) && head !in tail;
      assert forall x :: x in addresses <==> x == head || x in tail;
    }
  }

  /** Strictly ascending, as documented, exactly when no number was written twice. */
  lemma AddressesAreStrictExactlyWithoutRepeats(addresses: seq<nat>)
    ensures StrictlyAscending(SortAddresses(addresses)) <==> NoRepeats(addresses)
  {
    hide SortAddresses;
    AddressesAreSorted(addresses);
    NoRepeatsIsCounted(addresses);
    NoRepeatsIsCounted(SortAddresses(addresses));
  }

  lemma LeastFirst(a: seq<nat>, x: nat)
    requires Ascending(a) && a != []
    ensures x in multiset(a) ==> a[0] <= x
    ensures a[0] in multiset(a) && multiset(a[1..]) == multiset(a) - multiset{a[0]}
    ensures Ascending(a[1..])
  {
    assert a == [a[0]] + a[1..];
  }

  lemma SameLeast(a: seq<nat>, b: seq<nat>)
    requires Ascending(a) && Ascending(b) && multiset(a) == multiset(b) && a != [] && b != []
    ensures a[0] == b[0] && multiset(a[1..]) == multiset(b[1..])
    ensures Ascending(a[1..]) && Ascending(b[1..])
  {
    hide Ascending;
    LeastFirst(a, b[0]);
    LeastFirst(b, a[0]);
  }

  lemma FirstAndRest(a: seq<nat>, b: seq<nat>)
    requires a != [] && b != [] && a[0] == b[0] && a[1..] == b[1..]
    ensures a == b
  {
    assert a == [a[0]] + a[1..] && b == [b[0]] + b[1..];
  }

  /** An ascending list is determined by how often each number is in it. */
  lemma {:induction false} AscendingIsItsCounts(a: seq<nat>, b: seq<nat>)
    requires Ascending(a) && Ascending(b) && multiset(a) == multiset(b)
    ensures a == b
  {
    hide Ascending;
    assert |multiset(a)| == |multiset(b)|;
    if a != [] {
      SameLeast(a, b);
      AscendingIsItsCounts(a[1..], b[1..]);
      FirstAndRest(a, b);
    }
  }

  /** A line that is a whole number, or nothing of one that is not. */
  function AddressIn(line: string): seq<nat> {
    var core := Trim(line);
    if core != "" && AllDigits(core) then [DecimalValue(core)] else []
  }

  function AddressLines(lines: seq<string>): seq<nat> {
    if lines == [] then [] else AddressLines(lines[..|lines| - 1]) + AddressIn(lines[|lines| - 1])
  }

  /** Nothing but the numeral of `address`, and blanks at either end of it. */
  ghost predicate IsAddressLine(line: string, address: nat) {
    exists digits :: IsNumeral(digits, address) && IsCoreOf(digits, line)
  }

  lemma AddressInIsTheLine(line: string, address: nat)
    ensures AddressIn(line) == [address] <==> IsAddressLine(line, address)
    ensures |AddressIn(line)| <= 1
  {
    hide Trim, IsNumeral, IsCoreOf;
    var core := Trim(line);
    TrimIsTheCore(line, core);
    if core != "" && AllDigits(core) {
      DigitsAreANumeral(core);
    }
    if IsAddressLine(line, address) {
      var digits :| IsNumeral(digits, address) && IsCoreOf(digits, line);
      TrimIsTheCore(line, digits);
      NumeralIsRead(digits, address);
    }
  }

  /** Where the file has that number. */
  ghost function LinesWith(lines: seq<string>, address: nat): set<nat> {
    set i: nat | i < |lines| && IsAddressLine(lines[i], address)
  }

  lemma OneMoreLine(lines: seq<string>, address: nat)
    requires lines != []
    ensures var n := |lines| - 1;
      |LinesWith(lines, address)|
        == |LinesWith(lines[..n], address)| + (if IsAddressLine(lines[n], address) then 1 else 0)
  {
    hide IsAddressLine;
    var n := |lines| - 1;
    assert LinesWith(lines, address) == LinesWith(lines[..n], address)
      + (if IsAddressLine(lines[n], address) then {n} else {});
  }

  lemma CountIn(line: string, address: nat)
    ensures multiset(AddressIn(line))[address] == if IsAddressLine(line, address) then 1 else 0
  {
    hide IsAddressLine;
    AddressInIsTheLine(line, address);
    if AddressIn(line) != [] {
      assert AddressIn(line) == [AddressIn(line)[0]];
    }
  }

  lemma {:induction false} AddressesAreTheLines(lines: seq<string>, address: nat)
    ensures multiset(AddressLines(lines))[address] == |LinesWith(lines, address)|
  {
    hide IsAddressLine, AddressIn, LinesWith;
    if lines == [] {
      NoLines(address);
    } else {
      var n := |lines| - 1;
      AddressesAreTheLines(lines[..n], address);
      CountIn(lines[n], address);
      OneMoreLine(lines, address);
    }
  }

  lemma NoLines(address: nat)
    ensures LinesWith([], address) == {}
  {
  }

  lemma NoAddressLines(lines: seq<string>)
    ensures AddressLines(lines) == [] <==> forall address: nat :: LinesWith(lines, address) == {}
  {
    hide AddressLines, LinesWith;
    forall address: nat ensures multiset(AddressLines(lines))[address] == |LinesWith(lines, address)| {
      AddressesAreTheLines(lines, address);
    }
    if AddressLines(lines) != [] {
      assert AddressLines(lines)[0] in multiset(AddressLines(lines));
    }
  }

  function ReadUndecoded(meta: Meta, file: Result<string, string>): Undecoded {
    if Lookup(meta, "undecoded-probe") == Some("failed") then NotRun(DisassemblerFailed)
    else
      match Lookup(meta, "undecoded-callsites")
      case None => NotRun(NoBitcode)
      case Some(raw) =>
        match file
        case Err(_) => NotRun(UndecodedUnreadable)
        case Ok(text) =>
          var addresses := SortAddresses(AddressLines(Split(text, '\n')));
          var callSites := ParseInt(raw);
          if addresses == [] && callSites > 0 then CountedOnly(callSites)
          else Measured(callSites, addresses)
  }

  function CountedWithoutAddresses(undecoded: Undecoded): Option<int> {
    match undecoded
    case CountedOnly(callSites) => Some(callSites)
    case Measured(callSites, addresses) =>
      if addresses == [] && callSites > 0 then Some(callSites) else None
    case NotRun(_) => None
  }

  datatype Verdict = Clean | Reservations

  function VerdictOf(findings: seq<Scan.Finding>, unparsed: seq<Scan.Unparsed>,
                     undecoded: Undecoded): Verdict
  {
    if |findings| > 0 || |unparsed| > 0 then Reservations
    else if undecoded.NotRun? then Reservations
    else if CountedWithoutAddresses(undecoded).Some? then Reservations
    else if undecoded.Measured? && undecoded.addresses == [] then Clean
    else Reservations
  }

  datatype BlindSpot =
    | CrossMachine | ProvenanceUnknown | UndecodedUnmeasured | UndecodedUnreadableSpot
    | AddressesUnrecovered | Reachability

  function BlindSpotsFor(undecoded: Undecoded, verdict: Verdict, provenance: Provenance)
    : seq<BlindSpot>
  {
    [CrossMachine]
    + (if provenance.Unknown? then [ProvenanceUnknown] else [])
    + (if undecoded.NotRun? then
         [if undecoded.why.UndecodedUnreadable? then UndecodedUnreadableSpot
          else UndecodedUnmeasured]
       else [])
    + (if CountedWithoutAddresses(undecoded).Some? then [AddressesUnrecovered] else [])
    + (if verdict.Reservations? then [Reachability] else [])
  }

  /** The disassembler is on record as having failed. */
  ghost predicate OnRecordAsFailed(meta: Meta) {
    Holding(meta, "undecoded-probe", "failed")
  }

  /** The record has a count, and what it says is that number, or no number other than 0. */
  ghost predicate Counted(meta: Meta, n: int) {
    && "undecoded-callsites" in meta
    && var raw := meta["undecoded-callsites"];
       if n == 0 then forall m :: Spells(raw, m) ==> m == 0 else Spells(raw, n)
  }

  /** Each number is kept as often as the file has a line of it. */
  ghost predicate KeptFrom(addresses: seq<nat>, text: string) {
    forall x: nat :: multiset(addresses)[x] == |LinesWith(Split(text, '\n'), x)|
  }

  ghost predicate HasNoAddress(text: string) {
    forall x: nat :: LinesWith(Split(text, '\n'), x) == {}
  }

  /** What the record and the file say, as an answer. */
  ghost predicate Answers(meta: Meta, file: Result<string, string>, r: Undecoded) {
    match r
    case NotRun(why) =>
      if OnRecordAsFailed(meta) then why == DisassemblerFailed
      else if "undecoded-callsites" !in meta then why == NoBitcode
      else why == UndecodedUnreadable && file.Err?
    case CountedOnly(n) =>
      && !OnRecordAsFailed(meta) && file.Ok? && Counted(meta, n) && n > 0 && HasNoAddress(file.value)
    case Measured(n, addresses) =>
      && !OnRecordAsFailed(meta) && file.Ok? && Counted(meta, n)
      && Ascending(addresses) && KeptFrom(addresses, file.value)
      && (n > 0 ==> addresses != [])
  }

  lemma CountIsRead(meta: Meta, n: int)
    ensures Counted(meta, n) <==>
      "undecoded-callsites" in meta && ParseInt(meta["undecoded-callsites"]) == n
  {
    hide ParseInt, Spells;
    if "undecoded-callsites" in meta {
      ReadsWhatIsSpelled(meta["undecoded-callsites"], n);
    }
  }

  lemma AddressesAreKept(text: string)
    ensures var addresses := SortAddresses(AddressLines(Split(text, '\n')));
      Ascending(addresses) && KeptFrom(addresses, text) && (addresses == [] <==> HasNoAddress(text))
  {
    hide SortAddresses, AddressLines, Split, LinesWith, Ascending;
    var lines := Split(text, '\n');
    AddressesAreSorted(AddressLines(lines));
    forall x: nat ensures multiset(AddressLines(lines))[x] == |LinesWith(lines, x)| {
      AddressesAreTheLines(lines, x);
    }
    NoAddressLines(lines);
    assert SortAddresses(AddressLines(lines)) == [] <==> AddressLines(lines) == [] by {
      assert |multiset(SortAddresses(AddressLines(lines)))| == |multiset(AddressLines(lines))|;
    }
  }

  lemma KeptInOneWay(a: seq<nat>, b: seq<nat>, text: string)
    requires Ascending(a) && Ascending(b) && KeptFrom(a, text) && KeptFrom(b, text)
    ensures a == b
  {
    hide LinesWith, Split, Ascending;
    assert multiset(a) == multiset(b);
    AscendingIsItsCounts(a, b);
  }

  /** The probe answers what the record and the file say, and nothing else answers it. */
  lemma ProbeAnswersExactly(meta: Meta, file: Result<string, string>, r: Undecoded)
    ensures ReadUndecoded(meta, file) == r <==> Answers(meta, file, r)
  {
    hide SortAddresses, AddressLines, Split, ParseInt, Counted, KeptFrom, HasNoAddress, Ascending;
    var answer := ReadUndecoded(meta, file);
    forall n ensures Counted(meta, n) <==>
      "undecoded-callsites" in meta && ParseInt(meta["undecoded-callsites"]) == n
    {
      CountIsRead(meta, n);
    }
    if file.Ok? {
      AddressesAreKept(file.value);
      if answer.Measured? && r.Measured? && Answers(meta, file, r) {
        KeptInOneWay(answer.addresses, r.addresses, file.value);
      }
      if r.Measured? && Answers(meta, file, r) {
        KeptInOneWay(SortAddresses(AddressLines(Split(file.value, '\n'))), r.addresses, file.value);
      }
    }
  }

  /** The container counted call sites and could read no address: that is what is answered. */
  lemma ProbeNeverHidesCallSites(meta: Meta, file: Result<string, string>, blanks: string, n: nat,
                                 rest: string)
    requires !OnRecordAsFailed(meta) && file.Ok? && HasNoAddress(file.value) && n > 0
    requires AllSpace(blanks) && (rest == "" || !IsDigit(rest[0]))
    requires Holding(meta, "undecoded-callsites", blanks + DecimalText(n) + rest)
    ensures ReadUndecoded(meta, file) == CountedOnly(n)
  {
    hide SortAddresses, AddressLines, Split, ParseInt, HasNoAddress, AllSpace, DecimalText,
         Ascending, KeptFrom;
    PrintedCountIsRead(blanks, n, rest);
    AddressesAreKept(file.value);
  }

  /** A count is on record, the file was read, and neither owns to anything left untranslated. */
  ghost predicate NothingLeftOver(meta: Meta, file: Result<string, string>) {
    && !OnRecordAsFailed(meta) && "undecoded-callsites" in meta
    && (forall n :: Spells(meta["undecoded-callsites"], n) ==> n <= 0)
    && file.Ok? && HasNoAddress(file.value)
  }

  lemma PositiveCountIsSpelled(text: string)
    ensures ParseInt(text) > 0 <==> exists n :: Spells(text, n) && n > 0
  {
    hide ParseInt, Spells;
    ReadsWhatIsSpelled(text, ParseInt(text));
    forall n | Spells(text, n) && n > 0 ensures ParseInt(text) == n {
      ReadsWhatIsSpelled(text, n);
    }
  }

  lemma CleanProbe(meta: Meta, file: Result<string, string>)
    ensures NothingLeftOver(meta, file) <==>
      var r := ReadUndecoded(meta, file); r.Measured? && r.addresses == [] && r.callSites <= 0
  {
    hide SortAddresses, AddressLines, Split, ParseInt, HasNoAddress, Spells, Ascending, KeptFrom;
    if "undecoded-callsites" in meta {
      PositiveCountIsSpelled(meta["undecoded-callsites"]);
    }
    if file.Ok? {
      AddressesAreKept(file.value);
    }
  }

  /**
   * A lift is clean exactly when every line of both streams is silent, and the record and the file
   * of addresses own to no call site and no address.
   */
  lemma CleanExactly(stdout: string, stderr: string, meta: Meta, file: Result<string, string>)
    ensures var scan := Scan.Plus(Scan.TextScan(stdout, Scan.Stdout),
                                  Scan.TextScan(stderr, Scan.Stderr));
      VerdictOf(scan.findings, scan.unparsed, ReadUndecoded(meta, file)).Clean? <==>
        && Scan.AllSilent(stdout, Scan.Stdout) && Scan.AllSilent(stderr, Scan.Stderr)
        && NothingLeftOver(meta, file)
  {
    hide Scan.TextScan, Scan.AllSilent, ReadUndecoded, NothingLeftOver;
    Scan.QuietMeansEveryLineIsSilent(stdout, Scan.Stdout);
    Scan.QuietMeansEveryLineIsSilent(stderr, Scan.Stderr);
    CleanProbe(meta, file);
    NeverMeasuredWithoutAddress(meta, file);
  }

  lemma NeverMeasuredWithoutAddress(meta: Meta, file: Result<string, string>)
    ensures var r := ReadUndecoded(meta, file);
      r.Measured? && r.addresses == [] ==> r.callSites <= 0
  {
    hide SortAddresses, AddressLines, Split, ParseInt;
  }

  /** A lift in which any tool printed such a line, on either stream, is never called clean. */
  lemma PrintedFindingIsNeverClean(
      stdout: string, stderr: string, meta: Meta, file: Result<string, string>)
    requires Scan.Prints(stdout) || Scan.Prints(stderr)
    ensures var scan := Scan.Plus(Scan.TextScan(stdout, Scan.Stdout),
                                  Scan.TextScan(stderr, Scan.Stderr));
      VerdictOf(scan.findings, scan.unparsed, ReadUndecoded(meta, file)).Reservations?
  {
    hide Scan.TextScan, Scan.AllSilent, ReadUndecoded, Scan.Prints, NothingLeftOver;
    CleanExactly(stdout, stderr, meta, file);
    if Scan.Prints(stdout) {
      Scan.PrintingIsNotSilent(stdout, Scan.Stdout);
    } else {
      Scan.PrintingIsNotSilent(stderr, Scan.Stderr);
    }
  }

  /** The undecoded probe's own blind spots: not run, not readable, or a count with no address. */
  predicate IsProbeSpot(spot: BlindSpot) {
    spot.UndecodedUnmeasured? || spot.UndecodedUnreadableSpot? || spot.AddressesUnrecovered?
  }

  /** Call sites were counted, and the address of none of them was read. */
  ghost predicate CountedButUnread(undecoded: Undecoded) {
    || undecoded.CountedOnly?
    || (undecoded.Measured? && undecoded.addresses == [] && undecoded.callSites > 0)
  }

  /** A reason for reservations is in the findings, the unparsed lines, the spots or the addresses. */
  ghost predicate ShowsReason(findings: seq<Scan.Finding>, unparsed: seq<Scan.Unparsed>,
                              undecoded: Undecoded, spots: seq<BlindSpot>)
  {
    findings != [] || unparsed != [] || (exists spot :: spot in spots && IsProbeSpot(spot))
    || (undecoded.Measured? && undecoded.addresses != [])
  }

  /** What is published is enough to tell the verdict from, both ways. */
  lemma ReservationsAreStated(findings: seq<Scan.Finding>, unparsed: seq<Scan.Unparsed>,
                              undecoded: Undecoded, provenance: Provenance)
    ensures var verdict := VerdictOf(findings, unparsed, undecoded);
      var spots := BlindSpotsFor(undecoded, verdict, provenance);
      && CrossMachine in spots
      && (ProvenanceUnknown in spots <==> provenance.Unknown?)
      && (UndecodedUnmeasured in spots <==> undecoded.NotRun? && !undecoded.why.UndecodedUnreadable?)
      && (UndecodedUnreadableSpot in spots <==> undecoded == NotRun(UndecodedUnreadable))
      && (AddressesUnrecovered in spots <==> CountedButUnread(undecoded))
      && (verdict.Reservations? <==> Reachability in spots)
      && (verdict.Reservations? <==> ShowsReason(findings, unparsed, undecoded, spots))
  {
    var verdict := VerdictOf(findings, unparsed, undecoded);
    var spots := BlindSpotsFor(undecoded, verdict, provenance);
    if undecoded.NotRun? {
      var spot := if undecoded.why.UndecodedUnreadable? then UndecodedUnreadableSpot
                  else UndecodedUnmeasured;
      assert spot in spots && IsProbeSpot(spot);
    } else if CountedWithoutAddresses(undecoded).Some? {
      assert AddressesUnrecovered in spots && IsProbeSpot(AddressesUnrecovered);
    }
  }
}
