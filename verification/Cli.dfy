/** The lifting driver's command line, and the two directions of its hexadecimal key. */
module Cli {
  import opened Common
  import opened Text

  const OUT := "--out"
  const IMAGE := "--image"
  const DOCKER := "--docker"
  const PUBLISH_AS := "--publish-as"
  const SIGNING_KEY := "--signing-key"
  const RECORD_OUT := "--record-out"
  const AGAINST_RECORD := "--against-record"

  const VALUE_FLAGS: seq<string> :=
    [OUT, IMAGE, DOCKER, PUBLISH_AS, SIGNING_KEY, RECORD_OUT, AGAINST_RECORD]

  datatype ArgFailure =
    | NoInput
    | MissingFlagValue(flag: string)
    | FlagInInputPosition(argument: string)
    | HalfAPublish(given: string, missing: string)
    | BadSigningKey

  datatype AotArgs = AotArgs(
    input: string, out: string, image: Option<string>, docker: Option<string>,
    publishAs: Option<string>, signingKey: Option<string>, recordOut: Option<string>,
    againstRecord: Option<string>)

  /** The flags that take the word after them. */
  predicate IsFlag(word: string) {
    word == "--out" || word == "--image" || word == "--docker" || word == "--publish-as"
    || word == "--signing-key" || word == "--record-out" || word == "--against-record"
  }

  lemma FlagsAre(word: string)
    ensures word in VALUE_FLAGS <==> IsFlag(word)
  {
    assert VALUE_FLAGS[0] == "--out" && VALUE_FLAGS[1] == "--image" && VALUE_FLAGS[2] == "--docker";
    assert VALUE_FLAGS[3] == "--publish-as" && VALUE_FLAGS[4] == "--signing-key";
    assert VALUE_FLAGS[5] == "--record-out" && VALUE_FLAGS[6] == "--against-record";
  }

  // ---- what a command line says --------------------------------------------------------------

  /** A flag with the word after it, or a word on its own. */
  datatype Item = Pair(flag: string, text: string) | Positional(text: string) {
    predicate Legal() {
      match this
      case Pair(flag, _) => flag in VALUE_FLAGS
      case Positional(text) => text !in VALUE_FLAGS
    }

    function Words(): seq<string> {
      match this
      case Pair(flag, text) => [flag, text]
      case Positional(text) => [text]
    }
  }

  predicate Legal(items: seq<Item>) {
    forall i :: 0 <= i < |items| ==> items[i].Legal()
  }

  function Words(items: seq<Item>): seq<string> {
    if items == [] then [] else Words(items[..|items| - 1]) + items[|items| - 1].Words()
  }

  function Positionals(items: seq<Item>): seq<string> {
    if items == [] then []
    else
      var last := items[|items| - 1];
      Positionals(items[..|items| - 1]) + if last.Positional? then [last.text] else []
  }

  /** Each flag with the value its last occurrence gave it. */
  function Values(items: seq<Item>): (r: map<string, string>)
    ensures forall flag :: flag in r ==> Pair(flag, r[flag]) in items
  {
    if items == [] then map[]
    else
      var last := items[|items| - 1];
      var before := Values(items[..|items| - 1]);
      if last.Pair? then before[last.flag := last.text] else before
  }

  function ValueOf(values: map<string, string>, flag: string): Option<string> {
    if flag in values then Some(values[flag]) else None
  }

  predicate IsSigningKey(key: string) {
    |key| == 64 && forall i :: 0 <= i < |key| ==> IsLowerHex(key[i])
  }

  function DefaultOut(input: string): string {
    input + ".wasm"
  }

  function DefaultRecordOut(out: string): string {
    out + ".record.json"
  }

  /** The ruling on the words left over and the values given. */
  function Decide(positional: seq<string>, values: map<string, string>)
    : Result<AotArgs, ArgFailure>
  {
    if positional == [] then Err(NoInput)
    else if StartsWith(positional[0], "-") then Err(FlagInInputPosition(positional[0]))
    else if PUBLISH_AS in values && SIGNING_KEY !in values then
      Err(HalfAPublish(PUBLISH_AS, SIGNING_KEY))
    else if SIGNING_KEY in values && PUBLISH_AS !in values then
      Err(HalfAPublish(SIGNING_KEY, PUBLISH_AS))
    else if SIGNING_KEY in values && !IsSigningKey(values[SIGNING_KEY]) then Err(BadSigningKey)
    else
      var out := ValueOf(values, OUT).GetOr(DefaultOut(positional[0]));
      var recordOut :=
        if RECORD_OUT in values then Some(values[RECORD_OUT])
        else if PUBLISH_AS in values then Some(DefaultRecordOut(out))
        else None;
      Ok(AotArgs(
           positional[0], out, ValueOf(values, IMAGE), ValueOf(values, DOCKER),
           ValueOf(values, PUBLISH_AS), ValueOf(values, SIGNING_KEY), recordOut,
           ValueOf(values, AGAINST_RECORD)))
  }

  /** A whole command line: its items, and a flag at the very end with nothing after it. */
  datatype Line = Line(items: seq<Item>, dangling: Option<string>)

  predicate IsLine(argv: seq<string>, line: Line) {
    && Legal(line.items)
    && match line.dangling
       case None => argv == Words(line.items)
       case Some(flag) => flag in VALUE_FLAGS && argv == Words(line.items) + [flag]
  }

  function Ruling(line: Line): Result<AotArgs, ArgFailure> {
    match line.dangling
    case Some(flag) => Err(MissingFlagValue(flag))
    case None => Decide(Positionals(line.items), Values(line.items))
  }

  // ---- one reading only ------------------------------------------------------------------------

  /** Reading from the left, a word at a time. */
  function Read(argv: seq<string>): Line {
    if argv == [] then Line([], None)
    else if argv[0] !in VALUE_FLAGS then
      var rest := Read(argv[1..]);
      Line([Positional(argv[0])] + rest.items, rest.dangling)
    else if |argv| == 1 then Line([], Some(argv[0]))
    else
      var rest := Read(argv[2..]);
      Line([Pair(argv[0], argv[1])] + rest.items, rest.dangling)
  }

  lemma {:induction false} WordsAppend(a: seq<Item>, b: seq<Item>)
    ensures Words(a + b) == Words(a) + Words(b)
    decreases |b|
  {
    hide Item.Words;
    if b == [] {
      assert a + b == a;
    } else {
      var n := |b| - 1;
      WordsAppend(a, b[..n]);
      assert (a + b)[..|a + b| - 1] == a + b[..n] && (a + b)[|a + b| - 1] == b[n];
      assert Words(a + b) == Words(a + b[..n]) + b[n].Words();
    }
  }

  lemma WordsLead(item: Item, items: seq<Item>)
    ensures Words([item] + items) == item.Words() + Words(items)
  {
    WordsAppend([item], items);
    assert [item][..0] == [];
  }

  /** Every command line has a reading. */
  lemma {:induction false} ReadIsALine(argv: seq<string>)
    ensures IsLine(argv, Read(argv))
  {
    hide Words;
    if argv == [] {
      NoWords();
    } else if argv[0] !in VALUE_FLAGS {
      ReadIsALine(argv[1..]);
      WordsLead(Positional(argv[0]), Read(argv[1..]).items);
    } else if |argv| == 1 {
      NoWords();
    } else {
      ReadIsALine(argv[2..]);
      WordsLead(Pair(argv[0], argv[1]), Read(argv[2..]).items);
      assert argv == [argv[0], argv[1]] + argv[2..];
    }
  }

  lemma NoWords()
    ensures Words([]) == []
  {
  }

  /** And only one: the reading from the left is the only way to pair the words up. */
  lemma {:induction false} OnlyOneReading(argv: seq<string>, line: Line)
    requires IsLine(argv, line)
    ensures line == Read(argv)
    decreases |line.items|
  {
    hide Words;
    var end := if line.dangling.Some? then [line.dangling.value] else [];
    NoWords();
    if line.items != [] {
      var rest := Line(line.items[1..], line.dangling);
      assert line.items == [line.items[0]] + rest.items;
      WordsLead(line.items[0], rest.items);
      var after := Words(rest.items) + end;
      assert argv == line.items[0].Words() + after;
      OnlyOneReading(after, rest);
      assert argv[|line.items[0].Words()|..] == after;
    }
  }

  // ---- the pass over the arguments ---------------------------------------------------------------

  /** The words below index `n` that no flag consumed, in order. */
  function Unconsumed(argv: seq<string>, consumed: set<int>, n: nat): seq<string>
    requires n <= |argv|
  {
    if n == 0 then []
    else Unconsumed(argv, consumed, n - 1) + if n - 1 in consumed then [] else [argv[n - 1]]
  }

  lemma {:induction false} LaterConsumptionIsInvisible(
      argv: seq<string>, before: set<int>, after: set<int>, n: nat)
    requires n <= |argv| && forall i :: 0 <= i < n ==> (i in before <==> i in after)
    ensures Unconsumed(argv, before, n) == Unconsumed(argv, after, n)
  {
    if n > 0 {
      LaterConsumptionIsInvisible(argv, before, after, n - 1);
    }
  }

  lemma PushItem(items: seq<Item>, item: Item)
    ensures Words(items + [item]) == Words(items) + item.Words()
    ensures Positionals(items + [item])
         == Positionals(items) + if item.Positional? then [item.text] else []
    ensures Values(items + [item])
         == if item.Pair? then Values(items)[item.flag := item.text] else Values(items)
  {
    hide Item.Words;
    assert (items + [item])[..|items|] == items;
  }

  lemma StepUnconsumed(argv: seq<string>, consumed: set<int>, index: nat)
    requires index + 1 < |argv| && forall i :: i in consumed ==> i < index
    ensures Unconsumed(argv, consumed + {index} + {index + 1}, index + 2)
         == Unconsumed(argv, consumed, index)
  {
    var after := consumed + {index} + {index + 1};
    LaterConsumptionIsInvisible(argv, consumed, after, index);
    assert Unconsumed(argv, after, index + 1) == Unconsumed(argv, after, index);
  }

  /** The index loop with its map of values and its set of consumed indices. */
  method ParseAotArgs(argv: seq<string>) returns (r: Result<AotArgs, ArgFailure>)
    ensures r == Ruling(Read(argv))
  {
    hide Words, Positionals, Values, Unconsumed, Decide;
    var values: map<string, string> := map[];
    var consumed: set<int> := {};
    var index := 0;
    ghost var items: seq<Item> := [];
    EmptyLine(argv);
    while index < |argv|
      invariant 0 <= index <= |argv|
      invariant Legal(items) && argv[..index] == Words(items)
      invariant values == Values(items)
      invariant forall i :: i in consumed ==> i < index
      invariant Unconsumed(argv, consumed, index) == Positionals(items)
    {
      var argument := argv[index];
      if argument !in VALUE_FLAGS {
        PushItem(items, Positional(argument));
        PassOver(argv, consumed, index);
        items := items + [Positional(argument)];
        index := index + 1;
        continue;
      }
      if index + 1 == |argv| {
        assert argv == argv[..index] + [argument];
        OnlyOneReading(argv, Line(items, Some(argument)));
        return Err(MissingFlagValue(argument));
      }
      var value := argv[index + 1];
      PushItem(items, Pair(argument, value));
      StepUnconsumed(argv, consumed, index);
      assert argv[..index + 2] == argv[..index] + [argument, value];
      items := items + [Pair(argument, value)];
      values := values[argument := value];
      consumed := consumed + {index};
      consumed := consumed + {index + 1};
      index := index + 2;
    }
    assert argv[..|argv|] == argv;
    OnlyOneReading(argv, Line(items, None));
    var positional := Unconsumed(argv, consumed, |argv|);
    r := Decide(positional, values);
  }

  lemma EmptyLine(argv: seq<string>)
    ensures Words([]) == [] && Values([]) == map[] && Positionals([]) == []
    ensures Unconsumed(argv, {}, 0) == []
  {
  }

  lemma PassOver(argv: seq<string>, consumed: set<int>, index: nat)
    requires index < |argv| && forall i :: i in consumed ==> i < index
    ensures Unconsumed(argv, consumed, index + 1)
         == Unconsumed(argv, consumed, index) + [argv[index]]
    ensures argv[..index + 1] == argv[..index] + [argv[index]]
  {
    assert index !in consumed;
  }

  /** A value is reported missing exactly when the words pair up with one flag left over. */
  lemma MissingValueExactly(argv: seq<string>, flag: string)
    ensures Ruling(Read(argv)) == Err(MissingFlagValue(flag))
       <==> exists items :: IsLine(argv, Line(items, Some(flag)))
  {
    hide Words, Positionals, Values, Read;
    ReadIsALine(argv);
    forall items | IsLine(argv, Line(items, Some(flag))) ensures Read(argv).dangling == Some(flag) {
      OnlyOneReading(argv, Line(items, Some(flag)));
    }
    if Ruling(Read(argv)) == Err(MissingFlagValue(flag)) {
      assert IsLine(argv, Line(Read(argv).items, Some(flag)));
    }
  }

  // ---- first positional, last values ----------------------------------------------------------------

  predicate IsFirst(items: seq<Item>, i: nat) {
    i < |items| && items[i].Positional? && forall j :: 0 <= j < i ==> items[j].Pair?
  }

  predicate IsLast(items: seq<Item>, i: nat) {
    && i < |items| && items[i].Pair?
    && forall j :: i < j < |items| && items[j].Pair? ==> items[j].flag != items[i].flag
  }

  lemma {:induction false} PositionalsAppend(a: seq<Item>, b: seq<Item>)
    ensures Positionals(a + b) == Positionals(a) + Positionals(b)
    decreases |b|
  {
    hide *;
    EmptyLine([]);
    if b == [] {
      assert a + b == a;
    } else {
      var n := |b| - 1;
      PositionalsAppend(a, b[..n]);
      assert a + b == (a + b[..n]) + [b[n]] && b == b[..n] + [b[n]];
      PushItem(a + b[..n], b[n]);
      PushItem(b[..n], b[n]);
    }
  }

  lemma MergeThenUpdate(a: map<string, string>, b: map<string, string>, key: string, text: string)
    ensures (a + b)[key := text] == a + b[key := text]
  {
  }

  lemma {:induction false} ValuesAppend(a: seq<Item>, b: seq<Item>)
    ensures Values(a + b) == Values(a) + Values(b)
    decreases |b|
  {
    hide *;
    EmptyLine([]);
    if b == [] {
      assert a + b == a;
    } else {
      var n := |b| - 1;
      ValuesAppend(a, b[..n]);
      assert a + b == (a + b[..n]) + [b[n]] && b == b[..n] + [b[n]];
      PushItem(a + b[..n], b[n]);
      PushItem(b[..n], b[n]);
      if b[n].Pair? {
        MergeThenUpdate(Values(a), Values(b[..n]), b[n].flag, b[n].text);
      }
    }
  }

  lemma {:induction false} OnlyPairs(items: seq<Item>)
    requires forall j :: 0 <= j < |items| ==> items[j].Pair?
    ensures Positionals(items) == []
    decreases |items|
  {
    if items != [] {
      OnlyPairs(items[..|items| - 1]);
    }
  }

  lemma FirstComesFirst(items: seq<Item>, i: nat)
    requires IsFirst(items, i)
    ensures Positionals(items) != [] && Positionals(items)[0] == items[i].text
  {
    hide Values, Words;
    assert items == items[..i] + ([items[i]] + items[i + 1..]);
    OnlyPairs(items[..i]);
    PositionalsAppend(items[..i], [items[i]] + items[i + 1..]);
    PositionalsAppend([items[i]], items[i + 1..]);
    assert [items[i]][..0] == [];
  }

  lemma NotGiven(items: seq<Item>, flag: string)
    requires forall k :: 0 <= k < |items| && items[k].Pair? ==> items[k].flag != flag
    ensures flag !in Values(items)
  {
    hide Positionals, Words;
  }

  lemma LastWins(items: seq<Item>, i: nat)
    requires IsLast(items, i)
    ensures items[i].flag in Values(items) && Values(items)[items[i].flag] == items[i].text
  {
    hide *;
    NothingAfter(items, i);
    var front, back := items[..i + 1], items[i + 1..];
    NotGiven(back, items[i].flag);
    assert items == front + back && front == items[..i] + [items[i]];
    ValuesAppend(front, back);
    PushItem(items[..i], items[i]);
  }

  lemma NothingAfter(items: seq<Item>, i: nat)
    requires IsLast(items, i)
    ensures i < |items| && items[i].Pair?
    ensures var back := items[i + 1..];
      forall k :: 0 <= k < |back| && back[k].Pair? ==> back[k].flag != items[i].flag
  {
  }

  /** The field a flag speaks for. */
  function Field(args: AotArgs, flag: string): Option<string> {
    if flag == "--out" then Some(args.out)
    else if flag == "--image" then args.image
    else if flag == "--docker" then args.docker
    else if flag == "--publish-as" then args.publishAs
    else if flag == "--signing-key" then args.signingKey
    else if flag == "--record-out" then args.recordOut
    else args.againstRecord
  }

  /** What a field holds when its flag was not given. */
  function Unasked(args: AotArgs, flag: string): Option<string> {
    if flag == "--out" then Some(args.input + ".wasm")
    else if flag == "--record-out" && args.publishAs.Some? then Some(args.out + ".record.json")
    else None
  }

  lemma FlagsDiffer()
    ensures forall i, j :: 0 <= i < j < |VALUE_FLAGS| ==> VALUE_FLAGS[i] != VALUE_FLAGS[j]
    ensures forall flag :: flag in VALUE_FLAGS ==> StartsWith(flag, "-")
  {
    assert PUBLISH_AS[2] == 'p' && RECORD_OUT[2] == 'r';
    assert |PUBLISH_AS| == 12 && |SIGNING_KEY| == 13 && |RECORD_OUT| == 12;
    assert OUT[..1] == "-" && IMAGE[..1] == "-" && DOCKER[..1] == "-" && PUBLISH_AS[..1] == "-";
    assert SIGNING_KEY[..1] == "-" && RECORD_OUT[..1] == "-" && AGAINST_RECORD[..1] == "-";
  }

  lemma DecidedFields(
      positional: seq<string>, values: map<string, string>, args: AotArgs, flag: string)
    requires Decide(positional, values) == Ok(args) && flag in VALUE_FLAGS
    ensures Field(args, flag) == if flag in values then Some(values[flag]) else Unasked(args, flag)
  {
    FlagsDiffer();
  }

  /** Accepted: the input is the first positional and each flag has the last value it was given. */
  lemma TakesFirstAndLast(items: seq<Item>, args: AotArgs, i: nat)
    requires Legal(items) && Ruling(Read(Words(items))) == Ok(args)
    ensures IsFirst(items, i) ==> args.input == items[i].text
    ensures IsLast(items, i) ==> Field(args, items[i].flag) == Some(items[i].text)
  {
    hide Words, Positionals, Values, Read, Field, Unasked;
    OnlyOneReading(Words(items), Line(items, None));
    if IsFirst(items, i) {
      FirstComesFirst(items, i);
    }
    if IsLast(items, i) {
      hide Decide;
      LastWins(items, i);
      DecidedFields(Positionals(items), Values(items), args, items[i].flag);
    }
  }

  predicate IsGiven(items: seq<Item>, flag: string) {
    exists k :: 0 <= k < |items| && items[k].Pair? && items[k].flag == flag
  }

  /** A flag that was not given leaves its default behind. */
  lemma LeavesDefaults(items: seq<Item>, args: AotArgs, flag: string)
    requires Legal(items) && Ruling(Read(Words(items))) == Ok(args)
    requires flag in VALUE_FLAGS && !IsGiven(items, flag)
    ensures Field(args, flag) == Unasked(args, flag)
  {
    hide Words, Positionals, Values, Read, Field, Unasked, Decide;
    OnlyOneReading(Words(items), Line(items, None));
    DecidedFields(Positionals(items), Values(items), args, flag);
  }

  // ---- every refusal has its reason -----------------------------------------------------------

  predicate HasPositional(items: seq<Item>) {
    exists k :: 0 <= k < |items| && items[k].Positional?
  }

  lemma {:induction false} FirstPositional(items: seq<Item>) returns (i: nat)
    ensures HasPositional(items) ==> IsFirst(items, i)
    ensures !HasPositional(items) ==> Positionals(items) == []
    decreases |items|
  {
    i := 0;
    if !HasPositional(items) {
      OnlyPairs(items);
    } else {
      var n := |items| - 1;
      i := FirstPositional(items[..n]);
      if !HasPositional(items[..n]) {
        assert forall j :: 0 <= j < n ==> items[..n][j] == items[j];
        i := n;
      }
    }
  }

  lemma {:induction false} LastGiven(items: seq<Item>, flag: string) returns (i: nat)
    ensures IsGiven(items, flag) ==> IsLast(items, i) && items[i].flag == flag
    decreases |items|
  {
    i := 0;
    if items != [] {
      var n := |items| - 1;
      if items[n].Pair? && items[n].flag == flag {
        i := n;
      } else {
        i := LastGiven(items[..n], flag);
        assert IsGiven(items, flag) ==> IsGiven(items[..n], flag) by {
          if k :| 0 <= k < |items| && items[k].Pair? && items[k].flag == flag {
            assert items[..n][k] == items[k];
          }
        }
      }
    }
  }

  lemma GivenExactly(items: seq<Item>, flag: string)
    ensures flag in Values(items) <==> IsGiven(items, flag)
  {
    hide Values, Positionals, Words;
    var i := LastGiven(items, flag);
    if IsGiven(items, flag) {
      LastWins(items, i);
    } else {
      NotGiven(items, flag);
    }
  }

  predicate IsKey(text: string) {
    |text| == 64 && forall i :: 0 <= i < 64 ==> '0' <= text[i] <= '9' || 'a' <= text[i] <= 'f'
  }

  /** The last value of the key is not 64 lower-case hexadecimal digits. */
  ghost predicate HasBadKey(items: seq<Item>) {
    exists i: nat :: IsLast(items, i) && items[i].flag == "--signing-key" && !IsKey(items[i].text)
  }

  /** The first word on its own looks like a flag. */
  ghost predicate StartsWithADash(items: seq<Item>, word: string) {
    exists i: nat :: IsFirst(items, i) && items[i].text == word && word != "" && word[0] == '-'
  }

  ghost predicate HasInput(items: seq<Item>) {
    HasPositional(items) && forall word :: !StartsWithADash(items, word)
  }

  /** Why a command line whose words pair up is refused. */
  ghost predicate IsReason(items: seq<Item>, failure: ArgFailure) {
    var publish, key := IsGiven(items, "--publish-as"), IsGiven(items, "--signing-key");
    match failure
    case NoInput => !HasPositional(items)
    case MissingFlagValue(_) => false
    case FlagInInputPosition(word) => StartsWithADash(items, word)
    case HalfAPublish(given, missing) =>
      && HasInput(items)
      && if publish then !key && given == "--publish-as" && missing == "--signing-key"
         else key && given == "--signing-key" && missing == "--publish-as"
    case BadSigningKey => HasInput(items) && publish && HasBadKey(items)
  }

  lemma OneIsFirst(items: seq<Item>, i: nat, k: nat)
    requires IsFirst(items, i) && IsFirst(items, k)
    ensures i == k
  {
  }

  lemma DashExactly(items: seq<Item>)
    requires HasPositional(items)
    ensures Positionals(items) != []
    ensures forall word :: StartsWithADash(items, word) <==>
      word == Positionals(items)[0] && StartsWith(word, "-")
  {
    hide Values, Positionals, Words;
    var i := FirstPositional(items);
    FirstComesFirst(items, i);
    forall k: nat | IsFirst(items, k) ensures k == i {
      OneIsFirst(items, i, k);
    }
    forall word ensures StartsWith(word, "-") <==> word != "" && word[0] == '-' {
      StartsWithIs(word, "-");
      assert word != "" && word[0] == '-' ==> word == "-" + word[1..];
    }
  }

  lemma BadKeyExactly(items: seq<Item>)
    ensures HasBadKey(items) <==>
      SIGNING_KEY in Values(items) && !IsSigningKey(Values(items)[SIGNING_KEY])
  {
    hide Values, Positionals, Words;
    GivenExactly(items, SIGNING_KEY);
    var i := LastGiven(items, SIGNING_KEY);
    forall k: nat | IsLast(items, k) && items[k].flag == SIGNING_KEY
      ensures SIGNING_KEY in Values(items) && Values(items)[SIGNING_KEY] == items[k].text
    {
      LastWins(items, k);
    }
  }

  /** A command line whose words pair up is refused exactly for the reason it gives. */
  lemma RefusesExactly(items: seq<Item>, failure: ArgFailure)
    requires Legal(items)
    ensures Ruling(Read(Words(items))) == Err(failure) <==> IsReason(items, failure)
  {
    hide Words, Positionals, Values, Read, HasBadKey, StartsWithADash, IsSigningKey, IsGiven,
         HasPositional, StartsWith;
    OnlyOneReading(Words(items), Line(items, None));
    GivenExactly(items, PUBLISH_AS);
    GivenExactly(items, SIGNING_KEY);
    BadKeyExactly(items);
    if HasPositional(items) {
      DashExactly(items);
    } else {
      var i := FirstPositional(items);
      NoDash(items);
    }
  }

  lemma NoDash(items: seq<Item>)
    requires !HasPositional(items)
    ensures forall word :: !StartsWithADash(items, word)
  {
  }

  /** Only the order among positionals and the order among pairs can matter. */
  lemma OrderAcrossKindsIsIrrelevant(x: seq<Item>, y: seq<Item>)
    requires Legal(x) && Legal(y)
    requires Positionals(x) == Positionals(y) && Values(x) == Values(y)
    ensures Ruling(Read(Words(x))) == Ruling(Read(Words(y)))
  {
    hide Words, Positionals, Values, Read, Decide;
    OnlyOneReading(Words(x), Line(x, None));
    OnlyOneReading(Words(y), Line(y, None));
  }

  lemma StaysLegal(a: seq<Item>, item: Item, next: Item, b: seq<Item>)
    requires Legal(a) && item.Legal() && next.Legal() && Legal(b)
    ensures Legal(a + [item, next] + b)
  {
    hide Item.Legal;
  }

  /** A flag and its value may stand on either side of a positional. */
  lemma MovingAPairChangesNothing(a: seq<Item>, pair: Item, word: Item, b: seq<Item>)
    requires pair.Pair? && word.Positional? && pair.Legal() && word.Legal()
    requires Legal(a) && Legal(b)
    ensures Ruling(Read(Words(a + [word, pair] + b))) == Ruling(Read(Words(a + [pair, word] + b)))
  {
    hide *;
    var x, y := a + [word, pair], a + [pair, word];
    StaysLegal(a, word, pair, b);
    StaysLegal(a, pair, word, b);
    assert x == (a + [word]) + [pair] && y == (a + [pair]) + [word];
    PushItem(a, word);
    PushItem(a, pair);
    PushItem(a + [word], pair);
    PushItem(a + [pair], word);
    PositionalsAppend(x, b);
    PositionalsAppend(y, b);
    ValuesAppend(x, b);
    ValuesAppend(y, b);
    OrderAcrossKindsIsIrrelevant(x + b, y + b);
  }

  // ---- writing an accepted command line back -----------------------------------------------------------

  /** Every result the parser can accept, and no other. */
  predicate Acceptable(args: AotArgs) {
    && !StartsWith(args.input, "-")
    && (args.publishAs.Some? <==> args.signingKey.Some?)
    && (args.signingKey.Some? ==> IsSigningKey(args.signingKey.value))
    && (args.publishAs.Some? ==> args.recordOut.Some?)
  }

  function Given(flag: string, value: Option<string>): seq<Item> {
    if value.Some? then [Pair(flag, value.value)] else []
  }

  function Rendered(args: AotArgs): seq<Item> {
    [Positional(args.input), Pair(OUT, args.out)]
    + Given(IMAGE, args.image) + Given(DOCKER, args.docker)
    + Given(PUBLISH_AS, args.publishAs) + Given(SIGNING_KEY, args.signingKey)
    + Given(RECORD_OUT, args.recordOut) + Given(AGAINST_RECORD, args.againstRecord)
  }

  function Render(args: AotArgs): seq<string> {
    Words(Rendered(args))
  }

  function Put(values: map<string, string>, flag: string, value: Option<string>)
    : map<string, string>
  {
    if value.Some? then values[flag := value.value] else values
  }

  lemma GiveOne(items: seq<Item>, flag: string, value: Option<string>)
    ensures Positionals(items + Given(flag, value)) == Positionals(items)
    ensures Values(items + Given(flag, value)) == Put(Values(items), flag, value)
  {
    if value.Some? {
      PushItem(items, Pair(flag, value.value));
    } else {
      assert items + [] == items;
    }
  }

  lemma AcceptedIsAcceptable(argv: seq<string>)
    requires Ruling(Read(argv)).Ok?
    ensures Acceptable(Ruling(Read(argv)).value)
  {
  }

  /** Rendered and parsed again, an acceptable result comes back as it was; nothing else does. */
  lemma RenderThenParse(args: AotArgs)
    ensures Ruling(Read(Render(args))) == Ok(args) <==> Acceptable(args)
  {
    hide Words, Positionals, Values, Read, Given, Decide;
    if Acceptable(args) {
      RenderedIsLegal(args);
      OnlyOneReading(Render(args), Line(Rendered(args), None));
      RenderedDecides(args);
    }
    if Ruling(Read(Render(args))) == Ok(args) {
      AcceptedIsAcceptable(Render(args));
    }
  }

  lemma RenderedIsLegal(args: AotArgs)
    requires !StartsWith(args.input, "-")
    ensures Legal(Rendered(args))
  {
    FlagsDiffer();
    hide Given, Item.Legal;
    OptionalIsLegal(IMAGE, args.image);
    OptionalIsLegal(DOCKER, args.docker);
    OptionalIsLegal(PUBLISH_AS, args.publishAs);
    OptionalIsLegal(SIGNING_KEY, args.signingKey);
    OptionalIsLegal(RECORD_OUT, args.recordOut);
    OptionalIsLegal(AGAINST_RECORD, args.againstRecord);
    FirstIsLegal(args);
  }

  lemma OptionalIsLegal(flag: string, value: Option<string>)
    requires flag in VALUE_FLAGS
    ensures Legal(Given(flag, value))
  {
  }

  lemma FirstIsLegal(args: AotArgs)
    requires !StartsWith(args.input, "-")
    ensures Positional(args.input).Legal() && Pair(OUT, args.out).Legal()
  {
    FlagsDiffer();
  }

  /** The values the rendered items give, one flag at a time. */
  function FieldMap(args: AotArgs): map<string, string> {
    Put(Put(Put(Put(Put(Put(map[OUT := args.out],
      IMAGE, args.image), DOCKER, args.docker),
      PUBLISH_AS, args.publishAs), SIGNING_KEY, args.signingKey),
      RECORD_OUT, args.recordOut), AGAINST_RECORD, args.againstRecord)
  }

  lemma RenderedValues(args: AotArgs)
    ensures Positionals(Rendered(args)) == [args.input]
    ensures Values(Rendered(args)) == FieldMap(args)
  {
    hide Words, Positionals, Values, Given, Put, ValueOf;
    EmptyLine([]);
    var items := [Positional(args.input), Pair(OUT, args.out)];
    assert items == ([] + [Positional(args.input)]) + [Pair(OUT, args.out)];
    PushItem([], Positional(args.input));
    PushItem([] + [Positional(args.input)], Pair(OUT, args.out));
    var image := items + Given(IMAGE, args.image);
    GiveOne(items, IMAGE, args.image);
    var docker := image + Given(DOCKER, args.docker);
    GiveOne(image, DOCKER, args.docker);
    var publish := docker + Given(PUBLISH_AS, args.publishAs);
    GiveOne(docker, PUBLISH_AS, args.publishAs);
    var key := publish + Given(SIGNING_KEY, args.signingKey);
    GiveOne(publish, SIGNING_KEY, args.signingKey);
    var record := key + Given(RECORD_OUT, args.recordOut);
    GiveOne(key, RECORD_OUT, args.recordOut);
    GiveOne(record, AGAINST_RECORD, args.againstRecord);
  }

  lemma FieldOfMap(args: AotArgs, flag: string)
    requires flag in VALUE_FLAGS
    ensures ValueOf(FieldMap(args), flag) == Field(args, flag)
  {
    FlagsDiffer();
  }

  lemma RenderedDecides(args: AotArgs)
    requires Acceptable(args)
    ensures Decide(Positionals(Rendered(args)), Values(Rendered(args))) == Ok(args)
  {
    hide Values, Positionals, Rendered, FieldMap, IsSigningKey;
    RenderedValues(args);
    FlagsDiffer();
    FieldOfMap(args, OUT);
    FieldOfMap(args, IMAGE);
    FieldOfMap(args, DOCKER);
    FieldOfMap(args, PUBLISH_AS);
    FieldOfMap(args, SIGNING_KEY);
    FieldOfMap(args, RECORD_OUT);
    FieldOfMap(args, AGAINST_RECORD);
  }

  // ---- the key, to hexadecimal and back --------------------------------------------------------------

  /** `value.toString(16)` for one digit. */
  function LowerHex(value: nat): (c: char)
    requires value < 16
    ensures IsLowerHex(c) && HexDigit(c) == value
  {
    if value < 10 then '0' + value as char else 'a' + (value - 10) as char
  }

  /** `byte.toString(16)`: no leading zero. */
  function ToString16(b: byte): (r: string)
    ensures 1 <= |r| <= 2
  {
    if b < 16 then [LowerHex(b)] else [LowerHex(b / 16), LowerHex(b % 16)]
  }

  /** `text.padStart(2, '0')`. */
  function PadStart2(text: string): string {
    if |text| >= 2 then text else if |text| == 1 then "0" + text else "00"
  }

  function HexOf(bytes: seq<byte>): string {
    if bytes == [] then ""
    else HexOf(bytes[..|bytes| - 1]) + PadStart2(ToString16(bytes[|bytes| - 1]))
  }

  method ToHex(bytes: seq<byte>) returns (out: string)
    ensures out == HexOf(bytes)
  {
    hide ToString16, PadStart2;
    out := "";
    for i := 0 to |bytes|
      invariant out == HexOf(bytes[..i])
    {
      assert bytes[..i + 1][..i] == bytes[..i];
      out := out + PadStart2(ToString16(bytes[i]));
    }
    assert bytes[..|bytes|] == bytes;
  }

  lemma TwoDigits(b: byte)
    ensures var digits := PadStart2(ToString16(b));
      && |digits| == 2 && IsLowerHex(digits[0]) && IsLowerHex(digits[1])
      && HexDigit(digits[0]) * 16 + HexDigit(digits[1]) == b
  {
  }

  /** Two lower-case digits for every byte, most significant first. */
  lemma {:induction false} HexOfDigits(bytes: seq<byte>, i: nat)
    requires i < |bytes|
    ensures |HexOf(bytes)| == 2 * |bytes|
    ensures HexOf(bytes)[2 * i..2 * i + 2] == PadStart2(ToString16(bytes[i]))
    decreases |bytes|
  {
    hide ToString16, PadStart2;
    var n := |bytes| - 1;
    TwoDigits(bytes[n]);
    if n > 0 {
      HexOfDigits(bytes[..n], if i < n then i else 0);
    }
  }

  /** `Number.parseInt` of the two digits at `2 * i`. */
  function ByteAt(hex: string, i: nat): byte
    requires IsSigningKey(hex) && i < 32
  {
    HexDigit(hex[2 * i]) * 16 + HexDigit(hex[2 * i + 1])
  }

  function KeyOf(hex: string): seq<byte>
    requires IsSigningKey(hex)
  {
    seq<byte>(32, (i: nat) requires i < 32 => ByteAt(hex, i))
  }

  /** The parser has already refused anything but 64 lower-case hexadecimal characters. */
  method FromHexKey(hex: string) returns (bytes: array<byte>)
    requires IsSigningKey(hex)
    ensures fresh(bytes) && bytes[..] == KeyOf(hex)
  {
    bytes := new byte[32](_ => 0);
    for i := 0 to 32
      invariant forall k :: 0 <= k < i ==> bytes[k] == ByteAt(hex, k)
    {
      bytes[i] := ByteAt(hex, i);
    }
  }

  /** Written as hexadecimal a key is one the parser takes, and it reads back as itself. */
  lemma KeyReadsBack(key: seq<byte>)
    requires |key| == 32
    ensures IsSigningKey(HexOf(key)) && KeyOf(HexOf(key)) == key
  {
    hide ToString16, PadStart2, HexOf;
    var hex := HexOf(key);
    forall i | 0 <= i < 32
      ensures |hex| == 64 && IsLowerHex(hex[2 * i]) && IsLowerHex(hex[2 * i + 1])
      ensures HexDigit(hex[2 * i]) * 16 + HexDigit(hex[2 * i + 1]) == key[i]
    {
      HexOfDigits(key, i);
      TwoDigits(key[i]);
      assert hex[2 * i..2 * i + 2][0] == hex[2 * i] && hex[2 * i..2 * i + 2][1] == hex[2 * i + 1];
    }
    assert |hex| == 64 by {
      HexOfDigits(key, 0);
    }
    forall k | 0 <= k < 64 ensures IsLowerHex(hex[k]) {
      assert k == 2 * (k / 2) || k == 2 * (k / 2) + 1;
    }
  }

  lemma SameDigits(b: byte, high: char, low: char)
    requires IsLowerHex(high) && IsLowerHex(low) && HexDigit(high) * 16 + HexDigit(low) == b
    ensures PadStart2(ToString16(b)) == [high, low]
  {
    TwoDigits(b);
    OneDigit(high, PadStart2(ToString16(b))[0]);
    OneDigit(low, PadStart2(ToString16(b))[1]);
  }

  lemma OneDigit(a: char, b: char)
    requires IsLowerHex(a) && IsLowerHex(b)
    ensures HexDigit(a) == HexDigit(b) <==> a == b
  {
  }

  /** And a key the parser takes is written back as it was given. */
  lemma HexReadsBack(hex: string)
    requires IsSigningKey(hex)
    ensures HexOf(KeyOf(hex)) == hex
  {
    hide ToString16, PadStart2, HexOf;
    var key := KeyOf(hex);
    var again := HexOf(key);
    HexOfDigits(key, 0);
    forall k | 0 <= k < 64 ensures again[k] == hex[k] {
      var i := k / 2;
      HexOfDigits(key, i);
      SameDigits(key[i], hex[2 * i], hex[2 * i + 1]);
      assert again[2 * i..2 * i + 2][0] == again[2 * i];
      assert again[2 * i..2 * i + 2][1] == again[2 * i + 1];
    }
  }
}
