/** Reading what the lifter said (tools/aot/scan.ts). */
module Scan {
  import opened Common
  import opened Text

  datatype Stream = Stdout | Stderr

  datatype Finding =
    | NoSemantics(address: nat, form: string, stream: Stream, raw: string)
    | DecodeFailed(address: nat, form: string, stream: Stream, raw: string)
    | ExtractFailed(address: nat, byteLength: nat, stream: Stream, raw: string)
    | UnknownSystemRegister(fields: seq<nat>, stream: Stream, raw: string)

  datatype Unparsed = Unparsed(stream: Stream, text: string)

  datatype ToolchainScan =
    ToolchainScan(findings: seq<Finding>, unparsed: seq<Unparsed>, linesRead: nat)

  // ---- the patterns --------------------------------------------------------------------

  const ESC: char := '\U{1b}'

  /** The length of a colour code at the front: escape, `[`, digits and semicolons, `m`. */
  function AnsiLength(text: string): (n: nat)
    ensures n <= |text|
  {
    if |text| < 3 || text[0] != ESC || text[1] != '[' then 0
    else
      var n := Run(text[2..], c => IsDigit(c) || c == ';');
      if 2 + n < |text| && text[2 + n] == 'm' then 3 + n else 0
  }

  function StripAnsi(text: string): string
    decreases |text|
  {
    if text == "" then ""
    else if AnsiLength(text) > 0 then StripAnsi(text[AnsiLength(text)..])
    else [text[0]] + StripAnsi(text[1..])
  }

  /** A prefix, hexadecimal digits, a second literal: the number and what follows. */
  datatype Tagged = Tagged(address: nat, rest: string)

  function MatchTagged(line: string, prefix: string, middle: string): Option<Tagged> {
    if !StartsWith(line, prefix) then None
    else
      var from := line[|prefix|..];
      var n := Run(from, IsHexDigit);
      if n == 0 || !StartsWith(from[n..], middle) then None
      else Some(Tagged(HexValue(from[..n]), from[n + |middle|..]))
  }

  const UNSUPPORTED := " Unsupported instruction at address: 0x"
  const BUG := "[Bug]" + UNSUPPORTED
  const WARNING := "[WARNING]" + UNSUPPORTED
  const SEMANTICS := " (SemanticsFunction), instForm: "
  const DECODE := " (TryDecode), instForm: "
  const EXTRACT := " (TryExtract) size: "

  /** `(\S+)` */
  function Word(text: string): string {
    text[..Run(text, c => !IsSpace(c))]
  }

  /** `(\d+)` */
  function Digits(text: string): (r: string)
    ensures AllDigits(r)
  {
    text[..Run(text, IsDigit)]
  }

  const REGISTER_FIELDS: seq<string> :=
    ["Unrecognized system register ", " with op0=", ", op1=", ", crn=", ", crm=", ", op2="]

  /** Each literal followed by lower-case hexadecimal digits. */
  function MatchFields(text: string, literals: seq<string>): Option<seq<nat>>
    decreases |literals|
  {
    if literals == [] then Some([])
    else if !StartsWith(text, literals[0]) then None
    else
      var from := text[|literals[0]|..];
      var n := Run(from, IsLowerHex);
      if n == 0 then None
      else
        match MatchFields(from[n..], literals[1..])
        case None => None
        case Some(more) => Some([HexValue(from[..n])] + more)
  }

  /** The leftmost match anywhere in the line. */
  function SearchRegister(text: string): Option<seq<nat>>
    decreases |text|
  {
    match MatchFields(text, REGISTER_FIELDS)
    case Some(fields) => Some(fields)
    case None => if text == "" then None else SearchRegister(text[1..])
  }

  function ParseLine(line: string, stream: Stream): Option<Finding> {
    var bug := MatchTagged(line, BUG, SEMANTICS);
    if bug.Some? && Word(bug.value.rest) != "" then
      Some(NoSemantics(bug.value.address, Word(bug.value.rest), stream, line))
    else
      var decode := MatchTagged(line, WARNING, DECODE);
      if decode.Some? && Word(decode.value.rest) != "" then
        Some(DecodeFailed(decode.value.address, Word(decode.value.rest), stream, line))
      else
        var extract := MatchTagged(line, WARNING, EXTRACT);
        if extract.Some? && Digits(extract.value.rest) != "" then
          Some(ExtractFailed(extract.value.address, DecimalValue(Digits(extract.value.rest)),
                             stream, line))
        else
          match SearchRegister(line)
          case Some(fields) => Some(UnknownSystemRegister(fields, stream, line))
          case None => None
  }

  /** A glog severity letter, eight digits, a space. */
  predicate IsGlog(line: string) {
    |line| >= 10 && line[0] in {'E', 'W', 'F'} && AllDigits(line[1..9]) && line[9] == ' '
  }

  predicate LooksLikeDiagnostic(line: string) {
    Contains(line, "[Bug]") || Contains(line, "[WARNING]") || Contains(line, "[ERROR]")
    || IsGlog(line)
  }

  /** `[YYYY-MM-DD time] [info]` or `[debug]`. */
  predicate IsTimestamped(line: string) {
    && |line| >= 12 && line[0] == '[' && AllDigits(line[1..5]) && line[5] == '-'
    && AllDigits(line[6..8]) && line[8] == '-' && AllDigits(line[9..11]) && line[11] == ' '
    && var n := Run(line[12..], c => IsDigit(c) || c == ':' || c == '.');
       n > 0
       && (StartsWith(line[12 + n..], "] [info]") || StartsWith(line[12 + n..], "] [debug]"))
  }

  predicate IsFlagChar(c: char) {
    'a' <= c <= 'z' || IsDigit(c) || c == '-'
  }

  /** Ends in a clang `[-Wflag]` suffix. */
  predicate HasClangSuffix(line: string) {
    exists i :: 0 <= i < |line| && StartsWith(line[i..], "[-W")
      && |line| - i >= 5 && line[|line| - 1] == ']'
      && forall j :: i + 3 <= j < |line| - 1 ==> IsFlagChar(line[j])
  }

  /** `N warning generated.` or `N warnings generated.` */
  predicate IsWarningCount(line: string) {
    var n := Run(line, IsDigit);
    n > 0 && (line[n..] == " warning generated." || line[n..] == " warnings generated.")
  }

  predicate Ignorable(line: string) {
    StartsWith(line, "[INFO]") || IsTimestamped(line) || HasClangSuffix(line)
    || IsWarningCount(line)
  }

  // ---- what one line is -----------------------------------------------------------------

  datatype LineKind = Silent | Found(finding: Finding) | Unexplained(text: string)

  function KindOf(rawLine: string, stream: Stream): LineKind {
    var line := Trim(StripAnsi(rawLine));
    if line == "" then Silent
    else
      match ParseLine(line, stream)
      case Some(finding) => Found(finding)
      case None =>
        if LooksLikeDiagnostic(line) && !Ignorable(line) then Unexplained(line) else Silent
  }

  function Plus(a: ToolchainScan, b: ToolchainScan): ToolchainScan {
    ToolchainScan(a.findings + b.findings, a.unparsed + b.unparsed, a.linesRead + b.linesRead)
  }

  function LineScan(rawLine: string, stream: Stream): ToolchainScan {
    match KindOf(rawLine, stream)
    case Silent => ToolchainScan([], [], 1)
    case Found(finding) => ToolchainScan([finding], [], 1)
    case Unexplained(text) => ToolchainScan([], [Unparsed(stream, text)], 1)
  }

  const NOTHING := ToolchainScan([], [], 0)

  function LinesScan(lines: seq<string>, stream: Stream): ToolchainScan {
    if lines == [] then NOTHING
    else
      Plus(LinesScan(lines[..|lines| - 1], stream), LineScan(lines[|lines| - 1], stream))
  }

  function TextScan(text: string, stream: Stream): ToolchainScan {
    LinesScan(Split(text, '\n'), stream)
  }

  // ---- the code ---------------------------------------------------------------------------

  method ScanStream(text: string, stream: Stream) returns (r: ToolchainScan)
    ensures r == TextScan(text, stream)
  {
    hide StripAnsi, ParseLine, LooksLikeDiagnostic, Ignorable, Trim, Split;
    var findings: seq<Finding>, unparsed: seq<Unparsed> := [], [];
    var lines := Split(text, '\n');
    for i := 0 to |lines|
      invariant ToolchainScan(findings, unparsed, i) == LinesScan(lines[..i], stream)
    {
      ghost var before := ToolchainScan(findings, unparsed, i);
      assert lines[..i + 1][..i] == lines[..i];
      assert LinesScan(lines[..i + 1], stream) == Plus(before, LineScan(lines[i], stream));
      var line := Trim(StripAnsi(lines[i]));
      if line == "" {
        continue;
      }
      var finding := ParseLine(line, stream);
      if finding.Some? {
        findings := findings + [finding.value];
        continue;
      }
      if !LooksLikeDiagnostic(line) {
        continue;
      }
      if Ignorable(line) {
        continue;
      }
      unparsed := unparsed + [Unparsed(stream, line)];
    }
    assert lines[..|lines|] == lines;
    return ToolchainScan(findings, unparsed, |lines|);
  }

  method ScanToolchainOutput(stdout: string, stderr: string) returns (r: ToolchainScan)
    ensures r == Plus(TextScan(stdout, Stdout), TextScan(stderr, Stderr))
  {
    var out := ScanStream(stdout, Stdout);
    var err := ScanStream(stderr, Stderr);
    return ToolchainScan(out.findings + err.findings, out.unparsed + err.unparsed,
                         out.linesRead + err.linesRead);
  }

  // ---- nothing is lost ----------------------------------------------------------------------

  lemma PlusIsAssociative(a: ToolchainScan, b: ToolchainScan, c: ToolchainScan)
    ensures Plus(Plus(a, b), c) == Plus(a, Plus(b, c))
  {
    assert (a.findings + b.findings) + c.findings == a.findings + (b.findings + c.findings);
    assert (a.unparsed + b.unparsed) + c.unparsed == a.unparsed + (b.unparsed + c.unparsed);
  }

  /** Scanning is a homomorphism over line concatenation. */
  lemma {:induction false} LinesScanAppend(a: seq<string>, b: seq<string>, stream: Stream)
    ensures LinesScan(a + b, stream) == Plus(LinesScan(a, stream), LinesScan(b, stream))
    decreases |b|
  {
    hide LineScan;
    if b == [] {
      assert a + b == a;
      var r := LinesScan(a, stream);
      assert Plus(r, NOTHING) == r by {
        assert r.findings + [] == r.findings && r.unparsed + [] == r.unparsed;
      }
    } else {
      var n := |b| - 1;
      LinesScanAppend(a, b[..n], stream);
      assert (a + b)[..|a + b| - 1] == a + b[..n];
      PlusIsAssociative(LinesScan(a, stream), LinesScan(b[..n], stream), LineScan(b[n], stream));
    }
  }

  /** Two outputs one line break apart are scanned as each on its own, in order. */
  lemma ScanningIsAHomomorphism(a: string, b: string, stream: Stream)
    ensures TextScan(a + "\n" + b, stream) == Plus(TextScan(a, stream), TextScan(b, stream))
  {
    hide LinesScan, Split;
    SplitAtSeparator(a, '\n', b);
    LinesScanAppend(Split(a, '\n'), Split(b, '\n'), stream);
  }

  // ---- what a finding says is what the toolchain printed --------------------------------------

  lemma PrefixOf(a: string, b: string)
    ensures StartsWith(a + b, a) && (a + b)[|a|..] == b
  {
  }

  lemma TaggedReadsBack(prefix: string, hex: string, middle: string, rest: string)
    requires hex != "" && AllHex(hex)
    requires middle != "" && !IsHexDigit(middle[0])
    ensures MatchTagged(prefix + (hex + (middle + rest)), prefix, middle)
         == Some(Tagged(HexValue(hex), rest))
  {
    hide HexValue, Run, StartsWith;
    PrefixOf(prefix, hex + (middle + rest));
    RunOf(hex, middle + rest, IsHexDigit);
    var from := hex + (middle + rest);
    assert from[..|hex|] == hex && from[|hex|..] == middle + rest;
    PrefixOf(middle, rest);
    assert from[|hex| + |middle|..] == (middle + rest)[|middle|..];
  }

  /** The four lines the toolchain's source prints about an instruction it gives up on. */
  datatype Printed =
    | Semantics(address: nat, zeros: nat, form: string)
    | Decode(address: nat, zeros: nat, form: string)
    | Extract(address: nat, zeros: nat, size: nat)
    | Register(prefix: string, encoding: nat, op0: nat, op1: nat, crn: nat, crm: nat, op2: nat)
  {
    /** Addresses are padded with zeros, register fields are not; all of it is in lower case. */
    function Line(): string {
      match this
      case Semantics(address, zeros, form) =>
        "[Bug]" + " Unsupported instruction at address: 0x"
        + (Padded(zeros, address) + (" (SemanticsFunction), instForm: " + form))
      case Decode(address, zeros, form) =>
        "[WARNING]" + " Unsupported instruction at address: 0x"
        + (Padded(zeros, address) + (" (TryDecode), instForm: " + form))
      case Extract(address, zeros, size) =>
        "[WARNING]" + " Unsupported instruction at address: 0x"
        + (Padded(zeros, address) + (" (TryExtract) size: " + DecimalText(size)))
      case Register(prefix, encoding, op0, op1, crn, crm, op2) =>
        prefix
        + ("Unrecognized system register " + (HexText(encoding)
           + (" with op0=" + (HexText(op0)
              + (", op1=" + (HexText(op1)
                 + (", crn=" + (HexText(crn)
                    + (", crm=" + (HexText(crm) + (", op2=" + HexText(op2))))))))))))
    }

    /** Forms are words, and a log prefix holds no bracketed tag in front. */
    ghost predicate Proper() {
      match this
      case Semantics(_, _, form) => IsForm(form)
      case Decode(_, _, form) => IsForm(form)
      case Extract(_, _, _) => true
      case Register(prefix, _, _, _, _, _, _) => IsPrefix(prefix)
    }

    function Means(stream: Stream): Finding {
      match this
      case Semantics(address, _, form) => NoSemantics(address, form, stream, Line())
      case Decode(address, _, form) => DecodeFailed(address, form, stream, Line())
      case Extract(address, _, size) => ExtractFailed(address, size, stream, Line())
      case Register(_, encoding, op0, op1, crn, crm, op2) =>
        UnknownSystemRegister([encoding, op0, op1, crn, crm, op2], stream, Line())
    }
  }

  function Padded(zeros: nat, n: nat): string {
    Zeros(zeros) + HexText(n)
  }

  /** The same lines, as the patterns take them apart. */
  datatype Shape =
    | SemanticsShape(hex: string, form: string)
    | DecodeShape(hex: string, form: string)
    | ExtractShape(hex: string, size: string)
    | RegisterShape(prefix: string, fields: seq<string>)
  {
    function Line(): string {
      match this
      case SemanticsShape(hex, form) => BUG + (hex + (SEMANTICS + form))
      case DecodeShape(hex, form) => WARNING + (hex + (DECODE + form))
      case ExtractShape(hex, size) => WARNING + (hex + (EXTRACT + size))
      case RegisterShape(prefix, fields) =>
        prefix + if |fields| == 6 then Interleave(REGISTER_FIELDS, fields) else ""
    }

    ghost predicate Proper() {
      match this
      case SemanticsShape(hex, form) => IsHex(hex) && IsForm(form)
      case DecodeShape(hex, form) => IsHex(hex) && IsForm(form)
      case ExtractShape(hex, size) => IsHex(hex) && size != "" && AllDigits(size)
      case RegisterShape(prefix, fields) => IsPrefix(prefix) && |fields| == 6 && AreFields(fields)
    }

    function Means(stream: Stream): Finding
      requires Proper()
    {
      match this
      case SemanticsShape(hex, form) => NoSemantics(HexValue(hex), form, stream, Line())
      case DecodeShape(hex, form) => DecodeFailed(HexValue(hex), form, stream, Line())
      case ExtractShape(hex, size) => ExtractFailed(HexValue(hex), DecimalValue(size), stream, Line())
      case RegisterShape(_, fields) => UnknownSystemRegister(Values(fields), stream, Line())
    }
  }

  function ShapeOf(printed: Printed): Shape {
    match printed
    case Semantics(address, zeros, form) => SemanticsShape(Padded(zeros, address), form)
    case Decode(address, zeros, form) => DecodeShape(Padded(zeros, address), form)
    case Extract(address, zeros, size) => ExtractShape(Padded(zeros, address), DecimalText(size))
    case Register(prefix, encoding, op0, op1, crn, crm, op2) =>
      RegisterShape(prefix, FieldTexts(encoding, op0, op1, crn, crm, op2))
  }

  function FieldTexts(encoding: nat, op0: nat, op1: nat, crn: nat, crm: nat, op2: nat): seq<string> {
    [HexText(encoding), HexText(op0), HexText(op1), HexText(crn), HexText(crm), HexText(op2)]
  }

  predicate IsHex(hex: string) {
    hex != "" && AllHex(hex)
  }

  predicate IsForm(form: string) {
    form != "" && forall i :: 0 <= i < |form| ==> !IsSpace(form[i]) && form[i] != ESC
  }

  /** What the logger puts in front: no `U`, no escape, and neither a tag nor a blank to begin with. */
  predicate IsPrefix(prefix: string) {
    'U' !in prefix && ESC !in prefix && (prefix != "" ==> prefix[0] != '[' && !IsSpace(prefix[0]))
  }

  predicate IsField(field: string) {
    field != "" && forall i :: 0 <= i < |field| ==> IsLowerHex(field[i])
  }

  predicate AreFields(fields: seq<string>) {
    forall i :: 0 <= i < |fields| ==> IsField(fields[i])
  }

  function Values(fields: seq<string>): seq<nat>
    requires AreFields(fields)
  {
    if fields == [] then [] else [HexValue(fields[0])] + Values(fields[1..])
  }

  /** A literal, a field, a literal, a field, … */
  function Interleave(literals: seq<string>, fields: seq<string>): string
    requires |literals| == |fields|
  {
    if literals == [] then "" else literals[0] + (fields[0] + Interleave(literals[1..], fields[1..]))
  }

  /** No literal but the first begins with a lower-case hexadecimal digit. */
  predicate Delimits(literals: seq<string>) {
    forall i :: 1 <= i < |literals| ==> literals[i] != "" && !IsLowerHex(literals[i][0])
  }

  lemma {:induction false} FieldsReadBack(literals: seq<string>, fields: seq<string>)
    requires |literals| == |fields| && AreFields(fields) && Delimits(literals)
    ensures MatchFields(Interleave(literals, fields), literals) == Some(Values(fields))
    decreases |literals|
  {
    if literals != [] {
      hide HexValue, Run, StartsWith;
      var rest := Interleave(literals[1..], fields[1..]);
      assert IsField(fields[0]);
      assert rest == "" || (rest[0] == literals[1][0] && !IsLowerHex(rest[0]));
      PrefixOf(literals[0], fields[0] + rest);
      RunOf(fields[0], rest, IsLowerHex);
      FieldsReadBack(literals[1..], fields[1..]);
      assert (fields[0] + rest)[..|fields[0]|] == fields[0];
      assert (fields[0] + rest)[|fields[0]|..] == rest;
    }
  }

  lemma {:induction false} RegisterIsFound(prefix: string, body: string, found: seq<nat>)
    requires 'U' !in prefix && MatchFields(body, REGISTER_FIELDS) == Some(found)
    ensures SearchRegister(prefix + body) == Some(found)
    decreases |prefix|
  {
    hide MatchFields;
    if prefix == "" {
      assert prefix + body == body;
    } else {
      NoMatchWithout(prefix + body);
      assert (prefix + body)[1..] == prefix[1..] + body;
      RegisterIsFound(prefix[1..], body, found);
    }
  }

  /** The pattern begins with `U`. */
  lemma NoMatchWithout(text: string)
    requires text != "" && text[0] != 'U'
    ensures MatchFields(text, REGISTER_FIELDS) == None
  {
    assert REGISTER_FIELDS[0][0] == 'U';
    assert |text| >= |REGISTER_FIELDS[0]| ==> text[..|REGISTER_FIELDS[0]|][0] == text[0];
  }

  lemma ShapeReadsBack(shape: Shape, stream: Stream)
    requires shape.Proper()
    ensures ParseLine(shape.Line(), stream) == Some(shape.Means(stream))
  {
    match shape
    case SemanticsShape(hex, form) => SemanticsReadsBack(hex, form, stream);
    case DecodeShape(hex, form) => DecodeReadsBack(hex, form, stream);
    case ExtractShape(hex, size) => ExtractReadsBack(hex, size, stream);
    case RegisterShape(prefix, fields) => RegisterReadsBack(prefix, fields, stream);
  }

  lemma PaddedIsHex(zeros: nat, n: nat)
    ensures IsHex(Padded(zeros, n)) && HexValue(Padded(zeros, n)) == n
  {
    ZerosAreNothingInHex(zeros, HexText(n));
    HexTextReadsBack(n);
  }

  lemma FieldTextsAreFields(encoding: nat, op0: nat, op1: nat, crn: nat, crm: nat, op2: nat)
    ensures var fields := FieldTexts(encoding, op0, op1, crn, crm, op2);
      AreFields(fields) && Values(fields) == [encoding, op0, op1, crn, crm, op2]
  {
    hide HexText, HexValue;
    var fields := FieldTexts(encoding, op0, op1, crn, crm, op2);
    HexTextReadsBack(encoding);
    HexTextReadsBack(op0);
    HexTextReadsBack(op1);
    HexTextReadsBack(crn);
    HexTextReadsBack(crm);
    HexTextReadsBack(op2);
    assert forall i :: 0 <= i < 6 ==> IsField(fields[i]);
    ValuesOfSix(fields);
  }

  lemma FieldsAreHex(f: seq<string>)
    requires AreFields(f)
    ensures forall i :: 0 <= i < |f| ==> AllHex(f[i])
  {
    forall i | 0 <= i < |f| ensures AllHex(f[i]) {
      assert IsField(f[i]);
    }
  }

  lemma ValuesFrom(f: seq<string>, k: nat)
    requires AreFields(f) && k < |f| && AllHex(f[k])
    ensures AreFields(f[k..]) && AreFields(f[k + 1..])
    ensures Values(f[k..]) == [HexValue(f[k])] + Values(f[k + 1..])
  {
    hide HexValue, IsField;
    assert f[k..][1..] == f[k + 1..];
  }

  lemma ValuesOfSix(f: seq<string>)
    requires |f| == 6 && AreFields(f)
    ensures forall i :: 0 <= i < |f| ==> AllHex(f[i])
    ensures Values(f) == [HexValue(f[0]), HexValue(f[1]), HexValue(f[2]), HexValue(f[3]),
                          HexValue(f[4]), HexValue(f[5])]
  {
    hide HexValue, IsField, AllHex;
    FieldsAreHex(f);
    assert f[0..] == f;
    ValuesFrom(f, 0);
    ValuesFrom(f, 1);
    ValuesFrom(f, 2);
    ValuesFrom(f, 3);
    ValuesFrom(f, 4);
    ValuesFrom(f, 5);
    assert f[6..] == [];
  }

  lemma InterleaveFrom(t: seq<string>, f: seq<string>, k: nat)
    requires |t| == |f| && k < |t|
    ensures Interleave(t[k..], f[k..]) == t[k] + (f[k] + Interleave(t[k + 1..], f[k + 1..]))
  {
    assert t[k..][1..] == t[k + 1..] && f[k..][1..] == f[k + 1..];
  }

  lemma InterleaveSix(t: seq<string>, f: seq<string>)
    requires |t| == |f| == 6
    ensures Interleave(t, f)
      == t[0] + (f[0] + (t[1] + (f[1] + (t[2] + (f[2] + (t[3] + (f[3] + (t[4] + (f[4] + (t[5]
         + f[5]))))))))))
  {
    assert t[0..] == t && f[0..] == f && t[6..] == [] && f[6..] == [];
    InterleaveFrom(t, f, 0);
    InterleaveFrom(t, f, 1);
    InterleaveFrom(t, f, 2);
    InterleaveFrom(t, f, 3);
    InterleaveFrom(t, f, 4);
    InterleaveFrom(t, f, 5);
    assert Interleave([], []) == "" && f[5] + "" == f[5];
  }

  lemma ShapeIsThePrinted(printed: Printed)
    requires printed.Proper()
    ensures var shape := ShapeOf(printed);
      shape.Proper() && shape.Line() == printed.Line()
      && forall stream :: shape.Means(stream) == printed.Means(stream)
  {
    hide HexText, DecimalText, IsForm, IsPrefix, AreFields, IsHex, Padded, Interleave, HexValue,
         DecimalValue, Values;
    match printed
    case Semantics(address, zeros, form) =>
      PaddedIsHex(zeros, address);
    case Decode(address, zeros, form) =>
      PaddedIsHex(zeros, address);
    case Extract(address, zeros, size) =>
      PaddedIsHex(zeros, address);
      DecimalReadsBack(size);
    case Register(prefix, encoding, op0, op1, crn, crm, op2) =>
      FieldTextsAreFields(encoding, op0, op1, crn, crm, op2);
      InterleaveSix(REGISTER_FIELDS, FieldTexts(encoding, op0, op1, crn, crm, op2));
  }

  /** Every line so printed is parsed back as what it says. */
  lemma PrintedFindingsReadBack(printed: Printed, stream: Stream)
    requires printed.Proper()
    ensures ParseLine(printed.Line(), stream) == Some(printed.Means(stream))
  {
    hide ParseLine;
    ShapeIsThePrinted(printed);
    ShapeReadsBack(ShapeOf(printed), stream);
  }

  lemma FormIsAWord(form: string)
    requires IsForm(form)
    ensures Word(form) == form
  {
    RunOf(form, "", c => !IsSpace(c));
    assert form + "" == form;
  }

  lemma SemanticsReadsBack(hex: string, form: string, stream: Stream)
    requires IsHex(hex) && IsForm(form)
    ensures var line := BUG + (hex + (SEMANTICS + form));
      ParseLine(line, stream) == Some(NoSemantics(HexValue(hex), form, stream, line))
  {
    hide HexValue, SearchRegister, MatchTagged, Word;
    TaggedReadsBack(BUG, hex, SEMANTICS, form);
    FormIsAWord(form);
  }

  lemma DecodeReadsBack(hex: string, form: string, stream: Stream)
    requires IsHex(hex) && IsForm(form)
    ensures var line := WARNING + (hex + (DECODE + form));
      ParseLine(line, stream) == Some(DecodeFailed(HexValue(hex), form, stream, line))
  {
    hide HexValue, SearchRegister, MatchTagged, Word;
    TaggedReadsBack(WARNING, hex, DECODE, form);
    FormIsAWord(form);
    NotABug(hex + (DECODE + form));
  }

  lemma ExtractReadsBack(hex: string, size: string, stream: Stream)
    requires IsHex(hex) && size != "" && AllDigits(size)
    ensures var line := WARNING + (hex + (EXTRACT + size));
      ParseLine(line, stream) == Some(ExtractFailed(HexValue(hex), DecimalValue(size), stream, line))
  {
    hide HexValue, DecimalValue, SearchRegister, MatchTagged, Digits;
    TaggedReadsBack(WARNING, hex, EXTRACT, size);
    NotABug(hex + (EXTRACT + size));
    NotADecode(hex, size);
    SizeIsDigits(size);
  }

  lemma SizeIsDigits(size: string)
    requires AllDigits(size)
    ensures Digits(size) == size
  {
    RunOf(size, "", IsDigit);
    assert size + "" == size;
  }

  lemma RegisterReadsBack(prefix: string, fields: seq<string>, stream: Stream)
    requires IsPrefix(prefix) && |fields| == 6 && AreFields(fields)
    ensures var line := prefix + Interleave(REGISTER_FIELDS, fields);
      ParseLine(line, stream) == Some(UnknownSystemRegister(Values(fields), stream, line))
  {
    hide Interleave, SearchRegister, MatchFields, MatchTagged, Values, Delimits;
    FieldLiterals();
    FieldsReadBack(REGISTER_FIELDS, fields);
    InterleaveStart(REGISTER_FIELDS, fields);
    var body := Interleave(REGISTER_FIELDS, fields);
    RegisterIsFound(prefix, body, Values(fields));
    NotTagged(prefix + body);
  }

  lemma InterleaveStart(literals: seq<string>, fields: seq<string>)
    requires |literals| == |fields| > 0 && literals[0] != ""
    ensures Interleave(literals, fields) != ""
    ensures Interleave(literals, fields)[0] == literals[0][0]
  {
  }

  lemma FieldLiterals()
    ensures |REGISTER_FIELDS| == 6 && REGISTER_FIELDS[0] != "" && REGISTER_FIELDS[0][0] == 'U'
    ensures forall i :: 0 <= i < 6 ==> ESC !in REGISTER_FIELDS[i]
    ensures Delimits(REGISTER_FIELDS)
  {
  }

  lemma NotTagged(line: string)
    requires line != "" && line[0] != '['
    ensures MatchTagged(line, BUG, SEMANTICS) == None
    ensures MatchTagged(line, WARNING, DECODE) == None
    ensures MatchTagged(line, WARNING, EXTRACT) == None
  {
    assert BUG[0] == "[Bug]"[0] == '[' && WARNING[0] == "[WARNING]"[0] == '[';
    assert |line| >= |BUG| ==> line[..|BUG|][0] == line[0];
    assert |line| >= |WARNING| ==> line[..|WARNING|][0] == line[0];
  }

  lemma NotADecode(hex: string, size: string)
    requires IsHex(hex)
    ensures MatchTagged(WARNING + (hex + (EXTRACT + size)), WARNING, DECODE) == None
  {
    hide HexValue, Run;
    PrefixOf(WARNING, hex + (EXTRACT + size));
    RunOf(hex, EXTRACT + size, IsHexDigit);
    var from := hex + (EXTRACT + size);
    assert from[|hex|..] == EXTRACT + size;
    assert (EXTRACT + size)[5] == EXTRACT[5] == 'E' && DECODE[5] == 'D';
    assert |EXTRACT + size| >= |DECODE| ==> (EXTRACT + size)[..|DECODE|][5] == 'E';
  }

  lemma NotABug(rest: string)
    ensures MatchTagged(WARNING + rest, BUG, SEMANTICS) == None
  {
    var line := WARNING + rest;
    assert line[1] == WARNING[1] == "[WARNING]"[1] && BUG[1] == "[Bug]"[1];
    assert |line| >= |BUG| ==> line[..|BUG|][1] == line[1];
  }

  // ---- what a line is ---------------------------------------------------------------------

  /** A prefix, hexadecimal digits, a second literal, and the rest. */
  ghost predicate IsTaggedLine(line: string, prefix: string, middle: string, rest: string) {
    exists hex :: IsHex(hex) && line == prefix + (hex + (middle + rest))
  }

  lemma TaggedParts(line: string, prefix: string, middle: string)
    requires MatchTagged(line, prefix, middle).Some?
    ensures IsTaggedLine(line, prefix, middle, MatchTagged(line, prefix, middle).value.rest)
  {
    hide HexValue;
    var from := line[|prefix|..];
    var n := Run(from, IsHexDigit);
    var hex, tail, rest := from[..n], from[n..], from[n + |middle|..];
    assert IsHex(hex) && line == prefix + from && from == hex + tail;
    assert tail[|middle|..] == rest && tail == middle + rest;
  }

  lemma TaggedExactly(line: string, prefix: string, middle: string, rest: string)
    requires middle != "" && !IsHexDigit(middle[0])
    ensures var m := MatchTagged(line, prefix, middle);
      IsTaggedLine(line, prefix, middle, rest) <==> m.Some? && m.value.rest == rest
  {
    if MatchTagged(line, prefix, middle).Some? {
      TaggedParts(line, prefix, middle);
    }
    hide HexValue, MatchTagged;
    if hex :| IsHex(hex) && line == prefix + (hex + (middle + rest)) {
      TaggedReadsBack(prefix, hex, middle, rest);
    }
  }

  lemma MiddlesBegin()
    ensures SEMANTICS != "" && !IsHexDigit(SEMANTICS[0])
    ensures DECODE != "" && !IsHexDigit(DECODE[0])
    ensures EXTRACT != "" && !IsHexDigit(EXTRACT[0])
  {
  }

  /** The register message, anywhere in the line, with six fields in lower-case hexadecimal. */
  ghost predicate HasRegister(line: string) {
    exists front, fields, rest :: IsRegisterLine(line, front, fields, rest)
  }

  ghost predicate IsRegisterLine(line: string, front: string, fields: seq<string>, rest: string) {
    |fields| == 6 && AreFields(fields) && line == front + (Interleave(REGISTER_FIELDS, fields) + rest)
  }

  lemma {:induction false} FieldsMatch(literals: seq<string>, fields: seq<string>, rest: string)
    requires |literals| == |fields| && AreFields(fields) && Delimits(literals)
    ensures MatchFields(Interleave(literals, fields) + rest, literals).Some?
    decreases |literals|
  {
    if literals != [] {
      hide HexValue, StartsWith;
      var tail := Interleave(literals[1..], fields[1..]) + rest;
      var text := Interleave(literals, fields) + rest;
      assert text == literals[0] + (fields[0] + tail);
      PrefixOf(literals[0], fields[0] + tail);
      assert IsField(fields[0]);
      var from := fields[0] + tail;
      assert from[0] == fields[0][0];
      assert Run(from, IsLowerHex) > 0;
      if |literals| > 1 {
        assert tail[0] == literals[1][0];
        RunOf(fields[0], tail, IsLowerHex);
        assert from[|fields[0]|..] == tail;
        FieldsMatch(literals[1..], fields[1..], rest);
      }
    }
  }

  lemma PutInFront(literals: seq<string>, field: string, more: seq<string>, end: string)
    requires |literals| == |more| + 1
    ensures Interleave(literals, [field] + more) + end
         == literals[0] + (field + (Interleave(literals[1..], more) + end))
  {
    assert ([field] + more)[1..] == more;
    assert Interleave(literals, [field] + more)
        == literals[0] + (field + Interleave(literals[1..], more));
  }

  lemma {:induction false} MatchesFields(text: string, literals: seq<string>)
    returns (fields: seq<string>, rest: string)
    requires MatchFields(text, literals).Some?
    ensures |fields| == |literals| && AreFields(fields) && text == Interleave(literals, fields) + rest
    decreases |literals|
  {
    fields, rest := [], text;
    if literals != [] {
      hide HexValue;
      var from := text[|literals[0]|..];
      var n := Run(from, IsLowerHex);
      var more, end := MatchesFields(from[n..], literals[1..]);
      fields, rest := [from[..n]] + more, end;
      assert IsField(from[..n]);
      assert text == literals[0] + from && from == from[..n] + from[n..];
      PutInFront(literals, from[..n], more, end);
    }
  }

  lemma {:induction false} SearchFinds(text: string, k: nat)
    requires k <= |text| && MatchFields(text[k..], REGISTER_FIELDS).Some?
    ensures SearchRegister(text).Some?
    decreases k
  {
    hide MatchFields;
    if k == 0 {
      assert text[0..] == text;
    } else {
      assert text[1..][k - 1..] == text[k..];
      SearchFinds(text[1..], k - 1);
    }
  }

  lemma {:induction false} SearchFound(text: string) returns (k: nat)
    requires SearchRegister(text).Some?
    ensures k <= |text| && MatchFields(text[k..], REGISTER_FIELDS).Some?
    decreases |text|
  {
    hide MatchFields;
    k := 0;
    assert text[0..] == text;
    if MatchFields(text, REGISTER_FIELDS) == None {
      var rest := SearchFound(text[1..]);
      k := rest + 1;
      assert text[1..][rest..] == text[k..];
    }
  }

  lemma RegisterExactly(line: string)
    ensures SearchRegister(line).Some? <==> HasRegister(line)
  {
    hide SearchRegister, MatchFields, Interleave, AreFields, Delimits;
    FieldLiterals();
    if SearchRegister(line).Some? {
      var k := SearchFound(line);
      var fields, rest := MatchesFields(line[k..], REGISTER_FIELDS);
      assert line == line[..k] + line[k..];
      assert IsRegisterLine(line, line[..k], fields, rest);
    }
    if front, fields, rest :| IsRegisterLine(line, front, fields, rest) {
      FieldsMatch(REGISTER_FIELDS, fields, rest);
      assert line[|front|..] == Interleave(REGISTER_FIELDS, fields) + rest;
      SearchFinds(line, |front|);
    }
  }

  ghost predicate IsAWord(text: string) {
    text != "" && !IsSpace(text[0])
  }

  ghost predicate IsANumber(text: string) {
    text != "" && IsDigit(text[0])
  }

  /** The toolchain says of an instruction or a register that it gave up on it. */
  ghost predicate IsNotice(line: string) {
    || (exists rest :: IsTaggedLine(line, BUG, SEMANTICS, rest) && IsAWord(rest))
    || (exists rest :: IsTaggedLine(line, WARNING, DECODE, rest) && IsAWord(rest))
    || (exists rest :: IsTaggedLine(line, WARNING, EXTRACT, rest) && IsANumber(rest))
    || HasRegister(line)
  }

  lemma WordsAndNumbers(text: string)
    ensures Word(text) != "" <==> IsAWord(text)
    ensures Digits(text) != "" <==> IsANumber(text)
  {
  }

  /** Exactly such lines are parsed. */
  lemma ParsesExactlyTheNotices(line: string, stream: Stream)
    ensures ParseLine(line, stream).Some? <==> IsNotice(line)
  {
    hide MatchTagged, SearchRegister, Word, Digits, IsTaggedLine, IsAWord, IsANumber, HasRegister,
         DecimalValue;
    MiddlesBegin();
    RegisterExactly(line);
    forall rest
      ensures Word(rest) != "" <==> IsAWord(rest)
      ensures Digits(rest) != "" <==> IsANumber(rest)
      ensures IsTaggedLine(line, BUG, SEMANTICS, rest) <==>
        MatchTagged(line, BUG, SEMANTICS).Some? && MatchTagged(line, BUG, SEMANTICS).value.rest == rest
      ensures IsTaggedLine(line, WARNING, DECODE, rest) <==>
        MatchTagged(line, WARNING, DECODE).Some?
        && MatchTagged(line, WARNING, DECODE).value.rest == rest
      ensures IsTaggedLine(line, WARNING, EXTRACT, rest) <==>
        MatchTagged(line, WARNING, EXTRACT).Some?
        && MatchTagged(line, WARNING, EXTRACT).value.rest == rest
    {
      WordsAndNumbers(rest);
      TaggedExactly(line, BUG, SEMANTICS, rest);
      TaggedExactly(line, WARNING, DECODE, rest);
      TaggedExactly(line, WARNING, EXTRACT, rest);
    }
  }

  ghost predicate Has(line: string, part: string) {
    exists front, back :: line == front + part + back
  }

  /** A bracketed tag anywhere, or a severity letter, eight digits and a blank in front. */
  ghost predicate IsDiagnostic(line: string) {
    || Has(line, "[Bug]") || Has(line, "[WARNING]") || Has(line, "[ERROR]")
    || exists letter, digits, rest :: IsLogLine(line, letter, digits, rest)
  }

  ghost predicate IsLogLine(line: string, letter: string, digits: string, rest: string) {
    (letter == "E" || letter == "W" || letter == "F") && |digits| == 8 && AllDigits(digits)
    && line == letter + (digits + (" " + rest))
  }

  lemma DiagnosticExactly(line: string)
    ensures LooksLikeDiagnostic(line) <==> IsDiagnostic(line)
  {
    ContainsIs(line, "[Bug]");
    ContainsIs(line, "[WARNING]");
    ContainsIs(line, "[ERROR]");
    GlogExactly(line);
  }

  lemma GlogExactly(line: string)
    ensures IsGlog(line) <==> exists letter, digits, rest :: IsLogLine(line, letter, digits, rest)
  {
    if IsGlog(line) {
      assert line[9..] == " " + line[10..] && line[1..] == line[1..9] + line[9..];
      assert IsLogLine(line, [line[0]], line[1..9], line[10..]);
    }
    if letter, digits, rest :| IsLogLine(line, letter, digits, rest) {
      LogLineParts(line, letter, digits, rest);
    }
  }

  lemma LogLineParts(line: string, letter: string, digits: string, rest: string)
    requires IsLogLine(line, letter, digits, rest)
    ensures |line| >= 10 && line[0] == letter[0] && line[1..9] == digits && line[9] == ' '
  {
    assert line[1..] == digits + (" " + rest);
    assert line[1..][..8] == digits && line[1..][8] == ' ';
  }

  /** `[YYYY-MM-DD time] [info]` or `[debug]`. */
  ghost predicate IsTimestampLine(line: string) {
    exists year, month, day, time, level, rest ::
      && IsStamp(year, month, day, time) && (level == "info" || level == "debug")
      && line == "[" + (year + ("-" + (month + ("-" + (day + (" " + (time + ("] [" + level + "]" + rest))))))))
  }

  ghost predicate IsStamp(year: string, month: string, day: string, time: string) {
    && |year| == 4 && |month| == |day| == 2 && time != ""
    && AllDigits(year) && AllDigits(month) && AllDigits(day)
    && forall i :: 0 <= i < |time| ==> IsDigit(time[i]) || time[i] == ':' || time[i] == '.'
  }

  /** What stands behind the time of a timestamp line. */
  lemma LevelBehind(tail: string) returns (level: string, rest: string)
    requires StartsWith(tail, "] [info]") || StartsWith(tail, "] [debug]")
    ensures (level == "info" || level == "debug") && tail == "] [" + level + "]" + rest
  {
    StartsWithIs(tail, "] [info]");
    StartsWithIs(tail, "] [debug]");
    level := if StartsWith(tail, "] [info]") then "info" else "debug";
    assert "] [" + "info" + "]" == "] [info]" && "] [" + "debug" + "]" == "] [debug]";
    rest :| tail == "] [" + level + "]" + rest;
  }

  lemma TimestampParts(line: string) returns (time: string, tail: string)
    requires IsTimestamped(line)
    ensures |line| >= 12 && IsStamp(line[1..5], line[6..8], line[9..11], time)
    ensures StartsWith(tail, "] [info]") || StartsWith(tail, "] [debug]")
    ensures line[..12] == Stamp(line[1..5], line[6..8], line[9..11]) && line[12..] == time + tail
  {
    hide StartsWith, Stamp, AllDigits;
    var n := Run(line[12..], c => IsDigit(c) || c == ':' || c == '.');
    time, tail := line[12..][..n], line[12..][n..];
    assert tail == line[12 + n..];
    StampBack(line);
  }

  lemma TimestampedIs(line: string)
    requires IsTimestamped(line)
    ensures IsTimestampLine(line)
  {
    var time, tail := TimestampParts(line);
    hide IsTimestamped, StartsWith, Stamp, IsStamp;
    var level, rest := LevelBehind(tail);
    StampInFront(line[1..5], line[6..8], line[9..11], time + tail);
    assert line == line[..12] + line[12..];
  }

  lemma StampBack(line: string)
    requires |line| >= 12 && line[0] == '[' && line[5] == '-' && line[8] == '-' && line[11] == ' '
    ensures line[..12] == Stamp(line[1..5], line[6..8], line[9..11])
  {
  }

  function Stamp(year: string, month: string, day: string): string {
    "[" + (year + ("-" + (month + ("-" + (day + " ")))))
  }

  lemma StampParts(year: string, month: string, day: string)
    requires |year| == 4 && |month| == |day| == 2
    ensures var s := Stamp(year, month, day);
      && |s| == 12 && s[0] == '[' && s[1..5] == year && s[5] == '-' && s[6..8] == month
      && s[8] == '-' && s[9..11] == day && s[11] == ' '
  {
  }

  lemma StampInFront(year: string, month: string, day: string, rest: string)
    ensures "[" + (year + ("-" + (month + ("-" + (day + (" " + rest))))))
         == Stamp(year, month, day) + rest
  {
  }

  lemma TimestampIs(year: string, month: string, day: string, time: string, tail: string)
    requires IsStamp(year, month, day, time)
    requires StartsWith(tail, "] [info]") || StartsWith(tail, "] [debug]")
    ensures IsTimestamped("[" + (year + ("-" + (month + ("-" + (day + (" " + (time + tail))))))))
  {
    var stamp := Stamp(year, month, day);
    var line := "[" + (year + ("-" + (month + ("-" + (day + (" " + (time + tail)))))));
    StampParts(year, month, day);
    StampInFront(year, month, day, time + tail);
    hide Stamp;
    assert line[1..5] == year && line[6..8] == month && line[9..11] == day;
    assert line[12..] == time + tail;
    RunOf(time, tail, c => IsDigit(c) || c == ':' || c == '.');
    assert line[12 + |time|..] == tail;
  }

  lemma TimestampExactly(line: string)
    ensures IsTimestamped(line) <==> IsTimestampLine(line)
  {
    hide IsTimestamped, IsStamp;
    if IsTimestamped(line) {
      TimestampedIs(line);
    }
    if year, month, day, time, level, rest :|
         IsStamp(year, month, day, time) && (level == "info" || level == "debug")
         && line == "[" + (year + ("-" + (month + ("-" + (day + (" " + (time + ("] [" + level + "]" + rest)))))))) {
      assert "] [" + "info" + "]" == "] [info]" && "] [" + "debug" + "]" == "] [debug]";
      TimestampIs(year, month, day, time, "] [" + level + "]" + rest);
    }
  }

  /** Ends in `[-Wflag]`. */
  ghost predicate EndsInFlag(line: string) {
    exists front, flag :: IsFlag(flag) && line == front + ("[-W" + (flag + "]"))
  }

  ghost predicate IsFlag(flag: string) {
    flag != "" && forall i :: 0 <= i < |flag| ==>
      'a' <= flag[i] <= 'z' || '0' <= flag[i] <= '9' || flag[i] == '-'
  }

  lemma FlagParts(line: string, i: nat)
    requires i < |line| && StartsWith(line[i..], "[-W")
    requires |line| - i >= 5 && line[|line| - 1] == ']'
    requires forall j :: i + 3 <= j < |line| - 1 ==> IsFlagChar(line[j])
    ensures var flag := line[i + 3..|line| - 1];
      IsFlag(flag) && line[i..] == "[-W" + (flag + "]")
  {
    var flag, tail := line[i + 3..|line| - 1], line[i..];
    assert IsFlag(flag);
    assert tail[..3] == "[-W" && tail[3..] == flag + "]";
  }

  lemma FlagBehind(line: string)
    requires HasClangSuffix(line)
    ensures EndsInFlag(line)
  {
    var i :| 0 <= i < |line| && StartsWith(line[i..], "[-W")
      && |line| - i >= 5 && line[|line| - 1] == ']'
      && forall j :: i + 3 <= j < |line| - 1 ==> IsFlagChar(line[j]);
    hide IsFlag, IsFlagChar, StartsWith;
    FlagParts(line, i);
    assert line == line[..i] + line[i..];
  }

  lemma FlagIs(front: string, flag: string)
    requires IsFlag(flag)
    ensures HasClangSuffix(front + ("[-W" + (flag + "]")))
  {
    var tail := "[-W" + (flag + "]");
    var line, i := front + tail, |front|;
    assert line[i..] == tail && tail[..3] == "[-W" && line[|line| - 1] == ']';
    forall j | i + 3 <= j < |line| - 1 ensures IsFlagChar(line[j]) {
      assert line[j] == tail[j - i] == flag[j - i - 3];
    }
    assert StartsWith(line[i..], "[-W");
  }

  lemma FlagExactly(line: string)
    ensures HasClangSuffix(line) <==> EndsInFlag(line)
  {
    hide HasClangSuffix, IsFlag;
    if HasClangSuffix(line) {
      FlagBehind(line);
    }
    if front, flag :| IsFlag(flag) && line == front + ("[-W" + (flag + "]")) {
      FlagIs(front, flag);
    }
  }

  ghost predicate CountsWarnings(line: string) {
    exists digits :: digits != "" && AllDigits(digits) && IsCountOf(line, digits)
  }

  ghost predicate IsCountOf(line: string, digits: string) {
    line == digits + " warning generated." || line == digits + " warnings generated."
  }

  lemma WarningCountExactly(line: string)
    ensures IsWarningCount(line) <==> CountsWarnings(line)
  {
    if IsWarningCount(line) {
      var n := Run(line, IsDigit);
      assert line == line[..n] + line[n..];
      assert AllDigits(line[..n]) && IsCountOf(line, line[..n]);
    }
    if digits :| digits != "" && AllDigits(digits) && IsCountOf(line, digits) {
      var tail := line[|digits|..];
      assert line == digits + tail && tail[0] == ' ';
      RunOf(digits, tail, IsDigit);
    }
  }

  /** Narration and other tools' warnings: the four kinds of line that are let go. */
  ghost predicate IsNoise(line: string) {
    || (exists rest :: line == "[INFO]" + rest)
    || IsTimestampLine(line) || EndsInFlag(line) || CountsWarnings(line)
  }

  lemma NoiseExactly(line: string)
    ensures Ignorable(line) <==> IsNoise(line)
  {
    hide IsTimestamped, HasClangSuffix, IsWarningCount, IsTimestampLine, EndsInFlag, CountsWarnings;
    StartsWithIs(line, "[INFO]");
    TimestampExactly(line);
    FlagExactly(line);
    WarningCountExactly(line);
  }

  /** What is left of a line without its colours and outer blanks is nothing, narration, or noise. */
  ghost predicate IsSilent(line: string) {
    line == "" || (!IsNotice(line) && (!IsDiagnostic(line) || IsNoise(line)))
  }

  /** A line is silent exactly if that holds; what is neither silent nor a finding is reported whole. */
  lemma KindsAreExactly(rawLine: string, stream: Stream)
    ensures var kind, line := KindOf(rawLine, stream), Trim(StripAnsi(rawLine));
      && (kind.Silent? <==> IsSilent(line))
      && (kind.Found? <==> line != "" && IsNotice(line))
      && (kind.Unexplained? ==> kind.text == line)
  {
    hide ParseLine, LooksLikeDiagnostic, Ignorable, IsNotice, IsDiagnostic, IsNoise, Trim, StripAnsi;
    var line := Trim(StripAnsi(rawLine));
    ParsesExactlyTheNotices(line, stream);
    DiagnosticExactly(line);
    NoiseExactly(line);
  }

  /** A colour code: escape, `[`, digits and semicolons, `m`. */
  ghost predicate IsColour(code: string) {
    && |code| >= 3 && code[0] == ESC && code[1] == '[' && code[|code| - 1] == 'm'
    && forall i :: 2 <= i < |code| - 1 ==> IsDigit(code[i]) || code[i] == ';'
  }

  lemma ColourLength(code: string, back: string)
    requires IsColour(code)
    ensures AnsiLength(code + back) == |code| && (code + back)[|code|..] == back
  {
    var text, inner := code + back, code[2..|code| - 1];
    assert text[2..] == inner + ("m" + back);
    RunOf(inner, "m" + back, c => IsDigit(c) || c == ';');
  }

  /** A colour code anywhere in a line is as good as not there. */
  lemma {:induction false} ColourIsStripped(front: string, code: string, back: string)
    requires ESC !in front && IsColour(code)
    ensures StripAnsi(front + (code + back)) == front + StripAnsi(back)
    decreases |front|
  {
    var text := front + (code + back);
    if front == "" {
      assert text == code + back && "" + StripAnsi(back) == StripAnsi(back);
      ColourLength(code, back);
    } else {
      assert text[0] == front[0] && text[1..] == front[1..] + (code + back);
      ColourIsStripped(front[1..], code, back);
      assert AnsiLength(text) == 0;
      assert front == [front[0]] + front[1..];
    }
  }

  // ---- nothing goes missing -------------------------------------------------------------

  /** Every line is silent. */
  ghost predicate AllSilent(text: string, stream: Stream) {
    forall i :: 0 <= i < |Split(text, '\n')| ==> IsSilent(Trim(StripAnsi(Split(text, '\n')[i])))
  }

  lemma {:induction false} QuietLines(lines: seq<string>, stream: Stream)
    ensures var r := LinesScan(lines, stream);
      (r.findings == [] && r.unparsed == [])
        <==> forall i :: 0 <= i < |lines| ==> KindOf(lines[i], stream).Silent?
  {
    hide KindOf;
    if lines != [] {
      var n := |lines| - 1;
      QuietLines(lines[..n], stream);
      assert lines == lines[..n] + [lines[n]];
    }
  }

  /** A scan reports nothing exactly when no line is a finding or an unexplained diagnostic. */
  lemma QuietMeansEveryLineIsSilent(text: string, stream: Stream)
    ensures var r := TextScan(text, stream);
      (r.findings == [] && r.unparsed == []) <==> AllSilent(text, stream)
  {
    hide LinesScan, KindOf, Split, IsSilent, Trim, StripAnsi;
    var lines := Split(text, '\n');
    QuietLines(lines, stream);
    forall i | 0 <= i < |lines|
      ensures KindOf(lines[i], stream).Silent? <==> IsSilent(Trim(StripAnsi(lines[i])))
    {
      KindsAreExactly(lines[i], stream);
    }
  }

  // ---- and it is heard -----------------------------------------------------------------------

  lemma {:induction false} NothingToStrip(text: string)
    requires ESC !in text
    ensures StripAnsi(text) == text
  {
    if text != "" {
      NothingToStrip(text[1..]);
      assert text == [text[0]] + text[1..];
    }
  }

  /** No escape in it, and no blank at either end. */
  predicate IsPlain(line: string) {
    line != "" && ESC !in line && !IsSpace(line[0]) && !IsSpace(line[|line| - 1])
  }

  lemma PlainIsKept(line: string)
    requires IsPlain(line)
    ensures Trim(StripAnsi(line)) == line
  {
    NothingToStrip(line);
  }

  lemma ShapeIsPlain(shape: Shape)
    requires shape.Proper()
    ensures IsPlain(shape.Line())
  {
    hide IsPlain, IsHex, IsForm, IsPrefix, AreFields, Interleave;
    match shape
    case SemanticsShape(hex, form) =>
      BugLiteral();
      MiddleLiterals();
      FormHasEnds(form);
      PartsArePlain(BUG, hex, SEMANTICS, form);
    case DecodeShape(hex, form) =>
      WarningLiteral();
      MiddleLiterals();
      FormHasEnds(form);
      PartsArePlain(WARNING, hex, DECODE, form);
    case ExtractShape(hex, size) =>
      WarningLiteral();
      MiddleLiterals();
      SizeHasEnds(size);
      PartsArePlain(WARNING, hex, EXTRACT, size);
    case RegisterShape(prefix, fields) =>
      RegisterIsPlain(prefix, fields);
  }

  /** Fit to end a line. */
  predicate HasEnds(text: string) {
    text != "" && ESC !in text && !IsSpace(text[|text| - 1])
  }

  lemma FormHasEnds(form: string)
    requires IsForm(form)
    ensures HasEnds(form)
  {
  }

  lemma SizeHasEnds(size: string)
    requires size != "" && AllDigits(size)
    ensures HasEnds(size)
  {
  }

  lemma BugLiteral()
    ensures BUG != "" && BUG[0] == '[' && ESC !in BUG
  {
    assert "[Bug]"[0] == '[' && ESC !in "[Bug]" && ESC !in UNSUPPORTED;
  }

  lemma WarningLiteral()
    ensures WARNING != "" && WARNING[0] == '[' && ESC !in WARNING
  {
    assert "[WARNING]"[0] == '[' && ESC !in "[WARNING]" && ESC !in UNSUPPORTED;
  }

  lemma MiddleLiterals()
    ensures ESC !in SEMANTICS && ESC !in DECODE && ESC !in EXTRACT
  {
  }

  lemma PartsArePlain(front: string, hex: string, middle: string, end: string)
    requires front != "" && front[0] == '[' && ESC !in front && ESC !in middle
    requires IsHex(hex) && HasEnds(end)
    ensures IsPlain(front + (hex + (middle + end)))
  {
    var tail := middle + end;
    assert tail[|tail| - 1] == end[|end| - 1];
    Ends(hex, tail);
    Ends(front, hex + tail);
  }

  lemma Ends(front: string, end: string)
    requires ESC !in front && HasEnds(end)
    ensures HasEnds(front + end)
  {
    assert (front + end)[|front + end| - 1] == end[|end| - 1];
  }

  lemma RegisterIsPlain(prefix: string, fields: seq<string>)
    requires IsPrefix(prefix) && |fields| == 6 && AreFields(fields)
    ensures IsPlain(prefix + Interleave(REGISTER_FIELDS, fields))
  {
    hide Interleave, Delimits, AreFields;
    FieldLiterals();
    FieldsArePlain(REGISTER_FIELDS, fields);
    InterleaveStart(REGISTER_FIELDS, fields);
    var body := Interleave(REGISTER_FIELDS, fields);
    Ends(prefix, body);
    assert (prefix + body)[0] == if prefix == "" then body[0] else prefix[0];
  }

  lemma {:induction false} FieldsArePlain(literals: seq<string>, fields: seq<string>)
    requires |literals| == |fields| > 0 && AreFields(fields)
    requires forall i :: 0 <= i < |literals| ==> ESC !in literals[i]
    ensures var body := Interleave(literals, fields);
      HasEnds(body)
    decreases |literals|
  {
    assert IsField(fields[0]);
    FieldHasEnds(fields[0]);
    if |literals| > 1 {
      FieldsArePlain(literals[1..], fields[1..]);
      Ends(fields[0], Interleave(literals[1..], fields[1..]));
    } else {
      assert fields[0] + Interleave(literals[1..], fields[1..]) == fields[0];
    }
    Ends(literals[0], fields[0] + Interleave(literals[1..], fields[1..]));
  }

  lemma FieldHasEnds(field: string)
    requires IsField(field)
    ensures HasEnds(field)
  {
  }

  /** A line printed about an instruction is a finding, whichever stream it is on. */
  lemma PrintedIsFound(printed: Printed, stream: Stream)
    requires printed.Proper()
    ensures KindOf(printed.Line(), stream) == Found(printed.Means(stream))
  {
    hide ParseLine, StripAnsi, Trim;
    ShapeIsThePrinted(printed);
    ShapeIsPlain(ShapeOf(printed));
    PlainIsKept(printed.Line());
    PrintedFindingsReadBack(printed, stream);
  }

  /** Some line of the text is such a line. */
  ghost predicate Prints(text: string) {
    exists printed: Printed :: printed.Proper() && printed.Line() in Split(text, '\n')
  }

  lemma PrintingIsNotSilent(text: string, stream: Stream)
    requires Prints(text)
    ensures !AllSilent(text, stream)
  {
    hide KindOf, Split, IsSilent, Trim, StripAnsi;
    var printed: Printed :| printed.Proper() && printed.Line() in Split(text, '\n');
    PrintedIsFound(printed, stream);
    KindsAreExactly(printed.Line(), stream);
    var i :| 0 <= i < |Split(text, '\n')| && Split(text, '\n')[i] == printed.Line();
  }

  /** On a line of its own, such a message is one finding and nothing else. */
  lemma PrintedLineIsReported(printed: Printed, stream: Stream)
    requires printed.Proper() && '\n' !in printed.Line()
    ensures TextScan(printed.Line(), stream) == ToolchainScan([printed.Means(stream)], [], 1)
  {
    hide KindOf;
    PrintedIsFound(printed, stream);
    OneLine(printed.Line(), stream);
  }

  /** A diagnostic that is neither such a message nor noise is reported whole, as unexplained. */
  lemma UnexplainedLineIsReported(line: string, stream: Stream)
    requires IsPlain(line) && '\n' !in line
    requires IsDiagnostic(line) && !IsNoise(line) && !IsNotice(line)
    ensures TextScan(line, stream) == ToolchainScan([], [Unparsed(stream, line)], 1)
  {
    hide KindOf, IsDiagnostic, IsNoise, IsNotice, Trim, StripAnsi;
    PlainIsKept(line);
    KindsAreExactly(line, stream);
    OneLine(line, stream);
  }

  lemma OneLine(line: string, stream: Stream)
    requires '\n' !in line
    ensures TextScan(line, stream) == LineScan(line, stream)
  {
    hide LineScan;
    SplitWhole(line, '\n');
    assert [line][..0] == [];
    var r := LineScan(line, stream);
    assert [] + r.findings == r.findings && [] + r.unparsed == r.unparsed;
  }
}
