/** The string operations the driver is written in: splitting, trimming, prefixes, digit runs. */
module Text {
  // ---- splitting -------------------------------------------------------------------------

  /** `text.split(separator)` for a one-character separator; never empty. */
  function Split(text: string, separator: char): (parts: seq<string>)
    ensures |parts| > 0
  {
    if text == "" then [""]
    else
      var rest := Split(text[1..], separator);
      if text[0] == separator then [""] + rest else Lead(text[0], rest)
  }

  /** One more character in front of the first part. */
  function Lead(c: char, parts: seq<string>): (r: seq<string>)
    requires |parts| > 0
    ensures |r| == |parts|
  {
    [[c] + parts[0]] + parts[1..]
  }

  lemma LeadAppend(c: char, a: seq<string>, b: seq<string>)
    requires |a| > 0
    ensures Lead(c, a + b) == Lead(c, a) + b
  {
    assert (a + b)[1..] == a[1..] + b;
  }

  function Join(parts: seq<string>, separator: char): string
    requires |parts| > 0
  {
    if |parts| == 1 then parts[0] else parts[0] + [separator] + Join(parts[1..], separator)
  }

  /** A separator between two texts is a boundary between their parts. */
  lemma {:induction false} SplitAtSeparator(a: string, separator: char, b: string)
    ensures Split(a + [separator] + b, separator) == Split(a, separator) + Split(b, separator)
  {
    if a == "" {
      assert a + [separator] + b == [separator] + b;
      assert ([separator] + b)[1..] == b;
    } else {
      hide Lead;
      SplitAtSeparator(a[1..], separator, b);
      var whole := a + [separator] + b;
      assert whole[0] == a[0] && whole[1..] == a[1..] + [separator] + b;
      var x, y := Split(a[1..], separator), Split(b, separator);
      if a[0] == separator {
        assert [""] + (x + y) == ([""] + x) + y;
      } else {
        LeadAppend(a[0], x, y);
      }
    }
  }

  /** Splitting undoes joining when no part holds the separator. */
  lemma {:induction false} SplitJoin(parts: seq<string>, separator: char)
    requires |parts| > 0 && forall i :: 0 <= i < |parts| ==> separator !in parts[i]
    ensures Split(Join(parts, separator), separator) == parts
  {
    SplitWhole(parts[0], separator);
    if |parts| > 1 {
      SplitJoin(parts[1..], separator);
      SplitAtSeparator(parts[0], separator, Join(parts[1..], separator));
      assert parts == [parts[0]] + parts[1..];
    }
  }

  lemma {:induction false} SplitWhole(text: string, separator: char)
    requires separator !in text
    ensures Split(text, separator) == [text]
  {
    if text != "" {
      SplitWhole(text[1..], separator);
      assert text == [text[0]] + text[1..];
    }
  }

  // ---- searching ---------------------------------------------------------------------------

  predicate StartsWith(text: string, prefix: string) {
    |prefix| <= |text| && text[..|prefix|] == prefix
  }

  predicate Contains(text: string, part: string) {
    exists i :: 0 <= i <= |text| && StartsWith(text[i..], part)
  }

  lemma StartsWithIs(text: string, prefix: string)
    ensures StartsWith(text, prefix) <==> exists rest :: text == prefix + rest
  {
    if StartsWith(text, prefix) {
      assert text == prefix + text[|prefix|..];
    }
  }

  lemma ContainsIs(text: string, part: string)
    ensures Contains(text, part) <==> exists front, back :: text == front + part + back
  {
    if Contains(text, part) {
      var i :| 0 <= i <= |text| && StartsWith(text[i..], part);
      assert text[i..] == part + text[i..][|part|..];
      assert text == text[..i] + part + text[i..][|part|..];
    }
    if front, back :| text == front + part + back {
      assert text[|front|..] == part + back;
      assert StartsWith(text[|front|..], part);
    }
  }

  /** `text.indexOf(c)`, or -1. */
  function IndexOf(text: string, c: char): (at: int)
    ensures -1 <= at < |text|
    ensures at == -1 <==> c !in text
    ensures at >= 0 ==> text[at] == c && c !in text[..at]
  {
    if text == "" then -1
    else if text[0] == c then 0
    else
      var rest := IndexOf(text[1..], c);
      assert rest >= 0 ==> text[..rest + 1] == [text[0]] + text[1..][..rest];
      if rest == -1 then -1 else rest + 1
  }

  /** `text.lastIndexOf(c)`, or -1. */
  function LastIndexOf(text: string, c: char): (at: int)
    ensures -1 <= at < |text|
    ensures at == -1 <==> c !in text
    ensures at >= 0 ==> text[at] == c && c !in text[at + 1..]
  {
    if text == "" then -1
    else
      var n := |text| - 1;
      if text[n] == c then n
      else
        var at := LastIndexOf(text[..n], c);
        assert text == text[..n] + [text[n]];
        assert at >= 0 ==> text[at + 1..] == text[..n][at + 1..] + [text[n]];
        at
  }

  // ---- trimming ----------------------------------------------------------------------------

  /** White space and line terminators, as `trim` knows them. */
  predicate IsSpace(c: char) {
    var n := c as int;
    9 <= n <= 13 || n == 32 || n == 0xa0 || n == 0x1680 || 0x2000 <= n <= 0x200a || n == 0x2028
    || n == 0x2029 || n == 0x202f || n == 0x205f || n == 0x3000 || n == 0xfeff
  }

  function TrimStart(text: string): (r: string)
    ensures r != "" ==> !IsSpace(r[0])
  {
    if text != "" && IsSpace(text[0]) then TrimStart(text[1..]) else text
  }

  function TrimEnd(text: string): (r: string)
    ensures r != "" ==> !IsSpace(r[|r| - 1])
    ensures r <= text
  {
    if text != "" && IsSpace(text[|text| - 1]) then TrimEnd(text[..|text| - 1]) else text
  }

  function Trim(text: string): (r: string)
    ensures r != "" ==> !IsSpace(r[0]) && !IsSpace(r[|r| - 1])
  {
    TrimEnd(TrimStart(text))
  }

  predicate AllSpace(text: string) {
    forall i :: 0 <= i < |text| ==> IsSpace(text[i])
  }

  /** Blanks and line ends are space; nothing that prints in ASCII is. */
  lemma SpacesAre()
    ensures IsSpace(' ') && IsSpace('\t') && IsSpace('\n') && IsSpace('\r')
    ensures forall c: char :: '!' <= c <= '~' ==> !IsSpace(c)
  {
  }

  /** `WhiteSpace` and `LineTerminator` of ECMA-262, sections 12.2 and 12.3, one by one. */
  const WHITE: string :=
    "\t\n\U{b}\U{c}\r \U{a0}\U{1680}\U{2000}\U{2001}\U{2002}\U{2003}\U{2004}\U{2005}\U{2006}"
    + "\U{2007}\U{2008}\U{2009}\U{200a}\U{2028}\U{2029}\U{202f}\U{205f}\U{3000}\U{feff}"

  /** A character is white space exactly when it is one of those. */
  lemma SpaceIsWhite(c: char)
    ensures IsSpace(c) <==> c in WHITE
  {
  }

  lemma {:induction false} TrimStartParts(text: string) returns (front: string)
    ensures AllSpace(front) && text == front + TrimStart(text)
  {
    front := "";
    if text != "" && IsSpace(text[0]) {
      var rest := TrimStartParts(text[1..]);
      front := [text[0]] + rest;
      assert text == [text[0]] + text[1..];
    }
  }

  lemma {:induction false} TrimEndParts(text: string) returns (back: string)
    ensures AllSpace(back) && text == TrimEnd(text) + back
  {
    back := "";
    if text != "" && IsSpace(text[|text| - 1]) {
      var rest := TrimEndParts(text[..|text| - 1]);
      back := rest + [text[|text| - 1]];
      assert text == text[..|text| - 1] + [text[|text| - 1]];
      assert text == TrimEnd(text) + (rest + [text[|text| - 1]]);
    }
  }

  /** What is taken off either end is space, and all of it is taken. */
  lemma TrimParts(text: string) returns (front: string, back: string)
    ensures AllSpace(front) && AllSpace(back) && text == front + Trim(text) + back
    ensures Trim(text) != "" ==> !IsSpace(Trim(text)[0]) && !IsSpace(Trim(text)[|Trim(text)| - 1])
  {
    front := TrimStartParts(text);
    back := TrimEndParts(TrimStart(text));
    assert text == front + (TrimEnd(TrimStart(text)) + back);
  }

  lemma {:induction false} TrimStartSkips(front: string, core: string)
    requires AllSpace(front) && (core != "" ==> !IsSpace(core[0]))
    ensures TrimStart(front + core) == core
  {
    if front == "" {
      assert front + core == core;
    } else {
      assert (front + core)[1..] == front[1..] + core;
      TrimStartSkips(front[1..], core);
    }
  }

  lemma {:induction false} TrimEndSkips(core: string, back: string)
    requires AllSpace(back) && (core != "" ==> !IsSpace(core[|core| - 1]))
    ensures TrimEnd(core + back) == core
  {
    if back == "" {
      assert core + back == core;
    } else {
      assert (core + back)[..|core + back| - 1] == core + back[..|back| - 1];
      TrimEndSkips(core, back[..|back| - 1]);
    }
  }

  /** A core without space at its ends is what is left of it between any blanks. */
  lemma TrimKeepsTheCore(front: string, core: string, back: string)
    requires AllSpace(front) && AllSpace(back)
    requires core != "" && !IsSpace(core[0]) && !IsSpace(core[|core| - 1])
    ensures Trim(front + core + back) == core
  {
    assert front + core + back == front + (core + back);
    TrimStartSkips(front, core + back);
    TrimEndSkips(core, back);
  }

  /** `core` is `text` without the white space at either end. */
  ghost predicate IsCoreOf(core: string, text: string) {
    && (exists front, back :: AllSpace(front) && AllSpace(back) && text == front + core + back)
    && (core != "" ==> !IsSpace(core[0]) && !IsSpace(core[|core| - 1]))
  }

  /** A text of which nothing is left is white space throughout. */
  lemma SpaceHasNoCore(text: string)
    requires AllSpace(text)
    ensures Trim(text) == ""
  {
    TrimStartSkips(text, "");
    assert text + "" == text;
  }

  lemma TrimIsTheCore(text: string, core: string)
    ensures Trim(text) == core <==> IsCoreOf(core, text)
  {
    hide IsSpace, Trim;
    var front, back := TrimParts(text);
    assert IsCoreOf(Trim(text), text);
    if IsCoreOf(core, text) {
      var front, back :| AllSpace(front) && AllSpace(back) && text == front + core + back;
      if core == "" {
        SpaceHasNoCore(text);
      } else {
        TrimKeepsTheCore(front, core, back);
      }
    }
  }

  // ---- order -------------------------------------------------------------------------------

  /** `a` comes no later than `b` in dictionary order. */
  predicate NoLater(a: string, b: string) {
    a == "" || (b != "" && (a[0] < b[0] || (a[0] == b[0] && NoLater(a[1..], b[1..]))))
  }

  lemma {:induction false} NoLaterIsTotal(a: string, b: string)
    ensures NoLater(a, b) || NoLater(b, a)
  {
    if a != "" && b != "" {
      NoLaterIsTotal(a[1..], b[1..]);
    }
  }

  lemma {:induction false} NoLaterIsTransitive(a: string, b: string, c: string)
    requires NoLater(a, b) && NoLater(b, c)
    ensures NoLater(a, c)
  {
    if a != "" && a[0] == b[0] == c[0] {
      NoLaterIsTransitive(a[1..], b[1..], c[1..]);
    }
  }

  /** `a` and `b` first differ at `k`, and `a` has the smaller character there. */
  predicate SmallerAt(a: string, b: string, k: nat) {
    k < |a| && k < |b| && a[..k] == b[..k] && a[k] < b[k]
  }

  lemma {:induction false} PrefixComesFirst(a: string, b: string)
    requires a <= b
    ensures NoLater(a, b)
  {
    if a != "" {
      assert a[0] == b[..|a|][0] && a[1..] == b[..|a|][1..] == b[1..][..|a| - 1];
      PrefixComesFirst(a[1..], b[1..]);
    }
  }

  lemma {:induction false} SmallerComesFirst(a: string, b: string, k: nat)
    requires SmallerAt(a, b, k)
    ensures NoLater(a, b)
  {
    if k > 0 {
      assert a[0] == a[..k][0] == b[0];
      assert a[1..][..k - 1] == a[..k][1..] == b[1..][..k - 1];
      SmallerComesFirst(a[1..], b[1..], k - 1);
    }
  }

  lemma {:induction false} WhyNoLater(a: string, b: string) returns (k: nat)
    requires NoLater(a, b)
    ensures a <= b || SmallerAt(a, b, k)
  {
    k := 0;
    if a != "" {
      assert a == [a[0]] + a[1..] && b == [b[0]] + b[1..];
      if a[0] == b[0] {
        var rest := WhyNoLater(a[1..], b[1..]);
        k := rest + 1;
        if !(a[1..] <= b[1..]) {
          assert a[..k] == [a[0]] + a[1..][..rest] && b[..k] == [b[0]] + b[1..][..rest];
        }
      }
    }
  }

  /** Dictionary order: the shorter of two of which one begins the other, else the first difference. */
  lemma NoLaterIsDictionaryOrder(a: string, b: string)
    ensures NoLater(a, b) <==> a <= b || exists k: nat :: SmallerAt(a, b, k)
  {
    if NoLater(a, b) {
      var k := WhyNoLater(a, b);
    } else if a <= b {
      PrefixComesFirst(a, b);
    } else if k: nat :| SmallerAt(a, b, k) {
      SmallerComesFirst(a, b, k);
    }
  }

  ghost predicate InOrder(texts: seq<string>) {
    forall i, j :: 0 <= i < j < |texts| ==> NoLater(texts[i], texts[j])
  }

  function InsertText(text: string, texts: seq<string>): seq<string> {
    if texts == [] || NoLater(text, texts[0]) then [text] + texts
    else [texts[0]] + InsertText(text, texts[1..])
  }

  /** `texts.sort()` */
  function SortTexts(texts: seq<string>): seq<string> {
    if texts == [] then [] else InsertText(texts[0], SortTexts(texts[1..]))
  }

  lemma {:induction false} InsertTextSorts(text: string, texts: seq<string>)
    requires InOrder(texts)
    ensures InOrder(InsertText(text, texts))
    ensures multiset(InsertText(text, texts)) == multiset(texts) + multiset{text}
  {
    hide NoLater;
    if texts != [] && NoLater(text, texts[0]) {
      forall j | 0 <= j < |texts| ensures NoLater(text, texts[j]) {
        if j > 0 {
          NoLaterIsTransitive(text, texts[0], texts[j]);
        }
      }
    } else if texts != [] {
      var tail := InsertText(text, texts[1..]);
      assert texts == [texts[0]] + texts[1..];
      InsertTextSorts(text, texts[1..]);
      NoLaterIsTotal(text, texts[0]);
      forall j | 0 <= j < |tail| ensures NoLater(texts[0], tail[j]) {
        assert tail[j] in multiset(tail);
        if tail[j] != text {
          var k :| 0 <= k < |texts| - 1 && texts[1..][k] == tail[j];
          assert texts[k + 1] == tail[j];
        }
      }
    }
  }

  lemma {:induction false} SortTextsSorts(texts: seq<string>)
    ensures InOrder(SortTexts(texts)) && multiset(SortTexts(texts)) == multiset(texts)
  {
    hide NoLater, InOrder, InsertText;
    if texts != [] {
      SortTextsSorts(texts[1..]);
      InsertTextSorts(texts[0], SortTexts(texts[1..]));
      assert texts == [texts[0]] + texts[1..];
    } else {
      NothingInOrder();
    }
  }

  lemma NothingInOrder()
    ensures InOrder([])
  {
  }

  // ---- digit runs ----------------------------------------------------------------------------

  predicate IsDigit(c: char) {
    '0' <= c <= '9'
  }

  predicate IsHexDigit(c: char) {
    IsDigit(c) || 'a' <= c <= 'f' || 'A' <= c <= 'F'
  }

  predicate IsLowerHex(c: char) {
    IsDigit(c) || 'a' <= c <= 'f'
  }

  function HexDigit(c: char): (d: nat)
    requires IsHexDigit(c)
    ensures d < 16
  {
    if IsDigit(c) then c as int - '0' as int
    else if 'a' <= c <= 'f' then c as int - 'a' as int + 10
    else c as int - 'A' as int + 10
  }

  predicate AllHex(text: string) {
    forall i :: 0 <= i < |text| ==> IsHexDigit(text[i])
  }

  predicate AllDigits(text: string) {
    forall i :: 0 <= i < |text| ==> IsDigit(text[i])
  }

  function HexValue(text: string): nat
    requires AllHex(text)
  {
    if text == "" then 0 else 16 * HexValue(text[..|text| - 1]) + HexDigit(text[|text| - 1])
  }

  function DecimalValue(text: string): nat
    requires AllDigits(text)
  {
    if text == "" then 0
    else 10 * DecimalValue(text[..|text| - 1]) + (text[|text| - 1] as int - '0' as int)
  }

  // ---- numerals ------------------------------------------------------------------------------

  function Zeros(n: nat): (r: string)
    ensures |r| == n
  {
    seq(n, (i: nat) => '0')
  }

  function DigitChar(d: nat): char
    requires d < 16
  {
    if d < 10 then '0' + d as char else 'a' + (d - 10) as char
  }

  /** `n` as a decimal printer writes it. */
  function DecimalText(n: nat): (r: string)
    ensures r != "" && AllDigits(r)
  {
    if n < 10 then [DigitChar(n)] else DecimalText(n / 10) + [DigitChar(n % 10)]
  }

  /** `n` as a hexadecimal printer writes it, in lower case. */
  function HexText(n: nat): (r: string)
    ensures r != "" && AllHex(r) && forall i :: 0 <= i < |r| ==> IsLowerHex(r[i])
  {
    if n < 16 then [DigitChar(n)] else HexText(n / 16) + [DigitChar(n % 16)]
  }

  lemma {:induction false} DecimalReadsBack(n: nat)
    ensures DecimalValue(DecimalText(n)) == n
  {
    if n >= 10 {
      DecimalReadsBack(n / 10);
      var r := DecimalText(n);
      assert r[..|r| - 1] == DecimalText(n / 10);
    } else {
      assert DecimalText(n)[..0] == "";
    }
  }

  lemma {:induction false} HexTextReadsBack(n: nat)
    ensures HexValue(HexText(n)) == n
  {
    if n >= 16 {
      HexTextReadsBack(n / 16);
      var r := HexText(n);
      assert r[..|r| - 1] == HexText(n / 16);
    } else {
      assert HexText(n)[..0] == "";
    }
  }

  /** Upper case digits are worth what lower case ones are. */
  lemma UpperHexDigits(d: nat)
    requires 10 <= d < 16
    ensures HexDigit('A' + (d - 10) as char) == d && HexDigit(DigitChar(d)) == d
  {
  }

  lemma {:induction false} ZerosAreNothing(zeros: nat, digits: string)
    requires AllDigits(digits)
    ensures AllDigits(Zeros(zeros) + digits)
    ensures DecimalValue(Zeros(zeros) + digits) == DecimalValue(digits)
    decreases |digits|, zeros
  {
    var whole := Zeros(zeros) + digits;
    assert forall i :: 0 <= i < |whole| ==> IsDigit(whole[i]);
    if digits != "" {
      var n := |digits| - 1;
      assert whole[..|whole| - 1] == Zeros(zeros) + digits[..n];
      ZerosAreNothing(zeros, digits[..n]);
    } else if zeros > 0 {
      assert whole[..|whole| - 1] == Zeros(zeros - 1) + "";
      ZerosAreNothing(zeros - 1, "");
    }
  }

  lemma {:induction false} ZerosAreNothingInHex(zeros: nat, hex: string)
    requires AllHex(hex)
    ensures AllHex(Zeros(zeros) + hex)
    ensures HexValue(Zeros(zeros) + hex) == HexValue(hex)
    decreases |hex|, zeros
  {
    var whole := Zeros(zeros) + hex;
    assert forall i :: 0 <= i < |whole| ==> IsHexDigit(whole[i]);
    if hex != "" {
      var n := |hex| - 1;
      assert whole[..|whole| - 1] == Zeros(zeros) + hex[..n];
      ZerosAreNothingInHex(zeros, hex[..n]);
    } else if zeros > 0 {
      assert whole[..|whole| - 1] == Zeros(zeros - 1) + "";
      ZerosAreNothingInHex(zeros - 1, "");
    }
  }

  /** `digits` is `n` in decimal, with any number of zeros in front. */
  ghost predicate IsNumeral(digits: string, n: nat) {
    exists zeros: nat :: digits == Zeros(zeros) + DecimalText(n)
  }

  lemma OneDigitIsANumeral(zeros: nat, d: nat)
    requires d < 10
    ensures IsNumeral(Zeros(zeros) + [DigitChar(d)], d)
  {
    assert DecimalText(d) == [DigitChar(d)];
  }

  lemma AnotherDigitOnANumeral(front: string, m: nat, d: nat)
    requires IsNumeral(front, m) && d < 10
    ensures IsNumeral(front + [DigitChar(d)], 10 * m + d)
  {
    var zeros: nat :| front == Zeros(zeros) + DecimalText(m);
    if m == 0 {
      assert front == Zeros(zeros + 1) + "";
      OneDigitIsANumeral(zeros + 1, d);
      assert front + [DigitChar(d)] == Zeros(zeros + 1) + [DigitChar(d)];
    } else {
      assert (10 * m + d) / 10 == m && (10 * m + d) % 10 == d;
      var rest, last := DecimalText(m), [DigitChar(d)];
      assert DecimalText(10 * m + d) == rest + last;
      assert front + last == Zeros(zeros) + (rest + last);
    }
  }

  /** Every run of digits is the numeral of one number, the one it is read as. */
  lemma {:induction false} DigitsAreANumeral(digits: string)
    requires digits != "" && AllDigits(digits)
    ensures IsNumeral(digits, DecimalValue(digits))
  {
    hide IsNumeral;
    var n := |digits| - 1;
    var d := digits[n] as int - '0' as int;
    assert digits == digits[..n] + [DigitChar(d)];
    if n == 0 {
      assert digits == Zeros(0) + [DigitChar(d)];
      OneDigitIsANumeral(0, d);
    } else {
      DigitsAreANumeral(digits[..n]);
      AnotherDigitOnANumeral(digits[..n], DecimalValue(digits[..n]), d);
    }
  }

  lemma NumeralIsRead(digits: string, n: nat)
    requires IsNumeral(digits, n)
    ensures digits != "" && AllDigits(digits) && DecimalValue(digits) == n
  {
    var zeros: nat :| digits == Zeros(zeros) + DecimalText(n);
    ZerosAreNothing(zeros, DecimalText(n));
    DecimalReadsBack(n);
  }

  /** How many leading characters satisfy `p`: a greedy character-class run. */
  function Run(text: string, p: char -> bool): (n: nat)
    ensures n <= |text|
    ensures forall i :: 0 <= i < n ==> p(text[i])
    ensures n < |text| ==> !p(text[n])
  {
    if text != "" && p(text[0]) then 1 + Run(text[1..], p) else 0
  }

  /** A run is as long as the characters of its class that begin the text. */
  lemma {:induction false} RunOf(front: string, back: string, p: char -> bool)
    requires forall i :: 0 <= i < |front| ==> p(front[i])
    requires back == "" || !p(back[0])
    ensures Run(front + back, p) == |front|
  {
    var text := front + back;
    if front != "" {
      assert text[0] == front[0];
      assert text[1..] == front[1..] + back;
      RunOf(front[1..], back, p);
    }
  }
}
