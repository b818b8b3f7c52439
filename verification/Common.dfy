/** Small vocabulary shared by every model: options, bytes, and concatenation. */
module Common {

  datatype Option<+T> = None | Some(value: T) {
    function GetOr(default: T): T {
      match this
      case None => default
      case Some(v) => v
    }
  }

  datatype Result<+T, +E> = Ok(value: T) | Err(error: E)

  type byte = x: int | 0 <= x < 256

  function Min(a: int, b: int): int {
    if a <= b then a else b
  }

  function Max(a: int, b: int): int {
    if a <= b then b else a
  }

  /** All chunks, end to end; defined from the right because the code only ever pushes. */
  function Concat<T>(chunks: seq<seq<T>>): seq<T> {
    if chunks == [] then [] else Concat(chunks[..|chunks| - 1]) + chunks[|chunks| - 1]
  }

  lemma ConcatPush<T>(chunks: seq<seq<T>>, chunk: seq<T>)
    ensures Concat(chunks + [chunk]) == Concat(chunks) + chunk
  {
    assert (chunks + [chunk])[..|chunks|] == chunks;
  }

  /** `value` in `width` bytes, least significant first, wrapping as a typed store does. */
  function LittleEndian(value: nat, width: nat): (r: seq<byte>)
    ensures |r| == width
    decreases width
  {
    if width == 0 then [] else [value % 256] + LittleEndian(value / 256, width - 1)
  }

  /** The number a run of bytes denotes, least significant first. */
  function FromLittleEndian(bytes: seq<byte>): nat {
    if bytes == [] then 0 else bytes[0] + 256 * FromLittleEndian(bytes[1..])
  }

  function Power256(width: nat): (r: nat)
    ensures r > 0
  {
    if width == 0 then 1 else 256 * Power256(width - 1)
  }

  lemma {:induction false} LittleEndianRoundTrip(value: nat, width: nat)
    requires value < Power256(width)
    ensures FromLittleEndian(LittleEndian(value, width)) == value
    decreases width
  {
    if width > 0 {
      LittleEndianRoundTrip(value / 256, width - 1);
      assert LittleEndian(value, width)[1..] == LittleEndian(value / 256, width - 1);
    }
  }

  /** Byte `i` is the one worth 256 to the `i`. */
  lemma {:induction false} LittleEndianByte(value: nat, width: nat, i: nat)
    requires i < width
    ensures LittleEndian(value, width)[i] == value / Power256(i) % 256
    decreases width
  {
    if i > 0 {
      LittleEndianByte(value / 256, width - 1, i - 1);
      assert value / 256 / Power256(i - 1) == value / Power256(i) by {
        DivideTwice(value, 256, Power256(i - 1));
      }
    }
  }

  lemma ProductIsFar(a: nat, d: int)
    ensures d >= 1 ==> a * d >= a
    ensures d <= -1 ==> a * d + a <= 0
  {
  }

  lemma Quotient(n: nat, a: nat, q: int, r: nat)
    requires r < a && n == a * q + r
    ensures n / a == q
  {
    var d := n / a - q;
    assert a * d == a * (n / a) - a * q;
    ProductIsFar(a, d);
  }

  lemma DivideTwice(n: nat, a: nat, b: nat)
    requires a > 0 && b > 0
    ensures a * b > 0 && n / a / b == n / (a * b)
  {
    var m := n / a;
    var q, s, t := m / b, m % b, n % a;
    assert m == b * q + s && n == a * m + t;
    assert a * m == a * b * q + a * s by {
      Distribute(a, b * q, s);
    }
    assert a * s + t < a * b by {
      ProductIsFar(a, b - s);
      Distribute(a, b - s, s);
    }
    Quotient(n, a * b, q, a * s + t);
  }

  lemma Distribute(a: int, x: int, y: int)
    ensures a * (x + y) == a * x + a * y
  {
  }

  /** A stretch of what was written at `at` is found at its own place. */
  lemma Within(b: seq<byte>, at: nat, whole: seq<byte>, from: nat, to: nat)
    requires at + |whole| <= |b| && b[at..at + |whole|] == whole && from <= to <= |whole|
    ensures b[at + from..at + to] == whole[from..to]
  {
    forall i | from <= i < to ensures b[at + i] == whole[i] {
      assert b[at..at + |whole|][i] == b[at + i];
    }
  }
}
