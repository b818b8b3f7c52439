/**
 * The host side of a WASI task: the seeded entropy stream, the three file descriptors, and the
 * pinned import table (packages/aot/src/wasi-executor.ts).
 */
module WasiHost {
  import opened Common

  const FIXED_REALTIME_NANOS: nat := 1577836800000000000
  const FIXED_MONOTONIC_NANOS: nat := 0

  const ERRNO_SUCCESS := 0
  const ERRNO_FAULT := 21
  const ERRNO_INVAL := 28
  const ERRNO_NOSPC := 51
  const ERRNO_NOTSUP := 58
  const CLOCKID_REALTIME := 0

  const PINNED_WASI_FUNCTIONS: set<string> :=
    {"clock_res_get", "clock_time_get", "poll_oneoff", "proc_raise", "random_get", "sched_yield",
     "sock_accept", "sock_recv", "sock_send", "sock_shutdown"}

  type Digest = bytes: seq<byte> | |bytes| == 32 witness seq<byte>(32, (i: nat) => 0)

  /** An arbitrary function from byte strings to 32-byte digests. */
  type Sha256 = seq<byte> -> Digest

  // ---- the seeded stream -------------------------------------------------------

  function Block(hash: Sha256, seed: seq<byte>, counter: nat): (r: seq<byte>)
    ensures |r| == 32
  {
    hash(seed + LittleEndian(counter % 0x1_0000_0000, 4))
  }

  /** Byte `i` of the stream: a function of the seed and the position, and of nothing else. */
  function StreamByte(hash: Sha256, seed: seq<byte>, i: nat): byte {
    Block(hash, seed, i / 32)[i % 32]
  }

  function Stream(hash: Sha256, seed: seq<byte>, from: nat, length: nat): (r: seq<byte>)
    ensures |r| == length
  {
    seq<byte>(length, (i: nat) => StreamByte(hash, seed, from + i))
  }

  /** The stream, spelled out: the digest of the seed and the block's number in four bytes. */
  lemma StreamByteIs(hash: Sha256, seed: seq<byte>, i: nat)
    ensures var n := i / 32 % 0x1_0000_0000;
      StreamByte(hash, seed, i)
        == hash(seed + [n % 256, n / 256 % 256, n / 0x1_0000 % 256, n / 0x100_0000 % 256])[i % 32]
  {
    FourBytes(i / 32 % 0x1_0000_0000);
  }

  lemma FourBytes(n: nat)
    ensures LittleEndian(n, 4)
         == [n % 256, n / 256 % 256, n / 0x1_0000 % 256, n / 0x100_0000 % 256]
  {
    var a, b, c := n / 256, n / 256 / 256, n / 256 / 256 / 256;
    assert b == n / 0x1_0000 && c == n / 0x100_0000;
    assert LittleEndian(n, 4) == [n % 256] + LittleEndian(a, 3);
    assert LittleEndian(a, 3) == [a % 256] + LittleEndian(b, 2);
    assert LittleEndian(b, 2) == [b % 256] + LittleEndian(c, 1);
    assert LittleEndian(c, 1) == [c % 256] + LittleEndian(c / 256, 0);
  }

  lemma BlockPosition(k: nat, offset: nat)
    requires offset < 32
    ensures (32 * k + offset) / 32 == k && (32 * k + offset) % 32 == offset
  {
  }

  class SeededStream {
    const hash: Sha256
    const seed: seq<byte>
    var counter: nat
    var block: seq<byte>
    var offset: nat

    ghost predicate Valid()
      reads this
    {
      && (counter == 0 ==> block == [] && offset == 0)
      && (counter > 0 ==> block == Block(hash, seed, counter - 1) && offset <= 32)
    }

    /** How many bytes have been handed out. */
    function Drawn(): nat
      reads this
      requires Valid()
    {
      if counter == 0 then 0 else 32 * (counter - 1) + offset
    }

    constructor (hash: Sha256, seed: seq<byte>)
      ensures Valid() && Drawn() == 0 && this.hash == hash && this.seed == seed
    {
      this.hash := hash;
      this.seed := seed;
      counter := 0;
      block := [];
      offset := 0;
    }

    /** One byte: the inner step of `Fill`, renewing the block when it is spent. */
    method NextByte() returns (b: byte)
      requires Valid()
      modifies this
      ensures Valid() && Drawn() == old(Drawn()) + 1
      ensures b == StreamByte(hash, seed, old(Drawn()))
    {
      hide LittleEndian;
      if offset >= |block| {
        var input := seed + LittleEndian(counter % 0x1_0000_0000, 4);
        counter := counter + 1;
        block := hash(input);
        offset := 0;
      }
      BlockPosition(counter - 1, offset);
      b := block[offset];
      offset := offset + 1;
    }

    method Fill(out: array<byte>)
      requires Valid()
      modifies this, out
      ensures Valid() && Drawn() == old(Drawn()) + out.Length
      ensures out[..] == Stream(hash, seed, old(Drawn()), out.Length)
    {
      hide StreamByte;
      ghost var from := Drawn();
      for i := 0 to out.Length
        invariant Valid() && Drawn() == from + i
        invariant forall j :: 0 <= j < i ==> out[j] == StreamByte(hash, seed, from + j)
      {
        out[i] := NextByte();
      }
    }
  }

  function Sum(lengths: seq<nat>): nat {
    if lengths == [] then 0 else Sum(lengths[..|lengths| - 1]) + lengths[|lengths| - 1]
  }

  /** The successive answers to requests of the given lengths, starting at position `from`. */
  function Answers(hash: Sha256, seed: seq<byte>, from: nat, lengths: seq<nat>): seq<seq<byte>> {
    if lengths == [] then []
    else
      var before := lengths[..|lengths| - 1];
      Answers(hash, seed, from, before)
      + [Stream(hash, seed, from + Sum(before), lengths[|lengths| - 1])]
  }

  /** However a guest splits its requests, the bytes it gets end to end are the same stream. */
  lemma {:induction false} StreamIgnoresRequestSizes(
      hash: Sha256, seed: seq<byte>, from: nat, lengths: seq<nat>)
    ensures Concat(Answers(hash, seed, from, lengths)) == Stream(hash, seed, from, Sum(lengths))
  {
    if lengths != [] {
      var before, last := lengths[..|lengths| - 1], lengths[|lengths| - 1];
      StreamIgnoresRequestSizes(hash, seed, from, before);
      ConcatPush(Answers(hash, seed, from, before), Stream(hash, seed, from + Sum(before), last));
    }
  }

  /** `Answers` is what a stream object gives: a loop of `Fill`s over the request lengths. */
  method FillAll(stream: SeededStream, lengths: seq<nat>) returns (answers: seq<seq<byte>>)
    requires stream.Valid()
    modifies stream
    ensures stream.Valid()
    ensures answers == Answers(stream.hash, stream.seed, old(stream.Drawn()), lengths)
    ensures Concat(answers) == Stream(stream.hash, stream.seed, old(stream.Drawn()), Sum(lengths))
  {
    hide StreamByte, Stream, SeededStream.Valid, SeededStream.Drawn;
    answers := [];
    for k := 0 to |lengths|
      invariant stream.Valid() && stream.Drawn() == old(stream.Drawn()) + Sum(lengths[..k])
      invariant answers == Answers(stream.hash, stream.seed, old(stream.Drawn()), lengths[..k])
    {
      var out := new byte[lengths[k]];
      stream.Fill(out);
      answers := answers + [out[..]];
      assert lengths[..k + 1][..k] == lengths[..k];
    }
    assert lengths[..|lengths|] == lengths;
    StreamIgnoresRequestSizes(stream.hash, stream.seed, old(stream.Drawn()), lengths);
  }

  // ---- the three file descriptors ----------------------------------------------

  /** What one read of `size` bytes offers: what is left, up to `size`; empty at the end. */
  function Available(bytes: seq<byte>, cursor: nat, size: nat): (r: seq<byte>)
    ensures |r| <= size
    ensures cursor <= |bytes| ==> cursor + |r| <= |bytes|
  {
    if cursor <= |bytes| then bytes[cursor..cursor + Min(size, |bytes| - cursor)] else []
  }

  class TaskStdin {
    const bytes: seq<byte>
    var cursor: nat

    ghost predicate Valid()
      reads this
    {
      cursor <= |bytes|
    }

    constructor (bytes: seq<byte>)
      ensures Valid() && this.bytes == bytes && cursor == 0
    {
      this.bytes := bytes;
      cursor := 0;
    }

    method FdRead(size: nat) returns (data: seq<byte>)
      requires Valid()
      modifies this
      ensures Valid()
      ensures data == Available(bytes, old(cursor), size)
      ensures |data| == Min(size, |bytes| - old(cursor)) && cursor == old(cursor) + |data|
      ensures data == bytes[old(cursor)..cursor]
    {
      var n := Max(0, Min(size, |bytes| - cursor));
      data := bytes[cursor..cursor + n];
      cursor := cursor + n;
    }
  }

  /** Stdout: keeps every write that fits whole, refuses the others and remembers that it did. */
  class CappedSink {
    const limit: nat
    var chunks: seq<seq<byte>>
    var length: nat
    var overflowed: bool

    ghost predicate Valid()
      reads this
    {
      length == |Concat(chunks)| && length <= limit
    }

    constructor (limit: nat)
      ensures Valid() && this.limit == limit && chunks == [] && !overflowed
    {
      this.limit := limit;
      chunks := [];
      length := 0;
      overflowed := false;
    }

    method FdWrite(data: seq<byte>) returns (errno: nat, written: nat)
      requires Valid()
      modifies this
      ensures Valid()
      ensures old(length) + |data| <= limit ==>
        errno == ERRNO_SUCCESS && written == |data|
        && Concat(chunks) == Concat(old(chunks)) + data && overflowed == old(overflowed)
      ensures old(length) + |data| > limit ==>
        errno == ERRNO_NOSPC && written == 0 && chunks == old(chunks) && overflowed
    {
      if length + |data| > limit {
        overflowed := true;
        return ERRNO_NOSPC, 0;
      }
      ConcatPush(chunks, data);
      chunks := chunks + [data];
      length := length + |data|;
      return ERRNO_SUCCESS, |data|;
    }

    /** The kept chunks copied into one buffer. */
    method Bytes() returns (r: seq<byte>)
      requires Valid()
      ensures r == Concat(chunks)
    {
      r := CopyOut(chunks, length);
    }
  }

  /** `out.set(chunk, at)` */
  method SetAt(out: array<byte>, at: nat, chunk: seq<byte>)
    requires at + |chunk| <= out.Length
    modifies out
    ensures out[..at + |chunk|] == old(out[..at]) + chunk
  {
    for j := 0 to |chunk|
      invariant out[..at + j] == old(out[..at]) + chunk[..j]
    {
      out[at + j] := chunk[j];
      assert out[..at + j + 1] == out[..at + j] + [chunk[j]];
    }
  }

  /** The copy loop both sinks share: chunks laid end to end in a buffer of the counted length. */
  method CopyOut(chunks: seq<seq<byte>>, length: nat) returns (r: seq<byte>)
    requires length == |Concat(chunks)|
    ensures r == Concat(chunks)
  {
    hide Concat;
    var out := new byte[length];
    var at := 0;
    NothingToConcat(chunks);
    for k := 0 to |chunks|
      invariant at == |Concat(chunks[..k])| <= length
      invariant out[..at] == Concat(chunks[..k])
    {
      ConcatPrefix(chunks, k);
      assert chunks[..k + 1] == chunks[..k] + [chunks[k]];
      ConcatPush(chunks[..k], chunks[k]);
      SetAt(out, at, chunks[k]);
      at := at + |chunks[k]|;
    }
    assert chunks[..|chunks|] == chunks;
    assert out[..] == out[..at];
    r := out[..];
  }

  lemma NothingToConcat(chunks: seq<seq<byte>>)
    ensures Concat(chunks[..0]) == []
  {
  }

  lemma {:induction false} ConcatPrefix(chunks: seq<seq<byte>>, k: nat)
    requires k < |chunks|
    ensures |Concat(chunks[..k])| + |chunks[k]| <= |Concat(chunks)|
    decreases |chunks|
  {
    if k < |chunks| - 1 {
      ConcatPrefix(chunks[..|chunks| - 1], k);
      assert chunks[..|chunks| - 1][..k] == chunks[..k];
    }
  }

  /** Stderr: acknowledges everything, keeps the head and counts the rest. */
  class DiagnosticSink {
    const limit: nat
    var chunks: seq<seq<byte>>
    var kept: nat
    var dropped: nat

    ghost predicate Valid()
      reads this
    {
      kept == |Concat(chunks)| && kept <= limit
    }

    constructor (limit: nat)
      ensures Valid() && this.limit == limit && chunks == [] && dropped == 0
    {
      this.limit := limit;
      chunks := [];
      kept := 0;
      dropped := 0;
    }

    method FdWrite(data: seq<byte>) returns (errno: nat, written: nat)
      requires Valid()
      modifies this
      ensures Valid()
      ensures errno == ERRNO_SUCCESS && written == |data|
      ensures var keep := Min(limit - old(kept), |data|);
        Concat(chunks) == Concat(old(chunks)) + data[..keep]
        && dropped == old(dropped) + |data| - keep
    {
      var room := Max(0, limit - kept);
      var keep := Min(room, |data|);
      if keep > 0 {
        ConcatPush(chunks, data[..keep]);
        chunks := chunks + [data[..keep]];
        kept := kept + keep;
      }
      dropped := dropped + |data| - keep;
      return ERRNO_SUCCESS, |data|;
    }

    /** What was kept, as text; `decode` is lossy on purpose and total. */
    method Text(decode: seq<byte> -> string) returns (r: string)
      requires Valid()
      ensures r == decode(Concat(chunks))
    {
      var out := CopyOut(chunks, kept);
      r := decode(out);
    }
  }

  // ---- guest memory ------------------------------------------------------------

  predicate InRange(mem: seq<byte>, at: int, length: int) {
    0 <= at && 0 <= length && at + length <= |mem|
  }

  /** Guest memory after a host store. */
  function Store(mem: seq<byte>, at: int, data: seq<byte>): (r: seq<byte>)
    requires InRange(mem, at, |data|)
    ensures |r| == |mem| && r[at..at + |data|] == data
    ensures r[..at] == mem[..at] && r[at + |data|..] == mem[at + |data|..]
  {
    mem[..at] + data + mem[at + |data|..]
  }
}
