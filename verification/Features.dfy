/**
 * Reading `target_features` out of a WebAssembly module (tools/aot/features.ts; WebAssembly Core
 * Specification, sections 5.2.2, 5.5.2 and 5.5.3).
 */
module Features {
  import opened Common
  import opened Ordering

  const MAGIC: seq<byte> := [0x00, 0x61, 0x73, 0x6d]
  const VERSION: int := 1
  const CUSTOM_SECTION: byte := 0

  /** `target_features` */
  const SECTION_NAME: seq<byte> :=
    [116, 97, 114, 103, 101, 116, 95, 102, 101, 97, 116, 117, 114, 101, 115]

  datatype Use = Used | Disallowed | Required

  datatype Declared = Declared(name: Name, use: Use)

  datatype Detail =
    | NoFeatureCount
    | EndedAfter(count: nat, index: nat)
    | NoNameLength(index: nat)
    | NameRunsPast(index: nat)

  datatype Failure =
    | NotWasm(found: seq<byte>)
    | UnsupportedVersion(version: int)
    | Truncated(at: nat, needed: nat)
    | NoTargetFeaturesSection
    | UnknownPrefix(prefix: byte, index: nat)
    | MalformedSection(detail: Detail)

  datatype Scan = Features(declared: seq<Declared>, required: seq<Name>) | Failed(reason: Failure)

  // ---- the format, as a recursive description ---------------------------------------

  /** A number and where the bytes after it start. */
  datatype Read = Read(value: nat, next: nat)

  /** Unsigned LEB128 of at most `left` bytes. */
  function LebAt(b: seq<byte>, at: nat, left: nat): (r: Option<Read>)
    ensures r.Some? ==> at < r.value.next <= |b|
    decreases left
  {
    if left == 0 || at >= |b| then None
    else if b[at] < 128 then Some(Read(b[at], at + 1))
    else
      match LebAt(b, at + 1, left - 1)
      case None => None
      case Some(high) => Some(Read(b[at] - 128 + 128 * high.value, high.next))
  }

  function UseOf(prefix: byte): Option<Use> {
    if prefix == 0x2b then Some(Used)
    else if prefix == 0x2d then Some(Disallowed)
    else if prefix == 0x3d then Some(Required)
    else None
  }

  function Then(declared: seq<Declared>, rest: Result<seq<Declared>, Failure>)
    : Result<seq<Declared>, Failure>
  {
    match rest
    case Err(reason) => Err(reason)
    case Ok(more) => Ok(declared + more)
  }

  /** Entries `index` up to `count`, from `at`. */
  function Entries(p: seq<byte>, at: nat, count: nat, index: nat): Result<seq<Declared>, Failure>
    requires index <= count
    decreases count - index
  {
    if index == count then Ok([])
    else if at >= |p| then Err(MalformedSection(EndedAfter(count, index)))
    else
      match UseOf(p[at])
      case None => Err(UnknownPrefix(p[at], index))
      case Some(use) =>
        match LebAt(p, at + 1, 5)
        case None => Err(MalformedSection(NoNameLength(index)))
        case Some(len) =>
          if len.next + len.value > |p| then Err(MalformedSection(NameRunsPast(index)))
          else Then([Declared(p[len.next..len.next + len.value], use)],
                    Entries(p, len.next + len.value, count, index + 1))
  }

  /** Names an engine must support: everything not marked `-`. */
  function RequiredNames(declared: seq<Declared>): seq<Name> {
    if declared == [] then []
    else
      (if declared[0].use.Disallowed? then [] else [declared[0].name]) + RequiredNames(declared[1..])
  }

  function Summary(entries: Result<seq<Declared>, Failure>): Scan {
    match entries
    case Err(reason) => Failed(reason)
    case Ok(declared) => Features(declared, SortedDistinct(RequiredNames(declared)))
  }

  function Section(p: seq<byte>): Scan {
    match LebAt(p, 0, 5)
    case None => Failed(MalformedSection(NoFeatureCount))
    case Some(count) => Summary(Entries(p, count.next, count.value, 0))
  }

  /** What follows the name, if this custom section is the one. */
  function TargetPayload(body: seq<byte>): Option<seq<byte>> {
    match LebAt(body, 0, 5)
    case None => None
    case Some(len) =>
      if len.next + len.value > |body| then None
      else if body[len.next..len.next + len.value] != SECTION_NAME then None
      else Some(body[len.next + len.value..])
  }

  /** The section table from `at` on. */
  function Walk(b: seq<byte>, at: nat): Scan
    decreases |b| - at
  {
    if at >= |b| then Failed(NoTargetFeaturesSection)
    else
      match LebAt(b, at + 1, 5)
      case None => Failed(Truncated(at, 1))
      case Some(size) =>
        if size.next + size.value > |b| then Failed(Truncated(at, size.value))
        else if b[at] != CUSTOM_SECTION then Walk(b, size.next + size.value)
        else
          match TargetPayload(b[size.next..size.next + size.value])
          case None => Walk(b, size.next + size.value)
          case Some(payload) => Section(payload)
  }

  /** The version word, as the 32-bit signed number bitwise-or leaves it. */
  function VersionOf(b: seq<byte>): int
    requires |b| >= 8
  {
    var word := b[4] as int + 0x100 * b[5] as int + 0x1_0000 * b[6] as int
                + 0x100_0000 * b[7] as int;
    if word >= 0x8000_0000 then word - 0x1_0000_0000 else word
  }

  function ReadModule(b: seq<byte>): Scan {
    if b[..Min(4, |b|)] != MAGIC then Failed(NotWasm(b[..Min(4, |b|)]))
    else if |b| < 8 then Failed(Truncated(4, 4))
    else if VersionOf(b) != VERSION then Failed(UnsupportedVersion(VersionOf(b)))
    else Walk(b, 8)
  }

  // ---- the code -------------------------------------------------------------------------

  class Cursor {
    const bytes: seq<byte>
    var at: nat

    ghost predicate Valid()
      reads this
    {
      at <= |bytes|
    }

    constructor (bytes: seq<byte>)
      ensures Valid() && this.bytes == bytes && at == 0
    {
      this.bytes := bytes;
      at := 0;
    }

    method Seek(to: nat)
      requires to <= |bytes|
      modifies this
      ensures Valid() && at == to
    {
      at := to;
    }

    method Byte() returns (r: Option<byte>)
      requires Valid()
      modifies this
      ensures Valid()
      ensures old(at) == |bytes| ==> r == None && at == old(at)
      ensures old(at) < |bytes| ==> r == Some(bytes[old(at)]) && at == old(at) + 1
    {
      if at >= |bytes| {
        return None;
      }
      r := Some(bytes[at]);
      at := at + 1;
    }

    method U32() returns (r: Option<nat>)
      requires Valid()
      modifies this
      ensures Valid() && old(at) <= at
      ensures r.Some? ==> LebAt(bytes, old(at), 5) == Some(Read(r.value, at))
      ensures r.None? ==> LebAt(bytes, old(at), 5) == None
    {
      hide LebAt, Shifted;
      ghost var whole := LebAt(bytes, at, 5);
      ShiftedNothing(whole);
      var result: nat, scale: nat := 0, 1;
      for read := 0 to 5
        invariant Valid() && old(at) <= at
        invariant whole == Shifted(result, scale, LebAt(bytes, at, 5 - read))
      {
        LebStep(bytes, at, 5 - read, result, scale);
        var byte := Byte();
        if byte.None? {
          return None;
        }
        result := result + byte.value % 128 * scale;
        if byte.value < 128 {
          return Some(result);
        }
        scale := scale * 128;
      }
      LebStep(bytes, at, 0, result, scale);
      return None;
    }

    method Bytes(length: nat) returns (r: Option<seq<byte>>)
      requires Valid()
      modifies this
      ensures Valid()
      ensures old(at) + length > |bytes| ==> r == None && at == old(at)
      ensures old(at) + length <= |bytes| ==>
        at == old(at) + length && r == Some(bytes[old(at)..at])
    {
      if at + length > |bytes| {
        return None;
      }
      r := Some(bytes[at..at + length]);
      at := at + length;
    }
  }

  /** A number whose low part has been read already. */
  function Shifted(low: nat, scale: nat, high: Option<Read>): Option<Read> {
    match high
    case None => None
    case Some(r) => Some(Read(low + scale * r.value, r.next))
  }

  lemma ShiftedNothing(high: Option<Read>)
    ensures Shifted(0, 1, high) == high
  {
  }

  /** One byte of the decoding loop, on the description's side. */
  lemma LebStep(b: seq<byte>, at: nat, left: nat, result: nat, scale: nat)
    requires at <= |b|
    ensures Shifted(result, scale, LebAt(b, at, left)) ==
      if left == 0 || at == |b| then None
      else if b[at] < 128 then Some(Read(result + b[at] % 128 * scale, at + 1))
      else Shifted(result + b[at] % 128 * scale, scale * 128, LebAt(b, at + 1, left - 1))
  {
    if left > 0 && at < |b| && b[at] >= 128 {
      var high := LebAt(b, at + 1, left - 1);
      if high.Some? {
        var v := high.value.value;
        assert scale * (b[at] - 128 + 128 * v) == (b[at] - 128) * scale + (scale * 128) * v;
      }
    } else if left > 0 && at < |b| {
      assert scale * b[at] == b[at] * scale;
    }
  }

  method ParseSection(payload: seq<byte>) returns (r: Scan)
    ensures r == Section(payload)
  {
    hide LebAt, UseOf, SortedDistinct, RequiredNames;
    var cursor := new Cursor(payload);
    var count := cursor.U32();
    if count.None? {
      return Failed(MalformedSection(NoFeatureCount));
    }
    ghost var whole := Entries(payload, cursor.at, count.value, 0);
    var declared: seq<Declared> := [];
    assert Then([], whole) == whole by { PrependNothing(whole); }
    for index := 0 to count.value
      invariant cursor.Valid() && cursor.bytes == payload
      invariant whole == Then(declared, Entries(payload, cursor.at, count.value, index))
    {
      var prefix := cursor.Byte();
      if prefix.None? {
        return Failed(MalformedSection(EndedAfter(count.value, index)));
      }
      var use := UseOf(prefix.value);
      if use.None? {
        return Failed(UnknownPrefix(prefix.value, index));
      }
      var nameLength := cursor.U32();
      if nameLength.None? {
        return Failed(MalformedSection(NoNameLength(index)));
      }
      var nameBytes := cursor.Bytes(nameLength.value);
      if nameBytes.None? {
        return Failed(MalformedSection(NameRunsPast(index)));
      }
      var entry := Declared(nameBytes.value, use.value);
      PrependTwice(declared, [entry], Entries(payload, cursor.at, count.value, index + 1));
      declared := declared + [entry];
    }
    NothingFollows(declared);
    assert whole == Ok(declared);
    return Features(declared, SortedDistinct(RequiredNames(declared)));
  }

  lemma NothingFollows(a: seq<Declared>)
    ensures Then(a, Ok([])) == Ok(a)
  {
    assert a + [] == a;
  }

  lemma PrependNothing(rest: Result<seq<Declared>, Failure>)
    ensures Then([], rest) == rest
  {
    if rest.Ok? {
      assert [] + rest.value == rest.value;
    }
  }

  lemma PrependTwice(a: seq<Declared>, b: seq<Declared>, rest: Result<seq<Declared>, Failure>)
    ensures Then(a, Then(b, rest)) == Then(a + b, rest)
  {
    if rest.Ok? {
      assert a + (b + rest.value) == (a + b) + rest.value;
    }
  }

  /** What follows the name of a custom section, if it is the one looked for. */
  method PayloadOf(body: seq<byte>) returns (r: Option<seq<byte>>)
    ensures r == TargetPayload(body)
  {
    hide LebAt;
    var inner := new Cursor(body);
    var nameLength := inner.U32();
    if nameLength.None? {
      return None;
    }
    var nameBytes := inner.Bytes(nameLength.value);
    if nameBytes.None? {
      return None;
    }
    if nameBytes.value != SECTION_NAME {
      return None;
    }
    return Some(body[inner.at..]);
  }

  method ReadTargetFeatures(wasm: seq<byte>) returns (r: Scan)
    ensures r == ReadModule(wasm)
  {
    hide LebAt, Section, TargetPayload;
    for index := 0 to 4
      invariant index <= |wasm| && wasm[..index] == MAGIC[..index]
    {
      if index >= |wasm| || wasm[index] != MAGIC[index] {
        assert index < |wasm| ==> wasm[..Min(4, |wasm|)][index] != MAGIC[index];
        return Failed(NotWasm(wasm[..Min(4, |wasm|)]));
      }
    }
    var cursor := new Cursor(wasm);
    cursor.Seek(4);
    var versionBytes := cursor.Bytes(4);
    if versionBytes.None? {
      return Failed(Truncated(4, 4));
    }
    var version := VersionOf(wasm);
    if version != VERSION {
      return Failed(UnsupportedVersion(version));
    }
    while cursor.at < |wasm|
      invariant cursor.Valid() && cursor.bytes == wasm
      invariant ReadModule(wasm) == Walk(wasm, cursor.at)
      decreases |wasm| - cursor.at
    {
      var sectionStart := cursor.at;
      var id := cursor.Byte();
      var size := cursor.U32();
      if size.None? {
        return Failed(Truncated(sectionStart, 1));
      }
      var body := cursor.Bytes(size.value);
      if body.None? {
        return Failed(Truncated(sectionStart, size.value));
      }
      if id.value != CUSTOM_SECTION {
        continue;
      }
      var payload := PayloadOf(body.value);
      if payload.None? {
        continue;
      }
      r := ParseSection(payload.value);
      return;
    }
    return Failed(NoTargetFeaturesSection);
  }
}
