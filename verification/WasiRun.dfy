/**
 * A WASI task as a conversation between an arbitrary deterministic guest and the host, and the
 * executor that runs it (packages/aot/src/wasi-executor.ts).
 */
module WasiRun {
  import opened Common
  import opened WasiHost

  // ---- the guest ---------------------------------------------------------------

  /** A call into `wasi_snapshot_preview1`; of those the host replaces, the arguments it looks at. */
  datatype Call =
    | ClockTimeGet(id: int, timePtr: int)
    | ClockResGet(resPtr: int)
    | RandomGet(buf: int, len: int)
    | PollOneoff(events: int)
    | ProcRaise
    | SockAccept
    | SockRecv
    | SockSend
    | SockShutdown
    | SchedYield
    | ProcExit(code: int)
    | Other(name: string, args: seq<int>)

  function ImportName(call: Call): string {
    match call
    case ClockTimeGet(_, _) => "clock_time_get"
    case ClockResGet(_) => "clock_res_get"
    case RandomGet(_, _) => "random_get"
    case PollOneoff(_) => "poll_oneoff"
    case ProcRaise => "proc_raise"
    case SockAccept => "sock_accept"
    case SockRecv => "sock_recv"
    case SockSend => "sock_send"
    case SockShutdown => "sock_shutdown"
    case SchedYield => "sched_yield"
    case ProcExit(_) => "proc_exit"
    case Other(name, _) => name
  }

  /** What a call gives back: an errno, and guest memory after the call. */
  datatype Reply = Reply(errno: nat, mem: seq<byte>)

  datatype Move<+S> =
    | Asks(state: S, mem: seq<byte>, call: Call)
    | Returned(mem: seq<byte>)
    | Traps(detail: string)

  /** A deterministic guest: its next move is a function of its state and the host's reply. */
  datatype Guest<!S> = Guest(first: Move<S>, resume: (S, Reply) -> Move<S>)

  // ---- the host, as a value ----------------------------------------------------

  /** Everything the host keeps for one task. */
  datatype Io = Io(
    cursor: nat, out: seq<byte>, overflowed: bool, err: seq<byte>, dropped: nat, drawn: nat,
    calls: nat)

  const FRESH_IO := Io(0, [], false, [], 0, 0, 0)

  /** One use of a descriptor object: `fd_read` or `fd_write` on stdin, stdout or stderr. */
  datatype Op = Read(size: nat) | WriteOut(data: seq<byte>) | WriteErr(data: seq<byte>)

  datatype Served = Served(errno: nat, data: seq<byte>, count: nat)

  /** What the shim does next about a call: use a descriptor, answer the guest, or throw. */
  datatype ShimMove<+W> =
    | Uses(world: W, op: Op)
    | Gives(world: W, reply: Reply)
    | Throws(detail: string)

  /**
   * The shim the imports are built on: an arbitrary deterministic machine with hidden state of any
   * kind (its clocks, its entropy, its table of open descriptors, a vectored write half done). It
   * is the shim that decides which descriptor a call reaches, and how often.
   */
  datatype Shim<!W> = Shim(
    begin: (W, Call, seq<byte>) -> ShimMove<W>, resume: (W, Served) -> ShimMove<W>)

  /** One node's configuration for one task. `pins` is the set of replaced imports. */
  datatype Env<!W> = Env(
    input: seq<byte>, hash: Sha256, seed: seq<byte>, stdoutCap: nat, stderrCap: nat,
    pins: set<string>, shim: Shim<W>)

  datatype Phase<+S> =
    | Waiting(state: S, mem: seq<byte>, call: Call)
    | Serving(state: S, op: Op)
    | Ended(code: int, mem: seq<byte>)
    | Trapped(detail: string)

  predicate IsOver<S>(phase: Phase<S>) {
    phase.Ended? || phase.Trapped?
  }

  datatype Config<+S, +W> = Config(phase: Phase<S>, io: Io, world: W)

  function PhaseOf<S>(move: Move<S>): Phase<S> {
    match move
    case Asks(state, mem, call) => Waiting(state, mem, call)
    case Returned(mem) => Ended(0, mem)
    case Traps(detail) => Trapped(detail)
  }

  /** What the host does in one step. */
  datatype HostMove<+W> =
    | Replies(reply: Reply, io: Io, world: W)
    | Holds(op: Op, io: Io, world: W)
    | Raises(detail: string, io: Io, world: W)
    | Exits(code: int, mem: seq<byte>, io: Io, world: W)
    | Rests

  function Errno(mem: seq<byte>, errno: nat): Reply {
    Reply(errno, mem)
  }

  /** The pinned replacement of a call: the clocks stand still and entropy comes from the task. */
  function Pinned(hash: Sha256, seed: seq<byte>, call: Call, mem: seq<byte>, io: Io): (r: (Reply, Io))
    ensures r.1 == io.(drawn := r.1.drawn) && |r.0.mem| == |mem|
  {
    match call
    case ClockTimeGet(id, timePtr) =>
      if !InRange(mem, timePtr, 8) then (Errno(mem, ERRNO_FAULT), io)
      else
        var now := if id == CLOCKID_REALTIME then FIXED_REALTIME_NANOS else FIXED_MONOTONIC_NANOS;
        (Errno(Store(mem, timePtr, LittleEndian(now, 8)), ERRNO_SUCCESS), io)
    case ClockResGet(resPtr) =>
      if !InRange(mem, resPtr, 8) then (Errno(mem, ERRNO_FAULT), io)
      else (Errno(Store(mem, resPtr, LittleEndian(1, 8)), ERRNO_SUCCESS), io)
    case RandomGet(buf, len) =>
      if !InRange(mem, buf, len) then (Errno(mem, ERRNO_FAULT), io)
      else
        var bytes := Stream(hash, seed, io.drawn, len);
        (Errno(Store(mem, buf, bytes), ERRNO_SUCCESS), io.(drawn := io.drawn + len))
    case PollOneoff(events) =>
      if !InRange(mem, events, 4) then (Errno(mem, ERRNO_FAULT), io)
      else (Errno(Store(mem, events, LittleEndian(0, 4)), ERRNO_NOTSUP), io)
    case SchedYield => (Errno(mem, ERRNO_SUCCESS), io)
    case _ => (Errno(mem, ERRNO_NOTSUP), io)
  }

  /** The replacement of a call that a start section makes, before the guest's memory is known. */
  function PinnedUnready(call: Call): Reply {
    match call
    case ClockTimeGet(_, _) => Errno([], ERRNO_INVAL)
    case ClockResGet(_) => Errno([], ERRNO_INVAL)
    case RandomGet(_, _) => Errno([], ERRNO_INVAL)
    case PollOneoff(_) => Errno([], ERRNO_INVAL)
    case SchedYield => Errno([], ERRNO_SUCCESS)
    case _ => Errno([], ERRNO_NOTSUP)
  }

  /** Before the guest's memory is known nothing can be stored: refused, or nothing to do. */
  lemma UnreadyMeans(call: Call)
    ensures PinnedUnready(call).mem == []
    ensures PinnedUnready(call).errno
         == if call.SchedYield? then 0
            else if call.ClockTimeGet? || call.ClockResGet? || call.RandomGet? || call.PollOneoff?
                 then 28
            else 58
  {
  }

  /** The number a run of eight, or four, stored bytes denotes. */
  function Stored(mem: seq<byte>, at: int, width: nat): nat
    requires InRange(mem, at, width)
  {
    FromLittleEndian(mem[at..at + width])
  }

  /** Guest memory is the same everywhere else. */
  predicate SameOutside(a: seq<byte>, b: seq<byte>, at: int, length: int) {
    |a| == |b| && forall i :: 0 <= i < |a| && !(at <= i < at + length) ==> a[i] == b[i]
  }

  predicate ComesFromStream(bytes: seq<byte>, hash: Sha256, seed: seq<byte>, from: nat) {
    forall i :: 0 <= i < |bytes| ==> bytes[i] == StreamByte(hash, seed, from + i)
  }

  /** Answered with an errno, and nothing of the host's or the guest's touched. */
  predicate OnlySays(r: (Reply, Io), errno: nat, mem: seq<byte>, io: Io) {
    r.0.errno == errno && r.0.mem == mem && r.1 == io
  }

  /** What a guest finds in its memory and in its errno after a pinned call. */
  ghost predicate PinnedAs(hash: Sha256, seed: seq<byte>, call: Call, mem: seq<byte>, io: Io,
                           r: (Reply, Io))
  {
    match call
    case ClockTimeGet(id, timePtr) =>
      if 0 <= timePtr <= |mem| - 8 then
        && r.0.errno == 0 && r.1 == io && SameOutside(r.0.mem, mem, timePtr, 8)
        && Stored(r.0.mem, timePtr, 8) == if id == 0 then 1577836800000000000 else 0
      else OnlySays(r, 21, mem, io)
    case ClockResGet(resPtr) =>
      if 0 <= resPtr <= |mem| - 8 then
        && r.0.errno == 0 && r.1 == io && SameOutside(r.0.mem, mem, resPtr, 8)
        && Stored(r.0.mem, resPtr, 8) == 1
      else OnlySays(r, 21, mem, io)
    case RandomGet(buf, len) =>
      if 0 <= buf && 0 <= len && buf + len <= |mem| then
        && r.0.errno == 0 && r.1 == io.(drawn := io.drawn + len)
        && SameOutside(r.0.mem, mem, buf, len)
        && ComesFromStream(r.0.mem[buf..buf + len], hash, seed, io.drawn)
      else OnlySays(r, 21, mem, io)
    case PollOneoff(events) =>
      if 0 <= events <= |mem| - 4 then
        && r.0.errno == 58 && r.1 == io && SameOutside(r.0.mem, mem, events, 4)
        && Stored(r.0.mem, events, 4) == 0
      else OnlySays(r, 21, mem, io)
    case SchedYield => OnlySays(r, 0, mem, io)
    case _ => OnlySays(r, 58, mem, io)
  }

  lemma StoredNumber(mem: seq<byte>, at: int, value: nat, width: nat)
    requires InRange(mem, at, width) && value < Power256(width)
    ensures var after := Store(mem, at, LittleEndian(value, width));
      SameOutside(after, mem, at, width) && Stored(after, at, width) == value
  {
    hide LittleEndian, FromLittleEndian, Power256;
    LittleEndianRoundTrip(value, width);
  }

  lemma StoredStream(hash: Sha256, seed: seq<byte>, from: nat, mem: seq<byte>, at: int, length: nat)
    requires InRange(mem, at, length)
    ensures var after := Store(mem, at, Stream(hash, seed, from, length));
      SameOutside(after, mem, at, length)
      && ComesFromStream(after[at..at + length], hash, seed, from)
  {
    hide StreamByte;
  }

  lemma PinnedMeans(hash: Sha256, seed: seq<byte>, call: Call, mem: seq<byte>, io: Io)
    ensures PinnedAs(hash, seed, call, mem, io, Pinned(hash, seed, call, mem, io))
  {
    hide LittleEndian, FromLittleEndian, StreamByte, Stream, Store, Stored, Power256, SameOutside,
         ComesFromStream;
    EightBytesHold();
    match call
    case ClockTimeGet(id, timePtr) =>
      if InRange(mem, timePtr, 8) {
        StoredNumber(mem, timePtr, if id == 0 then 1577836800000000000 else 0, 8);
      }
    case ClockResGet(resPtr) =>
      if InRange(mem, resPtr, 8) {
        StoredNumber(mem, resPtr, 1, 8);
      }
    case RandomGet(buf, len) =>
      if InRange(mem, buf, len) {
        StoredStream(hash, seed, io.drawn, mem, buf, len);
      }
    case PollOneoff(events) =>
      if InRange(mem, events, 4) {
        StoredNumber(mem, events, 0, 4);
      }
    case _ =>
  }

  lemma EightBytesHold()
    ensures Power256(8) == 0x1_0000_0000_0000_0000 && Power256(4) == 0x1_0000_0000
  {
  }

  /** One use of a descriptor, on the values the three objects keep. */
  function Perform<W>(env: Env<W>, op: Op, io: Io): (Served, Io) {
    match op
    case Read(size) =>
      var data := Available(env.input, io.cursor, size);
      (Served(ERRNO_SUCCESS, data, |data|), io.(cursor := io.cursor + |data|))
    case WriteOut(data) =>
      if |io.out| + |data| > env.stdoutCap
      then (Served(ERRNO_NOSPC, [], 0), io.(overflowed := true))
      else (Served(ERRNO_SUCCESS, [], |data|), io.(out := io.out + data))
    case WriteErr(data) =>
      var keep := Min(Max(0, env.stderrCap - |io.err|), |data|);
      (Served(ERRNO_SUCCESS, [], |data|),
       io.(err := io.err + data[..keep], dropped := io.dropped + |data| - keep))
  }

  function FromShim<W>(move: ShimMove<W>, io: Io, world: W): HostMove<W> {
    match move
    case Uses(after, op) => Holds(op, io, after)
    case Gives(after, reply) => Replies(reply, io, after)
    case Throws(detail) => Raises(detail, io, world)
  }

  /** The host's move: a pinned answer, or whatever the shim makes of the call, a step at a time. */
  function HostTurn<S, W>(env: Env<W>, c: Config<S, W>): HostMove<W> {
    match c.phase
    case Waiting(state, mem, call) =>
      var counted := c.io.(calls := c.io.calls + 1);
      if call.ProcExit? then Exits(call.code, mem, counted, c.world)
      else if ImportName(call) in env.pins then
        var (reply, after) := Pinned(env.hash, env.seed, call, mem, counted);
        Replies(reply, after, c.world)
      else FromShim(env.shim.begin(c.world, call, mem), counted, c.world)
    case Serving(state, op) =>
      var (served, after) := Perform(env, op, c.io);
      FromShim(env.shim.resume(c.world, served), after, c.world)
    case _ => Rests
  }

  /** One step of host and guest. A run that is over stays as it is. */
  function Step<S, W>(env: Env<W>, guest: Guest<S>, c: Config<S, W>): Config<S, W> {
    match HostTurn(env, c)
    case Replies(reply, io, world) =>
      Config(PhaseOf(guest.resume(c.phase.state, reply)), io, world)
    case Holds(op, io, world) => Config(Serving(c.phase.state, op), io, world)
    case Raises(detail, io, world) => Config(Trapped(detail), io, world)
    case Exits(code, mem, io, world) => Config(Ended(code, mem), io, world)
    case Rests => c
  }

  /** What the guest is told in one step: an answer, or nothing yet. */
  function Heard<S, W>(env: Env<W>, c: Config<S, W>): seq<Reply> {
    match HostTurn(env, c)
    case Replies(reply, _, _) => [reply]
    case _ => []
  }

  /** Every answer the guest is given in the next `n` steps. */
  function Transcript<S, W>(env: Env<W>, guest: Guest<S>, c: Config<S, W>, n: nat): seq<Reply>
    decreases n
  {
    if n == 0 then [] else Heard(env, c) + Transcript(env, guest, Step(env, guest, c), n - 1)
  }

  function Steps<S, W>(env: Env<W>, guest: Guest<S>, c: Config<S, W>, n: nat): Config<S, W>
    decreases n
  {
    if n == 0 then c else Steps(env, guest, Step(env, guest, c), n - 1)
  }

  function Start<S, W>(guest: Guest<S>, world: W): Config<S, W> {
    Config(PhaseOf(guest.first), FRESH_IO, world)
  }

  // ---- who answers the guest -----------------------------------------------------------

  /** A call the executor answers itself. */
  predicate IsReplaced(call: Call) {
    !call.ProcExit? && !call.Other?
  }

  predicate IsReplacedName(name: string) {
    name == "clock_res_get" || name == "clock_time_get" || name == "poll_oneoff"
    || name == "proc_raise" || name == "random_get" || name == "sched_yield"
    || name == "sock_accept" || name == "sock_recv" || name == "sock_send"
    || name == "sock_shutdown"
  }

  lemma PinsAre(name: string)
    ensures name in PINNED_WASI_FUNCTIONS <==> IsReplacedName(name)
  {
  }

  /** Where a run begins, and what each first move of the guest makes of it. */
  predicate IsPhaseAfter<S(==)>(move: Move<S>, phase: Phase<S>) {
    match move
    case Asks(state, mem, call) => phase == Waiting(state, mem, call)
    case Returned(mem) => phase == Ended(0, mem)
    case Traps(detail) => phase == Trapped(detail)
  }

  lemma GuestMovesAreTaken<S>(move: Move<S>)
    ensures IsPhaseAfter(move, PhaseOf(move))
  {
  }

  /** The guest is told `reply` and goes on from there. */
  ghost predicate GoesOnWith<S, W>(
      env: Env<W>, guest: Guest<S>, c: Config<S, W>, state: S, reply: Reply, io: Io, world: W)
  {
    && Heard(env, c) == [reply]
    && IsPhaseAfter(guest.resume(state, reply), Step(env, guest, c).phase)
    && Step(env, guest, c).io == io && Step(env, guest, c).world == world
  }

  /** Every replaced call is answered here, as pinned, and the shim never hears of it. */
  lemma ReplacedCallsAreAnsweredHere<S, W>(env: Env<W>, guest: Guest<S>, c: Config<S, W>)
    requires env.pins == PINNED_WASI_FUNCTIONS && c.phase.Waiting? && IsReplaced(c.phase.call)
    ensures exists reply, after ::
      && PinnedAs(env.hash, env.seed, c.phase.call, c.phase.mem, c.io.(calls := c.io.calls + 1),
                  (reply, after))
      && GoesOnWith(env, guest, c, c.phase.state, reply, after, c.world)
  {
    hide Pinned, PinnedAs;
    var counted := c.io.(calls := c.io.calls + 1);
    var answer := Pinned(env.hash, env.seed, c.phase.call, c.phase.mem, counted);
    PinnedMeans(env.hash, env.seed, c.phase.call, c.phase.mem, counted);
    assert GoesOnWith(env, guest, c, c.phase.state, answer.0, answer.1, c.world);
    assert (answer.0, answer.1) == answer;
  }

  /** What the shim decides is what happens. */
  ghost predicate Follows<S, W>(
      env: Env<W>, guest: Guest<S>, c: Config<S, W>, state: S, move: ShimMove<W>, io: Io)
  {
    match move
    case Uses(world, op) =>
      Heard(env, c) == [] && Step(env, guest, c) == Config(Serving(state, op), io, world)
    case Gives(world, reply) => GoesOnWith(env, guest, c, state, reply, io, world)
    case Throws(detail) =>
      Heard(env, c) == [] && Step(env, guest, c) == Config(Trapped(detail), io, c.world)
  }

  /** Any other call is the shim's, and so is a descriptor's answer; an exit ends the run. */
  lemma OtherCallsAreTheShims<S, W>(env: Env<W>, guest: Guest<S>, c: Config<S, W>)
    requires env.pins == PINNED_WASI_FUNCTIONS
    ensures c.phase.Waiting? && c.phase.call.Other? && !IsReplacedName(c.phase.call.name) ==>
      Follows(env, guest, c, c.phase.state, env.shim.begin(c.world, c.phase.call, c.phase.mem),
              c.io.(calls := c.io.calls + 1))
    ensures c.phase.Serving? ==>
      var (served, io) := Perform(env, c.phase.op, c.io);
      Follows(env, guest, c, c.phase.state, env.shim.resume(c.world, served), io)
    ensures c.phase.Waiting? && c.phase.call.ProcExit? ==>
      && Heard(env, c) == [] && Step(env, guest, c).phase == Ended(c.phase.call.code, c.phase.mem)
      && Step(env, guest, c).io == c.io.(calls := c.io.calls + 1)
    ensures IsOver(c.phase) ==> Heard(env, c) == [] && Step(env, guest, c) == c
  {
    hide Pinned, Perform;
    if c.phase.Waiting? && c.phase.call.Other? {
      PinsAre(c.phase.call.name);
    }
  }

  /** How often the guest called the host in the next `n` steps. */
  function CallsMade<S, W>(env: Env<W>, guest: Guest<S>, c: Config<S, W>, n: nat): nat
    decreases n
  {
    if n == 0 then 0
    else (if c.phase.Waiting? then 1 else 0) + CallsMade(env, guest, Step(env, guest, c), n - 1)
  }

  lemma StepCountsTheCall<S, W>(env: Env<W>, guest: Guest<S>, c: Config<S, W>)
    ensures Step(env, guest, c).io.calls == c.io.calls + if c.phase.Waiting? then 1 else 0
  {
    hide Available;
  }

  /** Every call is counted once, whoever answers it, the last one included. */
  lemma {:induction false} CallsAreCounted<S, W>(
      env: Env<W>, guest: Guest<S>, c: Config<S, W>, n: nat)
    ensures Steps(env, guest, c, n).io.calls == c.io.calls + CallsMade(env, guest, c, n)
    decreases n
  {
    if n > 0 {
      hide Step;
      StepCountsTheCall(env, guest, c);
      CallsAreCounted(env, guest, Step(env, guest, c), n - 1);
    }
  }

  // ---- what the guest wrote, independently of what was kept ----------------------

  function OutWritten<S>(phase: Phase<S>): seq<byte> {
    if phase.Serving? && phase.op.WriteOut? then phase.op.data else []
  }

  function ErrWritten<S>(phase: Phase<S>): seq<byte> {
    if phase.Serving? && phase.op.WriteErr? then phase.op.data else []
  }

  /** Every byte the guest passed to stdout in the next `n` steps, whether accepted or not. */
  function StdoutText<S, W>(env: Env<W>, guest: Guest<S>, c: Config<S, W>, n: nat): seq<byte>
    decreases n
  {
    if n == 0 then [] else OutWritten(c.phase) + StdoutText(env, guest, Step(env, guest, c), n - 1)
  }

  function StderrText<S, W>(env: Env<W>, guest: Guest<S>, c: Config<S, W>, n: nat): seq<byte>
    decreases n
  {
    if n == 0 then [] else ErrWritten(c.phase) + StderrText(env, guest, Step(env, guest, c), n - 1)
  }

  lemma Reassociate(a: seq<byte>, b: seq<byte>, c: seq<byte>)
    ensures a + (b + c) == (a + b) + c
  {
  }

  predicate HeadOf(kept: seq<byte>, dropped: nat, text: seq<byte>, cap: nat) {
    |kept| + dropped == |text| && kept == text[..Min(cap, |text|)]
  }

  lemma HeadGrows(kept: seq<byte>, dropped: nat, text: seq<byte>, cap: nat, data: seq<byte>)
    requires HeadOf(kept, dropped, text, cap)
    ensures var keep := Min(Max(0, cap - |kept|), |data|);
      HeadOf(kept + data[..keep], dropped + |data| - keep, text + data, cap)
  {
  }

  lemma StepKeepsTheHead<S, W>(env: Env<W>, guest: Guest<S>, c: Config<S, W>, before: seq<byte>)
    requires HeadOf(c.io.err, c.io.dropped, before, env.stderrCap)
    ensures var io := Step(env, guest, c).io;
      HeadOf(io.err, io.dropped, before + ErrWritten(c.phase), env.stderrCap)
  {
    hide Pinned, Available, HeadOf;
    assert before + [] == before;
    HeadGrows(c.io.err, c.io.dropped, before, env.stderrCap, ErrWritten(c.phase));
    assert ErrWritten(c.phase) == [] ==> c.io.err + [] == c.io.err;
  }

  /** Stderr keeps exactly the first `min(cap, total)` bytes written and counts all the others. */
  lemma {:induction false} StderrKeepsTheHead<S, W>(
      env: Env<W>, guest: Guest<S>, c: Config<S, W>, n: nat, before: seq<byte>)
    requires HeadOf(c.io.err, c.io.dropped, before, env.stderrCap)
    ensures var io := Steps(env, guest, c, n).io;
      HeadOf(io.err, io.dropped, before + StderrText(env, guest, c, n), env.stderrCap)
    decreases n
  {
    if n == 0 {
      assert before + [] == before;
    } else {
      hide Step, HeadOf, ErrWritten;
      var next := Step(env, guest, c);
      var now := before + ErrWritten(c.phase);
      StepKeepsTheHead(env, guest, c, before);
      StderrKeepsTheHead(env, guest, next, n - 1, now);
      Reassociate(before, ErrWritten(c.phase), StderrText(env, guest, next, n - 1));
    }
  }

  /** A sink that never overflowed holds every byte the guest wrote; one that did holds less. */
  lemma {:induction false} StdoutIsAllOrOverflowed<S, W>(
      env: Env<W>, guest: Guest<S>, c: Config<S, W>, n: nat, before: seq<byte>)
    requires |c.io.out| <= env.stdoutCap
    requires !c.io.overflowed ==> c.io.out == before
    requires c.io.overflowed ==> |before| > env.stdoutCap
    ensures var io := Steps(env, guest, c, n).io;
      var text := before + StdoutText(env, guest, c, n);
      && |io.out| <= env.stdoutCap
      && (io.overflowed <==> |text| > env.stdoutCap)
      && (!io.overflowed ==> io.out == text)
    decreases n
  {
    hide Pinned, Available;
    if n == 0 {
      assert before + [] == before;
    } else {
      var next := Step(env, guest, c);
      var now := before + OutWritten(c.phase);
      StdoutIsAllOrOverflowed(env, guest, next, n - 1, now);
      Reassociate(before, OutWritten(c.phase), StdoutText(env, guest, next, n - 1));
    }
  }

  // ---- what the guest reads --------------------------------------------------------

  /** A read gives as much as was asked for and is left, and nothing only at the end. */
  lemma ReadsAreFull<W>(env: Env<W>, size: nat, io: Io)
    requires io.cursor <= |env.input|
    ensures var (served, after) := Perform(env, Read(size), io);
      && served.errno == 0 && served.count == |served.data|
      && |served.data| == Min(size, |env.input| - io.cursor)
      && served.data == env.input[io.cursor..io.cursor + |served.data|]
      && after == io.(cursor := io.cursor + |served.data|)
      && (size > 0 ==> (served.data == [] <==> io.cursor == |env.input|))
  {
  }

  /** What stdin hands over in one step. */
  function InRead<S, W>(env: Env<W>, c: Config<S, W>): seq<byte> {
    if c.phase.Serving? && c.phase.op.Read? then Perform(env, c.phase.op, c.io).0.data else []
  }

  /** Everything it hands over in the next `n` steps. */
  function StdinText<S, W>(env: Env<W>, guest: Guest<S>, c: Config<S, W>, n: nat): seq<byte>
    decreases n
  {
    if n == 0 then [] else InRead(env, c) + StdinText(env, guest, Step(env, guest, c), n - 1)
  }

  lemma StepReadsOn<S, W>(env: Env<W>, guest: Guest<S>, c: Config<S, W>)
    requires c.io.cursor <= |env.input|
    ensures var after := Step(env, guest, c).io.cursor;
      c.io.cursor <= after <= |env.input| && InRead(env, c) == env.input[c.io.cursor..after]
  {
    hide Pinned, Available;
    if c.phase.Serving? && c.phase.op.Read? {
      ReadsAreFull(env, c.phase.op.size, c.io);
    }
  }

  lemma SlicesMeet(s: seq<byte>, a: nat, b: nat, c: nat)
    requires a <= b <= c <= |s|
    ensures s[a..b] + s[b..c] == s[a..c]
  {
  }

  /** The reads of a run, end to end, are the input, from where it stood to where it stands. */
  lemma {:induction false} ReadsAreTheInput<S, W>(
      env: Env<W>, guest: Guest<S>, c: Config<S, W>, n: nat)
    requires c.io.cursor <= |env.input|
    ensures var after := Steps(env, guest, c, n).io.cursor;
      && c.io.cursor <= after <= |env.input|
      && StdinText(env, guest, c, n) == env.input[c.io.cursor..after]
    decreases n
  {
    if n > 0 {
      hide Step, InRead;
      var next := Step(env, guest, c);
      StepReadsOn(env, guest, c);
      ReadsAreTheInput(env, guest, next, n - 1);
      SlicesMeet(env.input, c.io.cursor, next.io.cursor, Steps(env, guest, next, n - 1).io.cursor);
    }
  }

  /** A write to stdout is taken whole, or refused whole with `ENOSPC`; one to stderr is taken. */
  lemma WritesAreWhole<W>(env: Env<W>, data: seq<byte>, io: Io)
    ensures var (served, after) := Perform(env, WriteOut(data), io);
      if |io.out| + |data| <= env.stdoutCap
      then served == Served(0, [], |data|) && after == io.(out := io.out + data)
      else served == Served(51, [], 0) && after == io.(overflowed := true)
    ensures var (served, after) := Perform(env, WriteErr(data), io);
      served == Served(0, [], |data|) && after.(err := io.err, dropped := io.dropped) == io
  {
  }

  // ---- pairs of runs -------------------------------------------------------------

  /** The same host state, but for what the host chose to retain of stderr. */
  predicate SameButStderr(a: Io, b: Io) {
    a.(err := [], dropped := 0) == b.(err := [], dropped := 0)
  }

  /** Which hidden state of one shim goes with which of the other: any relation a proof may need. */
  type Related<!W1, !W2> = (W1, W2) -> bool

  predicate IsLeftToShim(pins: set<string>, call: Call) {
    !call.ProcExit? && ImportName(call) !in pins
  }

  /**
   * Two shims agree on every call the table leaves to them: from related hidden states they do the
   * same with the descriptors and give the same answer, and go to related hidden states.
   */
  ghost predicate AgreeOutside<W1(!new), W2(!new)>(
      pins: set<string>, a: Shim<W1>, b: Shim<W2>, rel: Related<W1, W2>)
  {
    && (forall x, y, call, mem :: rel(x, y) && IsLeftToShim(pins, call) ==>
          SameMove(a.begin(x, call, mem), b.begin(y, call, mem), rel))
    && forall x, y, served :: rel(x, y) ==>
         SameMove(a.resume(x, served), b.resume(y, served), rel)
  }

  predicate SameMove<W1, W2>(a: ShimMove<W1>, b: ShimMove<W2>, rel: Related<W1, W2>) {
    match a
    case Uses(world, op) => b.Uses? && b.op == op && rel(world, b.world)
    case Gives(world, reply) => b.Gives? && b.reply == reply && rel(world, b.world)
    case Throws(detail) => b.Throws? && b.detail == detail
  }

  /** Two nodes given one task: their own shims, clocks, entropy and stderr caps. */
  ghost predicate SameTask<W1(!new), W2(!new)>(a: Env<W1>, b: Env<W2>, rel: Related<W1, W2>) {
    && a.input == b.input && a.hash == b.hash && a.seed == b.seed
    && a.stdoutCap == b.stdoutCap && a.pins == b.pins
    && AgreeOutside(a.pins, a.shim, b.shim, rel)
  }

  predicate InStep<S(==), W1, W2>(a: Config<S, W1>, b: Config<S, W2>, rel: Related<W1, W2>) {
    a.phase == b.phase && SameButStderr(a.io, b.io) && rel(a.world, b.world)
  }

  /** The host's moves on both sides: the same in everything a guest or a descriptor can tell. */
  predicate SameHostMove<W1, W2>(a: HostMove<W1>, b: HostMove<W2>, rel: Related<W1, W2>) {
    match a
    case Replies(reply, io, world) =>
      b.Replies? && b.reply == reply && SameButStderr(io, b.io) && rel(world, b.world)
    case Holds(op, io, world) =>
      b.Holds? && b.op == op && SameButStderr(io, b.io) && rel(world, b.world)
    case Raises(detail, io, world) =>
      b.Raises? && b.detail == detail && SameButStderr(io, b.io) && rel(world, b.world)
    case Exits(code, mem, io, world) =>
      b.Exits? && b.code == code && b.mem == mem && SameButStderr(io, b.io) && rel(world, b.world)
    case Rests => b.Rests?
  }

  lemma TurnsInStep<S, W1(!new), W2(!new)>(
      envA: Env<W1>, envB: Env<W2>, rel: Related<W1, W2>, a: Config<S, W1>, b: Config<S, W2>)
    requires SameTask(envA, envB, rel) && InStep(a, b, rel)
    ensures SameHostMove(HostTurn(envA, a), HostTurn(envB, b), rel)
  {
    hide Available, Pinned;
    if a.phase.Waiting? {
      var ioA, ioB := a.io.(calls := a.io.calls + 1), b.io.(calls := b.io.calls + 1);
      PinnedInStep(envA.hash, envA.seed, a.phase.call, a.phase.mem, ioA, ioB);
    }
  }

  /** One step: the same answer, if any, and both sides in step again. */
  lemma StepInStep<S, W1(!new), W2(!new)>(
      envA: Env<W1>, envB: Env<W2>, rel: Related<W1, W2>, guest: Guest<S>, a: Config<S, W1>,
      b: Config<S, W2>)
    requires SameTask(envA, envB, rel) && InStep(a, b, rel)
    ensures Heard(envA, a) == Heard(envB, b)
    ensures InStep(Step(envA, guest, a), Step(envB, guest, b), rel)
  {
    hide HostTurn, SameButStderr, SameTask;
    TurnsInStep(envA, envB, rel, a, b);
    if HostTurn(envA, a).Rests? {
      RestsOnlyWhenOver(envA, a);
      RestsOnlyWhenOver(envB, b);
    }
  }

  lemma RestsOnlyWhenOver<S, W>(env: Env<W>, c: Config<S, W>)
    ensures HostTurn(env, c).Rests? <==> IsOver(c.phase)
  {
    hide Pinned, Perform;
  }

  lemma PinnedInStep(hash: Sha256, seed: seq<byte>, call: Call, mem: seq<byte>, a: Io, b: Io)
    requires SameButStderr(a, b)
    ensures Pinned(hash, seed, call, mem, a).0 == Pinned(hash, seed, call, mem, b).0
    ensures SameButStderr(Pinned(hash, seed, call, mem, a).1, Pinned(hash, seed, call, mem, b).1)
  {
  }

  /** Host policy never reaches the guest: in lock step at every step, for ever. */
  lemma {:induction false} HostNeverLeaks<S, W1(!new), W2(!new)>(
      envA: Env<W1>, envB: Env<W2>, rel: Related<W1, W2>, guest: Guest<S>, a: Config<S, W1>,
      b: Config<S, W2>, n: nat)
    requires SameTask(envA, envB, rel) && InStep(a, b, rel)
    ensures Transcript(envA, guest, a, n) == Transcript(envB, guest, b, n)
    ensures InStep(Steps(envA, guest, a, n), Steps(envB, guest, b, n), rel)
    decreases n
  {
    hide Step, Heard, SameTask, InStep;
    if n > 0 {
      StepInStep(envA, envB, rel, guest, a, b);
      HostNeverLeaks(envA, envB, rel, guest, Step(envA, guest, a), Step(envB, guest, b), n - 1);
    }
  }

  /** Whatever its shim remembers, a host that keeps more or less of stderr is the same to its guest. */
  lemma StderrCapNeverLeaks<S, W(!new)>(
      env: Env<W>, guest: Guest<S>, c: Config<S, W>, n: nat, cap: nat)
    ensures Transcript(env, guest, c, n) == Transcript(env.(stderrCap := cap), guest, c, n)
    ensures var a, b := Steps(env, guest, c, n), Steps(env.(stderrCap := cap), guest, c, n);
      a.phase == b.phase && SameButStderr(a.io, b.io) && a.world == b.world
  {
    hide Steps, Transcript;
    HostNeverLeaks(env, env.(stderrCap := cap), (x: W, y: W) => x == y, guest, c, c, n);
  }

  lemma {:induction false} HaltedStays<S, W>(env: Env<W>, guest: Guest<S>, c: Config<S, W>, n: nat)
    requires IsOver(c.phase)
    ensures Steps(env, guest, c, n) == c
    decreases n
  {
    if n > 0 {
      HaltedStays(env, guest, c, n - 1);
    }
  }

  lemma {:induction false} StepsAdd<S, W>(
      env: Env<W>, guest: Guest<S>, c: Config<S, W>, m: nat, n: nat)
    ensures Steps(env, guest, c, m + n) == Steps(env, guest, Steps(env, guest, c, m), n)
    decreases m
  {
    if m > 0 {
      hide Step;
      StepsAdd(env, guest, Step(env, guest, c), m - 1, n);
    }
  }

  /** A run that is over at both deadlines is the same run. */
  lemma DeadlineIsIrrelevantOnceOver<S, W>(
      env: Env<W>, guest: Guest<S>, c: Config<S, W>, m: nat, n: nat)
    requires IsOver(Steps(env, guest, c, m).phase) && IsOver(Steps(env, guest, c, n).phase)
    ensures Steps(env, guest, c, m) == Steps(env, guest, c, n)
  {
    if m <= n {
      StepsAdd(env, guest, c, m, n - m);
      HaltedStays(env, guest, Steps(env, guest, c, m), n - m);
    } else {
      StepsAdd(env, guest, c, n, m - n);
      HaltedStays(env, guest, Steps(env, guest, c, n), m - n);
    }
  }

  lemma {:induction false} StdoutOnlyGrows<S, W>(
      env: Env<W>, guest: Guest<S>, c: Config<S, W>, n: nat)
    ensures var io := Steps(env, guest, c, n).io;
      |c.io.out| <= |io.out| && (c.io.overflowed ==> io.overflowed)
    decreases n
  {
    hide Pinned, Available;
    if n > 0 {
      StdoutOnlyGrows(env, guest, Step(env, guest, c), n - 1);
    }
  }

  lemma StepUnderCap<S, W>(env: Env<W>, guest: Guest<S>, c: Config<S, W>, cap: nat)
    requires var io := Step(env, guest, c).io; !io.overflowed && |io.out| <= cap
    ensures Step(env.(stdoutCap := cap), guest, c) == Step(env, guest, c)
  {
    hide Pinned, Available;
  }

  /** A run that never overflowed is step for step the run under any cap its output fits. */
  lemma {:induction false} CapIsInvisibleWhileItHolds<S, W>(
      env: Env<W>, guest: Guest<S>, c: Config<S, W>, n: nat, cap: nat)
    requires var io := Steps(env, guest, c, n).io; !io.overflowed && |io.out| <= cap
    ensures Steps(env.(stdoutCap := cap), guest, c, n) == Steps(env, guest, c, n)
    decreases n
  {
    hide Step;
    if n > 0 {
      var next := Step(env, guest, c);
      StdoutOnlyGrows(env, guest, next, n - 1);
      StepUnderCap(env, guest, c, cap);
      CapIsInvisibleWhileItHolds(env, guest, next, n - 1, cap);
    }
  }

  // ---- a shim that remembers -------------------------------------------------------

  datatype Descriptor = StdinFd | StdoutFd | StderrFd

  /** A clock that never stands still, the open descriptors, and a vectored call half done. */
  datatype Memory = Memory(
    ticks: nat, open: map<int, Descriptor>, mem: seq<byte>, left: seq<Op>)

  const ERRNO_BADF := 8

  /** The buffers a vectored write names, as addresses and lengths one after the other. */
  function Buffers(mem: seq<byte>, args: seq<int>, kind: Descriptor): seq<Op>
    decreases |args|
  {
    if |args| < 2 || !InRange(mem, args[0], args[1]) then []
    else
      var data := mem[args[0]..args[0] + args[1]];
      [if kind.StdoutFd? then WriteOut(data) else WriteErr(data)] + Buffers(mem, args[2..], kind)
  }

  function NextOp(world: Memory): ShimMove<Memory> {
    if world.left == [] then Gives(world, Reply(ERRNO_SUCCESS, world.mem))
    else Uses(world.(left := world.left[1..]), world.left[0])
  }

  /**
   * Closed descriptors stay closed, a renumbered one answers under its new number, a write goes
   * out buffer by buffer until one is refused, and the clock shows in what is to be replaced.
   */
  function TableBegin(world: Memory, call: Call, mem: seq<byte>): ShimMove<Memory> {
    var now := world.(ticks := world.ticks + 1, mem := mem);
    if ImportName(call) in PINNED_WASI_FUNCTIONS then Gives(now, Reply(world.ticks, mem))
    else if !call.Other? || |call.args| == 0 then Throws("missing argument")
    else if call.args[0] !in now.open then Gives(now, Reply(ERRNO_BADF, mem))
    else if call.name == "fd_close" then
      Gives(now.(open := now.open - {call.args[0]}), Reply(ERRNO_SUCCESS, mem))
    else if call.name == "fd_renumber" && |call.args| == 2 then
      Gives(now.(open := (now.open - {call.args[0]})[call.args[1] := now.open[call.args[0]]]),
            Reply(ERRNO_SUCCESS, mem))
    else if call.name == "fd_write" && !now.open[call.args[0]].StdinFd? then
      NextOp(now.(left := Buffers(mem, call.args[1..], now.open[call.args[0]])))
    else Gives(now, Reply(ERRNO_BADF, mem))
  }

  function TableResume(world: Memory, served: Served): ShimMove<Memory> {
    var now := world.(ticks := world.ticks + 1);
    if served.errno == ERRNO_SUCCESS then NextOp(now)
    else Gives(now.(left := []), Reply(served.errno, now.mem))
  }

  const TABLE_SHIM: Shim<Memory> := Shim(TableBegin, TableResume)

  /** The same but for the clock. */
  predicate SameButTicks(x: Memory, y: Memory) {
    x == y.(ticks := x.ticks)
  }

  lemma TableBeginsAlike(x: Memory, y: Memory, call: Call, mem: seq<byte>)
    requires SameButTicks(x, y) && IsLeftToShim(PINNED_WASI_FUNCTIONS, call)
    ensures SameMove(TableBegin(x, call, mem), TableBegin(y, call, mem), SameButTicks)
  {
    hide Buffers;
  }

  lemma TableResumesAlike(x: Memory, y: Memory, served: Served)
    requires SameButTicks(x, y)
    ensures SameMove(TableResume(x, served), TableResume(y, served), SameButTicks)
  {
  }

  /** Such a shim is covered: it agrees with itself whatever its clock shows. */
  lemma ShimsMayRemember()
    ensures AgreeOutside(PINNED_WASI_FUNCTIONS, TABLE_SHIM, TABLE_SHIM, SameButTicks)
  {
    hide TableBegin, TableResume, SameMove, SameButTicks;
    forall x, y, call, mem | SameButTicks(x, y) && IsLeftToShim(PINNED_WASI_FUNCTIONS, call)
      ensures SameMove(TableBegin(x, call, mem), TableBegin(y, call, mem), SameButTicks)
    {
      TableBeginsAlike(x, y, call, mem);
    }
    forall x, y, served | SameButTicks(x, y)
      ensures SameMove(TableResume(x, served), TableResume(y, served), SameButTicks)
    {
      TableResumesAlike(x, y, served);
    }
  }

  // ---- which imports have to be pinned -------------------------------------------

  /** A guest that asks one question and exits with the errno it got. */
  function TellTale(name: string): Guest<nat> {
    Guest(Asks(0, [], Other(name, [])),
          (state: nat, reply: Reply) => Asks(1, [], ProcExit(reply.errno)))
  }

  /** A shim that answers the functions this executor replaces out of its hidden state. */
  function MoodyShim(): Shim<nat> {
    Shim((world: nat, call: Call, mem: seq<byte>) =>
           Gives(world, Reply(if ImportName(call) in PINNED_WASI_FUNCTIONS then world else 0, mem)),
         (world: nat, served: Served) => Gives(world, Reply(served.errno, [])))
  }

  /**
   * Every entry of the table is needed: without it, two honest hosts whose shims differ only in
   * functions the executor replaces can end one guest with two different exit codes.
   */
  lemma EveryPinIsNeeded(name: string, env: Env<nat>)
    requires name in PINNED_WASI_FUNCTIONS && name !in env.pins && env.shim == MoodyShim()
    ensures AgreeOutside(PINNED_WASI_FUNCTIONS, env.shim, env.shim, (x: nat, y: nat) => true)
    ensures forall a: nat, b: nat :: a != b ==>
      Steps(env, TellTale(name), Start(TellTale(name), a), 2).phase
        != Steps(env, TellTale(name), Start(TellTale(name), b), 2).phase
  {
    forall a: nat, b: nat | a != b
      ensures Steps(env, TellTale(name), Start(TellTale(name), a), 2).phase
           != Steps(env, TellTale(name), Start(TellTale(name), b), 2).phase
    {
      TellTaleExitsWithTheMood(name, env, a);
      TellTaleExitsWithTheMood(name, env, b);
    }
  }

  lemma TellTaleExitsWithTheMood(name: string, env: Env<nat>, mood: nat)
    requires name in PINNED_WASI_FUNCTIONS && name !in env.pins && env.shim == MoodyShim()
    ensures Steps(env, TellTale(name), Start(TellTale(name), mood), 2).phase == Ended(mood, [])
  {
    hide Pinned;
    var guest := TellTale(name);
    var c1 := Step(env, guest, Start(guest, mood));
    assert c1.phase == Waiting(1, [], ProcExit(mood));
    assert Step(env, guest, c1).phase == Ended(mood, []);
    assert Steps(env, guest, Start(guest, mood), 2) == Steps(env, guest, c1, 1);
    assert Steps(env, guest, c1, 1) == Steps(env, guest, Step(env, guest, c1), 0);
  }
}
