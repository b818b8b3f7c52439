/**
 * `WasiExecutor.run`: preconditions, the run itself, and what its ending is called
 * (packages/aot/src/wasi-executor.ts, lines 245-270 and 803-943).
 */
module WasiExecutor {
  import opened Common
  import opened WasiHost
  import opened WasiRun

  const MAX_SAFE_INTEGER: int := 0x1F_FFFF_FFFF_FFFF
  const PAGE: nat := 65536

  /** CIDs are kept as the ASCII bytes of their text form. */
  datatype Task = Task(
    moduleCid: seq<byte>, inputCid: seq<byte>, partitionIndex: int, partitionCount: int)

  predicate IsShard(task: Task) {
    && -MAX_SAFE_INTEGER <= task.partitionIndex <= MAX_SAFE_INTEGER
    && -MAX_SAFE_INTEGER <= task.partitionCount <= MAX_SAFE_INTEGER
    && 1 <= task.partitionCount
    && 0 <= task.partitionIndex < task.partitionCount
  }

  // ---- the seed ------------------------------------------------------------------

  const BAR: byte := 124

  /** `o2/wasi/v1` */
  const DOMAIN: seq<byte> := [111, 50, 47, 119, 97, 115, 105, 47, 118, 49]

  function Decimal(n: nat): (r: seq<byte>)
    ensures |r| > 0 && forall i :: 0 <= i < |r| ==> 48 <= r[i] <= 57
  {
    if n < 10 then [48 + n] else Decimal(n / 10) + [48 + n % 10]
  }

  function TaskLabel(task: Task): seq<byte>
    requires IsShard(task)
  {
    DOMAIN + [BAR] + (task.moduleCid + [BAR] + (task.inputCid + [BAR]
      + (Decimal(task.partitionIndex) + [BAR] + Decimal(task.partitionCount))))
  }

  lemma {:induction false} DecimalIsInjective(m: nat, n: nat)
    requires Decimal(m) == Decimal(n)
    ensures m == n
    decreases m
  {
    var last := Decimal(m)[|Decimal(m)| - 1];
    if m >= 10 && n >= 10 {
      assert Decimal(m)[..|Decimal(m)| - 1] == Decimal(m / 10);
      assert Decimal(n)[..|Decimal(n)| - 1] == Decimal(n / 10);
      DecimalIsInjective(m / 10, n / 10);
      assert last == 48 + m % 10 && last == 48 + n % 10;
    }
  }

  /** A bar-free field followed by a bar can be read off the front in one way only. */
  lemma FieldIsReadOnce(a: seq<byte>, x: seq<byte>, b: seq<byte>, y: seq<byte>)
    requires BAR !in a && BAR !in b
    requires a + [BAR] + x == b + [BAR] + y
    ensures a == b && x == y
  {
    var whole := a + [BAR] + x;
    assert whole[|a|] == BAR && whole[|b|] == BAR;
    assert forall i :: 0 <= i < |a| ==> whole[i] == a[i];
    assert forall i :: 0 <= i < |b| ==> whole[i] == b[i];
    assert |a| == |b|;
    assert a == whole[..|a|] == b;
    assert x == whole[|a| + 1..] == y;
  }

  /** Every input to the result is in the label, and nothing else is. */
  lemma LabelIdentifiesTheTask(s: Task, t: Task)
    requires IsShard(s) && IsShard(t)
    requires BAR !in s.moduleCid && BAR !in s.inputCid
    requires BAR !in t.moduleCid && BAR !in t.inputCid
    ensures TaskLabel(s) == TaskLabel(t) <==> s == t
  {
    if TaskLabel(s) == TaskLabel(t) {
      hide Decimal;
      var s3 := Decimal(s.partitionIndex) + [BAR] + Decimal(s.partitionCount);
      var t3 := Decimal(t.partitionIndex) + [BAR] + Decimal(t.partitionCount);
      var s2, t2 := s.inputCid + [BAR] + s3, t.inputCid + [BAR] + t3;
      FieldIsReadOnce(DOMAIN, s.moduleCid + [BAR] + s2, DOMAIN, t.moduleCid + [BAR] + t2);
      FieldIsReadOnce(s.moduleCid, s2, t.moduleCid, t2);
      FieldIsReadOnce(s.inputCid, s3, t.inputCid, t3);
      FieldIsReadOnce(Decimal(s.partitionIndex), Decimal(s.partitionCount),
                      Decimal(t.partitionIndex), Decimal(t.partitionCount));
      DecimalIsInjective(s.partitionIndex, t.partitionIndex);
      DecimalIsInjective(s.partitionCount, t.partitionCount);
    }
  }

  /** The number a run of decimal digits denotes. */
  function NumberOf(digits: seq<byte>): int {
    if digits == [] then 0
    else 10 * NumberOf(digits[..|digits| - 1]) + (digits[|digits| - 1] as int - 48)
  }

  lemma {:induction false} DecimalDenotes(n: nat)
    ensures NumberOf(Decimal(n)) == n
  {
    var r := Decimal(n);
    if n >= 10 {
      DecimalDenotes(n / 10);
      assert r[..|r| - 1] == Decimal(n / 10);
    } else {
      assert r[..0] == [];
    }
  }

  /** The label's five fields, each behind a bar. */
  ghost predicate IsLabelOf(text: seq<byte>, task: Task) {
    exists index, count ::
      && NumberOf(index) == task.partitionIndex && NumberOf(count) == task.partitionCount
      && text == [111, 50, 47, 119, 97, 115, 105, 47, 118, 49] + [124]
                  + (task.moduleCid + [124] + (task.inputCid + [124] + (index + [124] + count)))
  }

  lemma LabelIsSpelledOut(task: Task)
    requires IsShard(task)
    ensures IsLabelOf(TaskLabel(task), task)
  {
    hide NumberOf, Decimal;
    DecimalDenotes(task.partitionIndex);
    DecimalDenotes(task.partitionCount);
  }

  // ---- outcomes ------------------------------------------------------------------

  datatype Failure =
    | ModuleMissing(cid: seq<byte>)
    | InputMissing(cid: seq<byte>)
    | InvalidShard(index: int, count: int)
    | InstantiationFailed(detail: string)
    | MissingExport(name: string)
    | Trap(detail: string, stderr: string, stderrDropped: nat)
    | NonzeroExit(code: int, stdoutBytes: nat, stderr: string, stderrDropped: nat)
    | OutputTooLarge(limit: nat)
    | NoOutput
    | NotDagCbor

  /** `Abandoned` is the Worker deadline: the run was still going when its steps ran out. */
  datatype Outcome<+V> =
    | Succeeded(value: V, inputBytes: nat, stdoutBytes: nat, stdinConsumed: nat, execMs: int,
                hostCalls: nat, peakMemoryPages: nat)
    | Failed(failure: Failure)
    | Abandoned

  /** What compiling and instantiating a module against the import namespace yields. */
  datatype Instance<!S> =
    | Uncompilable(detail: string)
    | Instantiated(hasMemory: bool, start: Option<Guest<S>>)

  /** One node: its blockstore, its limits, its shim, and the two runtimes it is built on. */
  datatype Node<!S, !W, !V> = Node(
    store: map<seq<byte>, seq<byte>>, maxOutputBytes: nat, stderrCap: nat, hash: Sha256,
    shim: Shim<W>, instantiate: seq<byte> -> Instance<S>, decode: seq<byte> -> Option<V>,
    textOf: seq<byte> -> string)

  function EnvFor<S, W, V>(node: Node<S, W, V>, task: Task): Env<W>
    requires IsShard(task) && task.inputCid in node.store
  {
    Env(node.store[task.inputCid], node.hash, node.hash(TaskLabel(task)), node.maxOutputBytes,
        node.stderrCap, PINNED_WASI_FUNCTIONS, node.shim)
  }

  /** What stops a task before its guest takes a single step. */
  function Preflight<S, W, V>(node: Node<S, W, V>, task: Task): Result<Guest<S>, Failure> {
    if !IsShard(task) then Err(InvalidShard(task.partitionIndex, task.partitionCount))
    else if task.moduleCid !in node.store then Err(ModuleMissing(task.moduleCid))
    else if task.inputCid !in node.store then Err(InputMissing(task.inputCid))
    else
      match node.instantiate(node.store[task.moduleCid])
      case Uncompilable(detail) => Err(InstantiationFailed(detail))
      case Instantiated(hasMemory, start) =>
        if !hasMemory then Err(MissingExport("memory"))
        else if start.None? then Err(MissingExport("_start"))
        else Ok(start.value)
  }

  /** What a run that stands at `c` is called. */
  function Conclude<S, W, V>(node: Node<S, W, V>, input: seq<byte>, c: Config<S, W>, execMs: int)
    : Outcome<V>
  {
    match c.phase
    case Waiting(_, _, _) => Abandoned
    case Serving(_, _) => Abandoned
    case Trapped(detail) => Failed(Trap(detail, node.textOf(c.io.err), c.io.dropped))
    case Ended(code, mem) =>
      if c.io.overflowed then Failed(OutputTooLarge(node.maxOutputBytes))
      else if code != 0 then
        Failed(NonzeroExit(code, |c.io.out|, node.textOf(c.io.err), c.io.dropped))
      else if c.io.out == [] then Failed(NoOutput)
      else
        match node.decode(c.io.out)
        case None => Failed(NotDagCbor)
        case Some(value) =>
          Succeeded(value, |input|, |c.io.out|, c.io.cursor, execMs, c.io.calls, |mem| / PAGE)
  }

  function FinalConfig<S, W, V>(node: Node<S, W, V>, task: Task, world: W, deadline: nat)
    : Config<S, W>
    requires Preflight(node, task).Ok?
  {
    var guest := Preflight(node, task).value;
    Steps(EnvFor(node, task), guest, Start(guest, world), deadline)
  }

  function OutcomeOf<S, W, V>(
      node: Node<S, W, V>, task: Task, world: W, deadline: nat, execMs: int): Outcome<V>
  {
    match Preflight(node, task)
    case Err(failure) => Failed(failure)
    case Ok(_) =>
      Conclude(node, node.store[task.inputCid], FinalConfig(node, task, world, deadline), execMs)
  }

  // ---- the executor --------------------------------------------------------------

  function IoOf(stdin: TaskStdin, stdout: CappedSink, stderr: DiagnosticSink,
                stream: SeededStream, calls: nat): Io
    requires stream.Valid()
    reads stdin, stdout, stderr, stream
  {
    Io(stdin.cursor, Concat(stdout.chunks), stdout.overflowed, Concat(stderr.chunks),
       stderr.dropped, stream.Drawn(), calls)
  }

  ghost predicate Wired<W>(env: Env<W>, stdin: TaskStdin, stdout: CappedSink,
                           stderr: DiagnosticSink, stream: SeededStream)
    reads stdin, stdout, stderr, stream
  {
    && stdin.Valid() && stdout.Valid() && stderr.Valid() && stream.Valid()
    && stdin.bytes == env.input && stdout.limit == env.stdoutCap && stderr.limit == env.stderrCap
    && stream.hash == env.hash && stream.seed == env.seed
  }

  /**
   * A pinned import, drawing entropy from the live stream object. While there is no memory yet
   * nothing is drawn and nothing stored.
   */
  method ServePinned<W>(env: Env<W>, stream: SeededStream, call: Call, memory: Option<seq<byte>>,
                        ghost io: Io)
    returns (reply: Reply)
    requires stream.Valid() && stream.hash == env.hash && stream.seed == env.seed
    requires io.drawn == stream.Drawn()
    modifies stream
    ensures stream.Valid()
    ensures (reply, io.(drawn := stream.Drawn())) ==
      match memory
      case None => (PinnedUnready(call), io)
      case Some(mem) => Pinned(env.hash, env.seed, call, mem, io)
  {
    hide LittleEndian, Stream, Store, SeededStream.Valid;
    var mem := memory.GetOr([]);
    match call
    case ClockTimeGet(id, timePtr) =>
      if memory.None? { return Errno([], ERRNO_INVAL); }
      if timePtr < 0 || timePtr + 8 > |mem| { return Errno(mem, ERRNO_FAULT); }
      var now := if id == CLOCKID_REALTIME then FIXED_REALTIME_NANOS else FIXED_MONOTONIC_NANOS;
      return Errno(Store(mem, timePtr, LittleEndian(now, 8)), ERRNO_SUCCESS);
    case ClockResGet(resPtr) =>
      if memory.None? { return Errno([], ERRNO_INVAL); }
      if resPtr < 0 || resPtr + 8 > |mem| { return Errno(mem, ERRNO_FAULT); }
      return Errno(Store(mem, resPtr, LittleEndian(1, 8)), ERRNO_SUCCESS);
    case RandomGet(buf, len) =>
      if memory.None? { return Errno([], ERRNO_INVAL); }
      if buf < 0 || len < 0 || buf + len > |mem| { return Errno(mem, ERRNO_FAULT); }
      var out := new byte[len];
      stream.Fill(out);
      return Errno(Store(mem, buf, out[..]), ERRNO_SUCCESS);
    case PollOneoff(events) =>
      if memory.None? { return Errno([], ERRNO_INVAL); }
      if events < 0 || events + 4 > |mem| { return Errno(mem, ERRNO_FAULT); }
      return Errno(Store(mem, events, LittleEndian(0, 4)), ERRNO_NOTSUP);
    case SchedYield =>
      return Errno(mem, ERRNO_SUCCESS);
    case _ =>
      return Errno(mem, ERRNO_NOTSUP);
  }

  /** One use of a descriptor object. */
  method Use<W>(env: Env<W>, stdin: TaskStdin, stdout: CappedSink, stderr: DiagnosticSink,
                stream: SeededStream, op: Op, ghost calls: nat)
    returns (served: Served)
    requires Wired(env, stdin, stdout, stderr, stream)
    modifies stdin, stdout, stderr
    ensures Wired(env, stdin, stdout, stderr, stream)
    ensures (served, IoOf(stdin, stdout, stderr, stream, calls))
         == Perform(env, op, old(IoOf(stdin, stdout, stderr, stream, calls)))
  {
    hide Available, SeededStream.Valid, SeededStream.Drawn;
    match op
    case Read(size) =>
      var data := stdin.FdRead(size);
      served := Served(ERRNO_SUCCESS, data, |data|);
    case WriteOut(data) =>
      var errno, written := stdout.FdWrite(data);
      served := Served(errno, [], written);
    case WriteErr(data) =>
      var errno, written := stderr.FdWrite(data);
      served := Served(errno, [], written);
  }

  /** The host's turn, taken by the live descriptors, the import table and the shim under it. */
  method Serve<S, W>(env: Env<W>, stdin: TaskStdin, stdout: CappedSink, stderr: DiagnosticSink,
                     stream: SeededStream, phase: Phase<S>, world: W, calls: nat)
    returns (move: HostMove<W>, calls': nat)
    requires Wired(env, stdin, stdout, stderr, stream)
    modifies stdin, stdout, stderr, stream
    ensures Wired(env, stdin, stdout, stderr, stream)
    ensures move == HostTurn(env,
              Config(phase, old(IoOf(stdin, stdout, stderr, stream, calls)), world))
    ensures move.Rests? ==> IsOver(phase)
    ensures !move.Rests? ==> move.io == IoOf(stdin, stdout, stderr, stream, calls')
  {
    hide Pinned, Perform, SeededStream.Valid, SeededStream.Drawn;
    calls' := calls;
    match phase
    case Waiting(state, mem, call) =>
      calls' := calls + 1;
      if call.ProcExit? {
        return Exits(call.code, mem, IoOf(stdin, stdout, stderr, stream, calls'), world), calls';
      }
      if ImportName(call) in env.pins {
        var reply := ServePinned(env, stream, call, Some(mem),
                                 IoOf(stdin, stdout, stderr, stream, calls'));
        return Replies(reply, IoOf(stdin, stdout, stderr, stream, calls'), world), calls';
      }
      move := FromShim(env.shim.begin(world, call, mem),
                       IoOf(stdin, stdout, stderr, stream, calls'), world);
    case Serving(state, op) =>
      var served := Use(env, stdin, stdout, stderr, stream, op, calls);
      move := FromShim(env.shim.resume(world, served),
                       IoOf(stdin, stdout, stderr, stream, calls'), world);
    case _ =>
      move := Rests;
  }

  /** The descriptors, the stream and the count a run is carried by, and where it stands. */
  method RunGuest<S, W>(env: Env<W>, guest: Guest<S>, world: W, deadline: nat)
    returns (phase: Phase<S>, stdin: TaskStdin, stdout: CappedSink, stderr: DiagnosticSink,
             stream: SeededStream, calls: nat, worldAfter: W)
    ensures Wired(env, stdin, stdout, stderr, stream)
    ensures Config(phase, IoOf(stdin, stdout, stderr, stream, calls), worldAfter)
         == Steps(env, guest, Start(guest, world), deadline)
  {
    hide HostTurn, SeededStream.Valid, SeededStream.Drawn;
    stdin := new TaskStdin(env.input);
    stdout := new CappedSink(env.stdoutCap);
    stderr := new DiagnosticSink(env.stderrCap);
    stream := new SeededStream(env.hash, env.seed);
    phase, calls, worldAfter := PhaseOf(guest.first), 0, world;
    var left := deadline;
    while left > 0 && !IsOver(phase)
      invariant fresh(stdin) && fresh(stdout) && fresh(stderr) && fresh(stream)
      invariant Wired(env, stdin, stdout, stderr, stream)
      invariant Steps(env, guest, Start(guest, world), deadline)
             == Steps(env, guest,
                  Config(phase, IoOf(stdin, stdout, stderr, stream, calls), worldAfter), left)
    {
      var move;
      move, calls := Serve(env, stdin, stdout, stderr, stream, phase, worldAfter, calls);
      match move {
        case Replies(reply, _, after) =>
          phase, worldAfter := PhaseOf(guest.resume(phase.state, reply)), after;
        case Holds(op, _, after) =>
          phase, worldAfter := Serving(phase.state, op), after;
        case Raises(detail, _, after) =>
          phase, worldAfter := Trapped(detail), after;
        case Exits(code, mem, _, after) =>
          phase, worldAfter := Ended(code, mem), after;
      }
      left := left - 1;
    }
    HaltedOrDone(env, guest,
                 Config(phase, IoOf(stdin, stdout, stderr, stream, calls), worldAfter), left);
  }

  lemma HaltedOrDone<S, W>(env: Env<W>, guest: Guest<S>, c: Config<S, W>, n: nat)
    requires n == 0 || IsOver(c.phase)
    ensures Steps(env, guest, c, n) == c
  {
    if n > 0 {
      HaltedStays(env, guest, c, n);
    }
  }

  /** `started` and `ended` are the host's own clock either side of the guest. */
  method Run<S, W, V>(node: Node<S, W, V>, task: Task, world: W, deadline: nat,
                      started: int, ended: int)
    returns (outcome: Outcome<V>)
    ensures outcome == OutcomeOf(node, task, world, deadline, ended - started)
  {
    hide Steps;
    if !IsShard(task) {
      return Failed(InvalidShard(task.partitionIndex, task.partitionCount));
    }
    if task.moduleCid !in node.store {
      return Failed(ModuleMissing(task.moduleCid));
    }
    if task.inputCid !in node.store {
      return Failed(InputMissing(task.inputCid));
    }
    var instance := node.instantiate(node.store[task.moduleCid]);
    if instance.Uncompilable? {
      return Failed(InstantiationFailed(instance.detail));
    }
    if !instance.hasMemory {
      return Failed(MissingExport("memory"));
    }
    if instance.start.None? {
      return Failed(MissingExport("_start"));
    }
    var phase, stdin, stdout, stderr, stream, calls, worldAfter :=
      RunGuest(EnvFor(node, task), instance.start.value, world, deadline);
    if !IsOver(phase) {
      return Abandoned;
    }
    if phase.Trapped? {
      var text := stderr.Text(node.textOf);
      return Failed(Trap(phase.detail, text, stderr.dropped));
    }
    if stdout.overflowed {
      return Failed(OutputTooLarge(node.maxOutputBytes));
    }
    if phase.code != 0 {
      var text := stderr.Text(node.textOf);
      return Failed(NonzeroExit(phase.code, stdout.length, text, stderr.dropped));
    }
    var output := stdout.Bytes();
    if |output| == 0 {
      return Failed(NoOutput);
    }
    var decoded := node.decode(output);
    if decoded.None? {
      return Failed(NotDagCbor);
    }
    return Succeeded(decoded.value, |stdin.bytes|, |output|, stdin.cursor, ended - started,
                     calls, |phase.mem| / PAGE);
  }

  // ---- what the outcome promises -------------------------------------------------

  /** Every byte the task's guest passed to stdout up to the deadline. */
  function Written<S, W, V>(node: Node<S, W, V>, task: Task, world: W, deadline: nat): seq<byte>
    requires Preflight(node, task).Ok?
  {
    var guest := Preflight(node, task).value;
    StdoutText(EnvFor(node, task), guest, Start(guest, world), deadline)
  }

  /** Every byte it passed to stderr. */
  function Complained<S, W, V>(node: Node<S, W, V>, task: Task, world: W, deadline: nat): seq<byte>
    requires Preflight(node, task).Ok?
  {
    var guest := Preflight(node, task).value;
    StderrText(EnvFor(node, task), guest, Start(guest, world), deadline)
  }

  /**
   * A task succeeds exactly when its guest ended with status 0 having written something that
   * fits the cap and decodes, and the value is then decoded from every byte it wrote.
   */
  lemma SuccessIsTheWholeOutput<S, W, V>(
      node: Node<S, W, V>, task: Task, world: W, deadline: nat, execMs: int)
    ensures var o := OutcomeOf(node, task, world, deadline, execMs);
      o.Succeeded? <==>
        && Preflight(node, task).Ok?
        && var text := Written(node, task, world, deadline);
           var phase := FinalConfig(node, task, world, deadline).phase;
        && phase.Ended? && phase.code == 0
        && 0 < |text| <= node.maxOutputBytes && node.decode(text).Some?
    ensures var o := OutcomeOf(node, task, world, deadline, execMs);
      o.Succeeded? ==>
        var text := Written(node, task, world, deadline);
        node.decode(text) == Some(o.value) && o.stdoutBytes == |text|
  {
    hide Steps, StdoutText;
    if Preflight(node, task).Ok? {
      var guest := Preflight(node, task).value;
      StdoutIsAllOrOverflowed(EnvFor(node, task), guest, Start(guest, world), deadline, []);
      assert [] + Written(node, task, world, deadline) == Written(node, task, world, deadline);
    }
  }

  /**
   * The cap is blamed exactly when the guest ended, whatever its status, having written more. A
   * guest that traps after a refused write is blamed for the trap.
   */
  lemma OverflowIsReportedAsTheHosts<S, W, V>(
      node: Node<S, W, V>, task: Task, world: W, deadline: nat, execMs: int)
    ensures OutcomeOf(node, task, world, deadline, execMs)
              == Failed(OutputTooLarge(node.maxOutputBytes))
      <==> && Preflight(node, task).Ok?
           && FinalConfig(node, task, world, deadline).phase.Ended?
           && |Written(node, task, world, deadline)| > node.maxOutputBytes
  {
    hide Steps, StdoutText;
    if Preflight(node, task).Ok? {
      var guest := Preflight(node, task).value;
      StdoutIsAllOrOverflowed(EnvFor(node, task), guest, Start(guest, world), deadline, []);
      assert [] + Written(node, task, world, deadline) == Written(node, task, world, deadline);
    }
  }

  /** A diagnostic is the head of what was written, with the number of bytes it is missing. */
  lemma DiagnosticsKeepTheHead<S, W, V>(
      node: Node<S, W, V>, task: Task, world: W, deadline: nat, execMs: int)
    ensures var o := OutcomeOf(node, task, world, deadline, execMs);
      o.Failed? && (o.failure.Trap? || o.failure.NonzeroExit?) ==>
        && Preflight(node, task).Ok?
        && var text := Complained(node, task, world, deadline);
           var kept := Min(node.stderrCap, |text|);
        && o.failure.stderr == node.textOf(text[..kept]) && o.failure.stderrDropped == |text| - kept
  {
    hide Steps, StderrText;
    if Preflight(node, task).Ok? {
      var guest := Preflight(node, task).value;
      NothingYet(node.stderrCap);
      StderrKeepsTheHead(EnvFor(node, task), guest, Start(guest, world), deadline, []);
      assert [] + Complained(node, task, world, deadline)
          == Complained(node, task, world, deadline);
    }
  }

  lemma NothingYet(cap: nat)
    ensures HeadOf([], 0, [], cap)
  {
  }

  /** Every byte stdin handed over. */
  function Consumed<S, W, V>(node: Node<S, W, V>, task: Task, world: W, deadline: nat): seq<byte>
    requires Preflight(node, task).Ok?
  {
    var guest := Preflight(node, task).value;
    StdinText(EnvFor(node, task), guest, Start(guest, world), deadline)
  }

  /** What a success reports of its input is what its guest read of it. */
  lemma ConsumptionIsWhatWasRead<S, W, V>(
      node: Node<S, W, V>, task: Task, world: W, deadline: nat, execMs: int)
    requires OutcomeOf(node, task, world, deadline, execMs).Succeeded?
    ensures var o := OutcomeOf(node, task, world, deadline, execMs);
      var input, read := node.store[task.inputCid], Consumed(node, task, world, deadline);
      o.inputBytes == |input| && o.stdinConsumed == |read| && read <= input && o.execMs == execMs
  {
    hide Steps, StdinText;
    var guest := Preflight(node, task).value;
    ReadsAreTheInput(EnvFor(node, task), guest, Start(guest, world), deadline);
  }

  /** And what it reports of its cost: every host call, and the whole pages of its memory. */
  lemma CostIsWhatWasUsed<S, W, V>(
      node: Node<S, W, V>, task: Task, world: W, deadline: nat, execMs: int)
    requires OutcomeOf(node, task, world, deadline, execMs).Succeeded?
    ensures var o := OutcomeOf(node, task, world, deadline, execMs);
      var guest, phase := Preflight(node, task).value, FinalConfig(node, task, world, deadline).phase;
      && o.hostCalls == CallsMade(EnvFor(node, task), guest, Start(guest, world), deadline)
      && phase.Ended? && o.peakMemoryPages * 65536 <= |phase.mem| < (o.peakMemoryPages + 1) * 65536
  {
    hide Steps, CallsMade;
    var guest := Preflight(node, task).value;
    CallsAreCounted(EnvFor(node, task), guest, Start(guest, world), deadline);
  }

  /** What a task runs on: its own input, and entropy that is its own and nobody else's. */
  lemma EntropyIsTheTasks<S, W, V>(
      node: Node<S, W, V>, task: Task, guest: Guest<S>, c: Config<S, W>, buf: int, len: int)
    requires IsShard(task) && task.inputCid in node.store
    requires c.phase.Waiting? && c.phase.call == RandomGet(buf, len)
    requires 0 <= buf && 0 <= len && buf + len <= |c.phase.mem|
    ensures EnvFor(node, task).input == node.store[task.inputCid]
    ensures exists text, reply ::
      && IsLabelOf(text, task) && Heard(EnvFor(node, task), c) == [reply]
      && |reply.mem| == |c.phase.mem|
      && ComesFromStream(reply.mem[buf..buf + len], node.hash, node.hash(text), c.io.drawn)
  {
    hide IsLabelOf, ComesFromStream, TaskLabel, Step, Pinned, HostTurn;
    LabelIsSpelledOut(task);
    var env := EnvFor(node, task);
    ReplacedCallsAreAnsweredHere(env, guest, c);
    var reply, after :|
      PinnedAs(env.hash, env.seed, c.phase.call, c.phase.mem, c.io.(calls := c.io.calls + 1),
               (reply, after))
      && GoesOnWith(env, guest, c, c.phase.state, reply, after, c.world);
    assert IsLabelOf(TaskLabel(task), task) && Heard(env, c) == [reply];
  }

  /** Why a task never starts: the first of these that is so, and only one of these. */
  lemma WhatStopsATask<S, W, V>(
      node: Node<S, W, V>, task: Task, world: W, deadline: nat, execMs: int)
    ensures var o := OutcomeOf(node, task, world, deadline, execMs);
      var shard := 0 <= task.partitionIndex < task.partitionCount <= 0x1F_FFFF_FFFF_FFFF;
      && (!shard <==> o == Failed(InvalidShard(task.partitionIndex, task.partitionCount)))
      && (shard && task.moduleCid !in node.store <==> o == Failed(ModuleMissing(task.moduleCid)))
      && (o == Failed(InputMissing(task.inputCid)) <==>
            shard && task.moduleCid in node.store && task.inputCid !in node.store)
  {
    hide Steps;
  }

  lemma WhatStopsAModule<S, W, V>(
      node: Node<S, W, V>, task: Task, world: W, deadline: nat, execMs: int)
    requires IsShard(task) && task.moduleCid in node.store && task.inputCid in node.store
    ensures var o := OutcomeOf(node, task, world, deadline, execMs);
      var instance := node.instantiate(node.store[task.moduleCid]);
      && (instance.Uncompilable? ==> o == Failed(InstantiationFailed(instance.detail)))
      && (instance.Instantiated? && !instance.hasMemory ==> o == Failed(MissingExport("memory")))
      && (instance.Instantiated? && instance.hasMemory && instance.start == None ==>
            o == Failed(MissingExport("_start")))
      && (Preflight(node, task).Ok? <==>
            instance.Instantiated? && instance.hasMemory && instance.start.Some?)
  {
    hide Steps;
  }

  /** What the other endings are called, in terms of what the guest wrote and how it ended. */
  lemma EndingsAreNamed<S, W, V>(
      node: Node<S, W, V>, task: Task, world: W, deadline: nat, execMs: int)
    requires Preflight(node, task).Ok?
    ensures var o := OutcomeOf(node, task, world, deadline, execMs);
      var phase := FinalConfig(node, task, world, deadline).phase;
      var text := Written(node, task, world, deadline);
      && (!IsOver(phase) <==> o.Abandoned?)
      && (phase.Trapped? <==> o.Failed? && o.failure.Trap?)
      && (phase.Trapped? ==> o.failure.detail == phase.detail)
      && (o.Failed? && o.failure.NonzeroExit? <==>
            phase.Ended? && |text| <= node.maxOutputBytes && phase.code != 0)
      && (o.Failed? && o.failure.NonzeroExit? ==>
            o.failure.code == phase.code && o.failure.stdoutBytes == |text|)
      && (phase.Ended? && phase.code == 0 && text == [] <==> o == Failed(NoOutput))
      && (o == Failed(NotDagCbor) <==>
            && phase.Ended? && phase.code == 0 && 0 < |text| <= node.maxOutputBytes
            && node.decode(text) == None)
  {
    hide Steps, StdoutText;
    var guest := Preflight(node, task).value;
    StdoutIsAllOrOverflowed(EnvFor(node, task), guest, Start(guest, world), deadline, []);
    assert [] + Written(node, task, world, deadline) == Written(node, task, world, deadline);
  }

  /** Two nodes a task can land on: everything that is the host's own may differ. */
  ghost predicate Peers<S, W1(!new), W2(!new), V>(
      a: Node<S, W1, V>, b: Node<S, W2, V>, rel: Related<W1, W2>)
  {
    && a.store == b.store && a.hash == b.hash
    && a.instantiate == b.instantiate && a.decode == b.decode
    && AgreeOutside(PINNED_WASI_FUNCTIONS, a.shim, b.shim, rel)
  }

  predicate SameFailure(a: Failure, b: Failure) {
    match a
    case Trap(detail, _, _) => b.Trap? && b.detail == detail
    case NonzeroExit(code, bytes, _, _) =>
      b.NonzeroExit? && b.code == code && b.stdoutBytes == bytes
    case _ => a == b
  }

  /** Equal in everything but the host's own clock and the stderr it chose to keep. */
  predicate SameOutcome<V(==)>(a: Outcome<V>, b: Outcome<V>) {
    match a
    case Succeeded(value, inputBytes, stdoutBytes, consumed, _, calls, pages) =>
      b.Succeeded? && b == Succeeded(value, inputBytes, stdoutBytes, consumed, b.execMs, calls, pages)
    case Failed(failure) => b.Failed? && SameFailure(failure, b.failure)
    case Abandoned => b.Abandoned?
  }

  lemma SameStepsSameOutcome<S, W1(!new), W2(!new), V>(
      a: Node<S, W1, V>, b: Node<S, W2, V>, rel: Related<W1, W2>, task: Task, worldA: W1,
      worldB: W2, deadline: nat, msA: int, msB: int)
    requires Peers(a, b, rel) && rel(worldA, worldB) && a.maxOutputBytes == b.maxOutputBytes
    ensures SameOutcome(OutcomeOf(a, task, worldA, deadline, msA),
                        OutcomeOf(b, task, worldB, deadline, msB))
  {
    hide Steps;
    if Preflight(a, task).Ok? {
      var guest := Preflight(a, task).value;
      HostNeverLeaks(EnvFor(a, task), EnvFor(b, task), rel, guest, Start(guest, worldA),
                     Start(guest, worldB), deadline);
    }
  }

  /**
   * Two nodes with one output cap, whose shims agree from where they start, report the same outcome
   * for one task, success or failure, whatever their clocks, entropy, stderr caps and deadlines,
   * unless one gives the run up before it is over.
   */
  lemma HostPolicyNeverReachesTheOutcome<S, W1(!new), W2(!new), V>(
      a: Node<S, W1, V>, b: Node<S, W2, V>, rel: Related<W1, W2>, task: Task, worldA: W1,
      worldB: W2, deadlineA: nat, deadlineB: nat, msA: int, msB: int)
    requires Peers(a, b, rel) && rel(worldA, worldB) && a.maxOutputBytes == b.maxOutputBytes
    requires deadlineA == deadlineB
          || (!OutcomeOf(a, task, worldA, deadlineA, msA).Abandoned?
              && !OutcomeOf(b, task, worldB, deadlineB, msB).Abandoned?)
    ensures SameOutcome(OutcomeOf(a, task, worldA, deadlineA, msA),
                        OutcomeOf(b, task, worldB, deadlineB, msB))
  {
    hide Steps, OutcomeOf;
    var late := Max(deadlineA, deadlineB);
    if deadlineA != deadlineB {
      LaterIsTheSame(a, task, worldA, deadlineA, late, msA);
      LaterIsTheSame(b, task, worldB, deadlineB, late, msB);
    }
    SameStepsSameOutcome(a, b, rel, task, worldA, worldB, late, msA, msB);
  }

  /** On one node, with any shim, how much of stderr it keeps and how fast it is change no outcome. */
  lemma DiagnosticsCapNeverReachesTheOutcome<S, W(!new), V>(
      node: Node<S, W, V>, cap: nat, task: Task, world: W, deadlineA: nat, deadlineB: nat,
      msA: int, msB: int)
    requires deadlineA == deadlineB
          || (!OutcomeOf(node, task, world, deadlineA, msA).Abandoned?
              && !OutcomeOf(node.(stderrCap := cap), task, world, deadlineB, msB).Abandoned?)
    ensures SameOutcome(OutcomeOf(node, task, world, deadlineA, msA),
                        OutcomeOf(node.(stderrCap := cap), task, world, deadlineB, msB))
  {
    hide Steps, OutcomeOf;
    HostPolicyNeverReachesTheOutcome(node, node.(stderrCap := cap), (x: W, y: W) => x == y, task,
                                     world, world, deadlineA, deadlineB, msA, msB);
  }

  /** With another node's output cap instead of its own. */
  function WithCap<S, W, V>(node: Node<S, W, V>, cap: nat): Node<S, W, V> {
    node.(maxOutputBytes := cap)
  }

  /**
   * A run that succeeds under one output cap succeeds, identically, under exactly the caps its
   * output fits, larger or smaller; under every other cap it fails or is abandoned.
   */
  lemma CapOnlyDecidesWhetherItFits<S, W, V>(
      node: Node<S, W, V>, task: Task, world: W, deadline: nat, execMs: int, cap: nat)
    requires OutcomeOf(node, task, world, deadline, execMs).Succeeded?
    ensures var o := OutcomeOf(node, task, world, deadline, execMs);
      var other := OutcomeOf(WithCap(node, cap), task, world, deadline, execMs);
      && (o.stdoutBytes <= cap ==> other == o)
      && (o.stdoutBytes > cap ==> !other.Succeeded?)
  {
    hide Steps, StdoutText;
    var o := OutcomeOf(node, task, world, deadline, execMs);
    var guest := Preflight(node, task).value;
    var env := EnvFor(node, task);
    assert EnvFor(WithCap(node, cap), task) == env.(stdoutCap := cap);
    assert env.(stdoutCap := cap).(stdoutCap := node.maxOutputBytes) == env;
    SuccessIsTheWholeOutput(node, task, world, deadline, execMs);
    if o.stdoutBytes <= cap {
      CapIsInvisibleWhileItHolds(env, guest, Start(guest, world), deadline, cap);
    } else if OutcomeOf(WithCap(node, cap), task, world, deadline, execMs).Succeeded? {
      SuccessIsTheWholeOutput(WithCap(node, cap), task, world, deadline, execMs);
      StdoutIsAllOrOverflowed(env.(stdoutCap := cap), guest, Start(guest, world), deadline, []);
      CapIsInvisibleWhileItHolds(env.(stdoutCap := cap), guest, Start(guest, world), deadline,
                                 node.maxOutputBytes);
    }
  }

  /** Whatever their caps, clocks and deadlines, no two honest nodes succeed and disagree. */
  lemma TwoSuccessesAgree<S, W1(!new), W2(!new), V>(
      a: Node<S, W1, V>, b: Node<S, W2, V>, rel: Related<W1, W2>, task: Task, worldA: W1,
      worldB: W2, deadlineA: nat, deadlineB: nat, msA: int, msB: int)
    requires Peers(a, b, rel) && rel(worldA, worldB)
    requires OutcomeOf(a, task, worldA, deadlineA, msA).Succeeded?
    requires OutcomeOf(b, task, worldB, deadlineB, msB).Succeeded?
    ensures SameOutcome(OutcomeOf(a, task, worldA, deadlineA, msA),
                        OutcomeOf(b, task, worldB, deadlineB, msB))
  {
    hide Steps;
    var cap := Max(a.maxOutputBytes, b.maxOutputBytes);
    var a', b' := WithCap(a, cap), WithCap(b, cap);
    SuccessIsTheWholeOutput(a, task, worldA, deadlineA, msA);
    SuccessIsTheWholeOutput(b, task, worldB, deadlineB, msB);
    CapOnlyDecidesWhetherItFits(a, task, worldA, deadlineA, msA, cap);
    CapOnlyDecidesWhetherItFits(b, task, worldB, deadlineB, msB, cap);
    HostPolicyNeverReachesTheOutcome(a', b', rel, task, worldA, worldB, deadlineA, deadlineB, msA,
                                     msB);
  }

  lemma LaterIsTheSame<S, W, V>(
      node: Node<S, W, V>, task: Task, world: W, soon: nat, late: nat, execMs: int)
    requires soon <= late && !OutcomeOf(node, task, world, soon, execMs).Abandoned?
    ensures OutcomeOf(node, task, world, late, execMs) == OutcomeOf(node, task, world, soon, execMs)
  {
    hide Steps;
    if Preflight(node, task).Ok? {
      var guest := Preflight(node, task).value;
      var env := EnvFor(node, task);
      StepsAdd(env, guest, Start(guest, world), soon, late - soon);
      HaltedStays(env, guest, Steps(env, guest, Start(guest, world), soon), late - soon);
    }
  }
}
