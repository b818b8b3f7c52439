/**
 * The docker gate over arbitrary client outcomes and an arbitrary monotone clock
 * (tools/aot/docker-gate.ts).
 */
module DockerGate {
  import opened Common

  const DOCKER_NOT_THERE_CODES: set<string> := {"ENOENT", "EACCES"}
  const HOST_EXHAUSTION_CODES: set<string> := {"EAGAIN", "EMFILE", "ENFILE", "ENOMEM"}
  const COULD_NOT_ASK_ATTEMPTS: nat := 4

  /** What one run of the client left behind. */
  datatype Probe = Probe(status: Option<int>, errno: Option<string>, stdout: string)

  datatype Reach =
    | DaemonAnswering(serverOs: string)
    | DaemonUnreachable
    | DockerAbsent
    | Undetermined(code: string)

  datatype Gate =
    | ImagePresent(image: string)
    | ImageAbsent(image: string)
    | GateUnreachable
    | GateDockerAbsent
    | GateUndetermined(code: string)

  function ClassifyReach(p: Probe): Reach {
    match p.errno
    case Some(errno) =>
      if errno in DOCKER_NOT_THERE_CODES then DockerAbsent
      else if errno == "ETIMEDOUT" then DaemonUnreachable
      else Undetermined(errno)
    case None => if p.status == Some(0) then DaemonAnswering(p.stdout) else DaemonUnreachable
  }

  function Carry(reach: Reach, whenAnswering: Gate): Gate {
    match reach
    case DaemonAnswering(_) => whenAnswering
    case DaemonUnreachable => GateUnreachable
    case DockerAbsent => GateDockerAbsent
    case Undetermined(code) => GateUndetermined(code)
  }

  /** Whether an inspect outcome has to be read together with a second reach probe. */
  predicate NeedsDaemonAfter(inspect: Probe) {
    match inspect.errno
    case Some(errno) => errno !in DOCKER_NOT_THERE_CODES && errno !in HOST_EXHAUSTION_CODES
    case None => inspect.status != Some(0)
  }

  function ClassifyImageProbe(image: string, inspect: Probe, daemonAfter: Reach): Gate {
    match inspect.errno
    case Some(errno) =>
      if errno in DOCKER_NOT_THERE_CODES then GateDockerAbsent
      else if errno in HOST_EXHAUSTION_CODES then GateUndetermined(errno)
      else Carry(daemonAfter, GateUndetermined(errno))
    case None =>
      if inspect.status == Some(0) then ImagePresent(image)
      else Carry(daemonAfter, ImageAbsent(image))
  }

  predicate ReachExhausted(reach: Reach) {
    reach.Undetermined? && reach.code in HOST_EXHAUSTION_CODES
  }

  predicate GateExhausted(gate: Gate) {
    gate.GateUndetermined? && gate.code in HOST_EXHAUSTION_CODES
  }

  // ---- the environment --------------------------------------------------------------

  datatype Question = Version | Inspect(image: string)

  /** One client call: what was asked, what came back, and when. */
  datatype Event = Asked(question: Question, answer: Probe, from: nat, to: nat)

  /** The k-th call's outcome and duration, and how long passes before the j-th clock reading. */
  datatype World = World(answer: nat -> Probe, duration: nat -> nat, delay: nat -> nat)

  datatype State = State(now: nat, calls: nat, readings: nat)

  /** Time spent inside client calls. */
  function Busy(log: seq<Event>): int {
    if log == [] then 0
    else Busy(log[..|log| - 1]) + (log[|log| - 1].to - log[|log| - 1].from)
  }

  lemma BusyPush(log: seq<Event>, e: Event)
    ensures Busy(log + [e]) == Busy(log) + (e.to - e.from)
  {
    assert (log + [e])[..|log|] == log;
  }

  lemma BusyOne(e: Event)
    ensures Busy([e]) == e.to - e.from
  {
    BusyPush([], e);
    assert [] + [e] == [e];
  }

  lemma {:induction false} BusyAdds(a: seq<Event>, b: seq<Event>)
    ensures Busy(a + b) == Busy(a) + Busy(b)
    decreases |b|
  {
    if b == [] {
      assert a + b == a;
    } else {
      var n := |b| - 1;
      BusyAdds(a, b[..n]);
      assert (a + b)[..|a + b| - 1] == a + b[..n];
    }
  }

  /** How long the clock readings numbered `from` to `to` were waited for. */
  function Delays(w: World, from: nat, to: nat): nat
    requires from <= to
  {
    if to == from then 0 else Delays(w, from, to - 1) + w.delay(to - 1)
  }

  lemma OneReading(w: World, reading: nat)
    ensures Delays(w, reading, reading + 1) == w.delay(reading)
    ensures Longest(w, reading, reading + 1) == w.delay(reading)
  {
    assert Delays(w, reading, reading) == 0 && Longest(w, reading, reading) == 0;
  }

  lemma {:induction false} DelaysAdd(w: World, a: nat, b: nat, c: nat)
    requires a <= b <= c
    ensures Delays(w, a, c) == Delays(w, a, b) + Delays(w, b, c)
    decreases c
  {
    if b < c {
      DelaysAdd(w, a, b, c - 1);
    }
  }

  /** The longest of those waits. */
  function Longest(w: World, from: nat, to: nat): nat
    requires from <= to
  {
    if to == from then 0 else Max(Longest(w, from, to - 1), w.delay(to - 1))
  }

  lemma {:induction false} LongestGrows(w: World, a: nat, b: nat, c: nat, d: nat)
    requires a <= b <= c <= d
    ensures Longest(w, b, c) <= Longest(w, a, d)
    decreases d
  {
    if c < d {
      LongestGrows(w, a, b, c, d - 1);
    } else if b < c {
      LongestGrows(w, a, b, c - 1, d - 1);
    }
  }

  /** `t` came no more than `ms` and `readings` longest waits after `s`. */
  ghost predicate Within(w: World, s: State, t: State, ms: int, readings: nat) {
    && s.readings <= t.readings
    && t.now <= s.now + ms + readings * Longest(w, s.readings, t.readings)
  }

  /** First one stretch of time and then the next. */
  lemma WithinAdds(w: World, s: State, t: State, u: State, a: int, m: nat, b: int, n: nat)
    requires Within(w, s, t, a, m) && Within(w, t, u, b, n)
    ensures Within(w, s, u, a + b, m + n)
  {
    LongestGrows(w, s.readings, s.readings, t.readings, u.readings);
    LongestGrows(w, s.readings, t.readings, u.readings, u.readings);
    var x, y, z := Longest(w, s.readings, t.readings), Longest(w, t.readings, u.readings),
                   Longest(w, s.readings, u.readings);
    Times(m, x, z);
    Times(n, y, z);
    assert (m + n) * z == m * z + n * z;
  }

  lemma Times(n: nat, x: nat, y: nat)
    requires x <= y
    ensures n * x <= n * y
  {
  }

  /** All the time between two states went into the calls of the log and the readings taken. */
  ghost predicate Accounts(w: World, s: State, s': State, log: seq<Event>) {
    && s.readings <= s'.readings
    && s'.now == s.now + Busy(log) + Delays(w, s.readings, s'.readings)
  }

  lemma AccountsAppend(
      w: World, s: State, t: State, u: State, a: seq<Event>, b: seq<Event>)
    requires Accounts(w, s, t, a) && Accounts(w, t, u, b)
    ensures Accounts(w, s, u, a + b)
  {
    hide Busy, Delays;
    BusyAdds(a, b);
    DelaysAdd(w, s.readings, t.readings, u.readings);
  }

  /** A reading taken after the calls of a log adds no call to it. */
  lemma AccountsReading(w: World, s: State, t: State, u: State, log: seq<Event>)
    requires Accounts(w, s, t, log) && Accounts(w, t, u, [])
    ensures Accounts(w, s, u, log)
  {
    hide Accounts;
    AccountsAppend(w, s, t, u, log, []);
    assert log + [] == log;
  }

  method DateNow(w: World, s: State) returns (t: nat, s': State)
    ensures t == s'.now == s.now + w.delay(s.readings) && s'.calls == s.calls
    ensures s'.readings == s.readings + 1
    ensures Accounts(w, s, s', []) && Within(w, s, s', 0, 1)
  {
    t := s.now + w.delay(s.readings);
    s' := s.(now := t, readings := s.readings + 1);
    OneReading(w, s.readings);
  }

  method RunProbe(w: World, s: State, question: Question) returns (e: Event, s': State)
    ensures e == Asked(question, w.answer(s.calls), s.now, s'.now) && s.now <= s'.now
    ensures s'.readings == s.readings
    ensures s'.calls == s.calls + 1 && Accounts(w, s, s', [e]) && Within(w, s, s', e.to - e.from, 0)
  {
    s' := s.(now := s.now + w.duration(s.calls), calls := s.calls + 1);
    e := Asked(question, w.answer(s.calls), s.now, s'.now);
    BusyOne(e);
  }

  /** Calls one after another inside a span of time. */
  ghost predicate Chronological(log: seq<Event>, start: nat, end: nat) {
    && start <= end
    && (forall i :: 0 <= i < |log| ==> start <= log[i].from <= log[i].to <= end)
    && forall i, j :: 0 <= i < j < |log| ==> log[i].to <= log[j].from
  }

  /** The log is what the environment answered to the calls made since `calls`, in order. */
  ghost predicate Faithful(w: World, log: seq<Event>, calls: nat, calls': nat) {
    && calls' == calls + |log|
    && forall i :: 0 <= i < |log| ==> log[i].answer == w.answer(calls + i)
  }

  lemma FaithfulAppend(w: World, a: seq<Event>, b: seq<Event>, c0: nat, c1: nat, c2: nat)
    requires Faithful(w, a, c0, c1) && Faithful(w, b, c1, c2)
    ensures Faithful(w, a + b, c0, c2)
  {
    forall i | 0 <= i < |a + b| ensures (a + b)[i].answer == w.answer(c0 + i) {
      if i >= |a| {
        assert (a + b)[i] == b[i - |a|];
      }
    }
  }

  lemma ChronoPush(log: seq<Event>, start: nat, end: nat, e: Event)
    requires Chronological(log, start, end) && end <= e.from <= e.to
    ensures Chronological(log + [e], start, e.to)
  {
  }

  /** A log read in a wider span. */
  lemma ChronoWiden(log: seq<Event>, start: nat, end: nat, start': nat, end': nat)
    requires Chronological(log, start, end) && start' <= start && end <= end'
    ensures Chronological(log, start', end')
  {
  }

  lemma ChronoAppend(a: seq<Event>, b: seq<Event>, start: nat, mid: nat, end: nat)
    requires Chronological(a, start, mid) && Chronological(b, mid, end)
    ensures Chronological(a + b, start, end)
  {
  }

  lemma {:induction false} BusyFitsTheSpan(log: seq<Event>, start: nat, end: nat)
    requires Chronological(log, start, end)
    ensures 0 <= Busy(log) <= end - start
  {
    if log != [] {
      var n := |log| - 1;
      assert Chronological(log[..n], start, log[n].from);
      BusyFitsTheSpan(log[..n], start, log[n].from);
    }
  }

  function Slowest(spent: seq<nat>): nat {
    if spent == [] then 0 else Max(Slowest(spent[..|spent| - 1]), spent[|spent| - 1])
  }

  // ---- the reach probe ------------------------------------------------------------------

  function LastReach(log: seq<Event>): Reach
    requires log != []
  {
    ClassifyReach(log[|log| - 1].answer)
  }

  /** Version questions that never left the host. */
  ghost predicate NeverLeft(log: seq<Event>) {
    forall i :: 0 <= i < |log| ==>
      log[i].question == Version && ReachExhausted(ClassifyReach(log[i].answer))
  }

  /**
   * A run of the reach probe: one to four version questions, each but the first put only because
   * the one before it never left the host, and the last one's answer is the answer. All of them
   * but the last fit the budget together.
   */
  ghost predicate ReachRun(log: seq<Event>, reach: Reach, budget: nat) {
    && 1 <= |log| <= 4
    && NeverLeft(log[..|log| - 1])
    && log[|log| - 1].question == Version && reach == LastReach(log)
    && Busy(log[..|log| - 1]) <= budget
  }

  /** A loop gives up on a question that never left the host only when another would not fit. */
  predicate RanOut(attempts: nat, elapsed: int, budget: nat) {
    attempts == 4 || 2 * elapsed > budget
  }

  /** No call of the log took longer. */
  ghost predicate NoneSlower(log: seq<Event>, ms: int) {
    forall j :: 0 <= j < |log| ==> log[j].to - log[j].from <= ms
  }

  /** Another call followed one only if the slowest so far would have fitted behind it. */
  ghost predicate RetriesFit(log: seq<Event>, deadline: nat) {
    forall i, j :: 0 <= j <= i < |log| - 1 ==> log[i].to + (log[j].to - log[j].from) <= deadline
  }

  lemma FitsPush(log: seq<Event>, e: Event, slowest: nat, took: nat, deadline: nat)
    requires RetriesFit(log, deadline) && NoneSlower(log, slowest) && e.to - e.from <= took
    requires log != [] ==> log[|log| - 1].to + slowest <= deadline
    ensures RetriesFit(log + [e], deadline) && NoneSlower(log + [e], Max(slowest, took))
  {
  }

  /** Every call came back within the budget of its question. */
  ghost predicate WithinBudget(log: seq<Event>, reachMs: nat, inspectMs: nat) {
    forall i :: 0 <= i < |log| ==>
      log[i].to - log[i].from <= if log[i].question == Version then reachMs else inspectMs
  }

  /** One client call between two clock readings, added to the log. */
  method Ask(w: World, s: State, question: Question, log: seq<Event>, ghost start: nat)
    returns (answer: Probe, took: nat, s': State, log': seq<Event>)
    requires Chronological(log, start, s.now)
    ensures s'.calls == s.calls + 1 && answer == w.answer(s.calls)
    ensures s.readings <= s'.readings
    ensures |log'| == |log| + 1 && log'[..|log|] == log
    ensures var e := log'[|log|];
      e.question == question && e.answer == answer
      && Busy(log') == Busy(log) + (e.to - e.from) && 0 <= e.to - e.from <= took
    ensures Chronological(log', start, s'.now) && took <= s'.now - s.now
    ensures Accounts(w, s, s', [log'[|log|]])
    ensures Within(w, s, s', log'[|log|].to - log'[|log|].from, 2)
  {
    hide Chronological, Busy, Accounts, Within;
    var started, event, ended;
    started, s' := DateNow(w, s);
    ghost var t := s';
    ChronoWiden(log, start, s.now, start, s'.now);
    event, s' := RunProbe(w, s', question);
    AccountsAppend(w, s, t, s', [], [event]);
    WithinAdds(w, s, t, s', 0, 1, event.to - event.from, 0);
    assert [] + [event] == [event];
    t := s';
    ChronoPush(log, start, event.from, event);
    BusyPush(log, event);
    ended, s' := DateNow(w, s');
    AccountsReading(w, s, t, s', [event]);
    WithinAdds(w, s, t, s', event.to - event.from, 1, 0, 1);
    ChronoWiden(log + [event], start, event.to, start, s'.now);
    answer, took, log' := event.answer, ended - started, log + [event];
  }

  lemma SlowestPush(spent: seq<nat>, took: nat)
    ensures Slowest(spent + [took]) == Max(Slowest(spent), took)
  {
    assert (spent + [took])[..|spent|] == spent;
  }

  lemma LastCallIsOver(log: seq<Event>, start: nat, end: nat)
    requires Chronological(log, start, end) && log != []
    ensures log[|log| - 1].to <= end
  {
  }

  lemma NothingYet(now: nat)
    ensures NoneSlower([], 0) && forall deadline: nat :: RetriesFit([], deadline)
    ensures Chronological([], now, now) && Busy([]) == 0 && NeverLeft([]) && Slowest([]) == 0
    ensures forall w: World, c: nat :: Faithful(w, [], c, c)
    ensures forall w: World, s: State :: Accounts(w, s, s, [])
  {
  }

  lemma FaithfulPush(w: World, log: seq<Event>, log': seq<Event>, c0: nat, c1: nat)
    requires Faithful(w, log, c0, c1) && |log'| == |log| + 1 && log'[..|log|] == log
    requires log'[|log|].answer == w.answer(c1)
    ensures Faithful(w, log', c0, c1 + 1)
  {
    forall i | 0 <= i < |log| ensures log'[i].answer == w.answer(c0 + i) {
      assert log'[i] == log'[..|log|][i];
    }
  }

  lemma NeverLeftPush(log: seq<Event>, e: Event)
    requires NeverLeft(log) && e.question == Version && ReachExhausted(ClassifyReach(e.answer))
    ensures NeverLeft(log + [e])
  {
  }

  /** One more version question, put in time, with its place in the log of the probe. */
  method AskVersion(w: World, s: State, log: seq<Event>, ghost start: State, ghost opening: State,
                    timeoutMs: nat)
    returns (reach: Reach, took: nat, s': State, log': seq<Event>)
    requires NeverLeft(log) && Faithful(w, log, start.calls, s.calls)
    requires Chronological(log, start.now, s.now) && Accounts(w, start, s, log)
    requires opening.readings <= s.readings && s.now <= opening.now + timeoutMs
    ensures |log'| == |log| + 1 && log'[..|log|] == log && took <= s'.now - s.now
    ensures var e := log'[|log|];
      && log' == log + [e] && e.question == Version && reach == ClassifyReach(e.answer)
      && e.to - e.from <= took && e.to <= s'.now && Busy(log') == Busy(log) + (e.to - e.from)
    ensures Faithful(w, log', start.calls, s'.calls) && Chronological(log', start.now, s'.now)
    ensures Accounts(w, start, s', log') && opening.readings <= s'.readings
    ensures ReachExhausted(reach) ==> NeverLeft(log')
    ensures WithinBudget(log', timeoutMs, timeoutMs) ==> Within(w, opening, s', 2 * timeoutMs, 2)
  {
    hide ClassifyReach, Chronological, Busy, ReachExhausted, NeverLeft, Faithful, Accounts, Within,
         WithinBudget;
    var answer;
    answer, took, s', log' := Ask(w, s, Version, log, start.now);
    FaithfulPush(w, log, log', start.calls, s.calls);
    assert log' == log + [log'[|log|]];
    AccountsAppend(w, start, s, s', log, [log'[|log|]]);
    if WithinBudget(log', timeoutMs, timeoutMs) {
      LastCallInBudget(log', timeoutMs);
      InTime(w, opening, s, timeoutMs);
      LongerStill(w, s, s', log'[|log|].to - log'[|log|].from, timeoutMs, 2);
      WithinAdds(w, opening, s, s', timeoutMs, 0, timeoutMs, 2);
    }
    reach := ClassifyReach(answer);
    LastCallIsOver(log', start.now, s'.now);
    if ReachExhausted(reach) {
      NeverLeftPush(log, log'[|log|]);
    }
  }

  /** One to four questions that never left the host, and one more. */
  lemma OneMoreQuestion(before: seq<Event>, e: Event, budget: nat)
    requires |before| < 4 && NeverLeft(before) && e.question == Version && Busy(before) <= budget
    ensures ReachRun(before + [e], ClassifyReach(e.answer), budget)
  {
    hide NeverLeft, Busy, ClassifyReach;
    assert (before + [e])[..|before|] == before;
  }

  method ProbeDockerReach(w: World, s: State, timeoutMs: nat)
    returns (reach: Reach, s': State, log: seq<Event>)
    ensures ReachRun(log, reach, timeoutMs) && Chronological(log, s.now, s'.now)
    ensures Faithful(w, log, s.calls, s'.calls)
    ensures Accounts(w, s, s', log) && s.readings <= s'.readings
    ensures WithinBudget(log, timeoutMs, timeoutMs) ==> Within(w, s, s', 2 * timeoutMs, 4)
    ensures RetriesFit(log, s.now + w.delay(s.readings) + timeoutMs)
    ensures ReachExhausted(reach) ==>
      RanOut(|log|, s'.now - s.now - w.delay(s.readings), timeoutMs)
  {
    hide ClassifyReach, Chronological, Busy, ReachExhausted, NeverLeft, Slowest, Faithful, Accounts,
         Within, WithinBudget, RetriesFit, NoneSlower, ReachRun;
    NothingYet(s.now);
    log := [];
    var begin;
    begin, s' := DateNow(w, s);
    ChronoWiden(log, s.now, s.now, s.now, begin);
    ghost var t, opening := s', s';
    var deadline := begin + timeoutMs;
    var spent: seq<nat> := [];
    reach := Undetermined("none");
    for attempt := 1 to COULD_NOT_ASK_ATTEMPTS + 1
      invariant |log| == attempt - 1 && NeverLeft(log) && Faithful(w, log, s.calls, s'.calls)
      invariant s.now <= begin <= s'.now && Chronological(log, s.now, s'.now)
      invariant Accounts(w, s, s', log) && opening.readings <= s'.readings
      invariant WithinBudget(log, timeoutMs, timeoutMs) && log != [] ==>
        Within(w, opening, s', 2 * timeoutMs, 3)
      invariant Busy(log) <= s'.now - begin && Slowest(spent) <= s'.now - begin
      invariant attempt <= COULD_NOT_ASK_ATTEMPTS ==> s'.now <= deadline
      invariant RetriesFit(log, deadline) && NoneSlower(log, Slowest(spent))
      invariant attempt <= COULD_NOT_ASK_ATTEMPTS && log != [] ==>
        log[|log| - 1].to + Slowest(spent) <= deadline
      invariant log != [] ==> ReachRun(log, reach, timeoutMs) && ReachExhausted(reach)
    {
      var took, check;
      ghost var before := log;
      reach, took, s', log := AskVersion(w, s', log, s, opening, timeoutMs);
      OneMoreQuestion(before, log[|before|], timeoutMs);
      FitsPush(before, log[|before|], Slowest(spent), took, deadline);
      SlowestPush(spent, took);
      spent := spent + [took];
      if !ReachExhausted(reach) {
        if WithinBudget(log, timeoutMs, timeoutMs) {
          MoreReadings(w, opening, s', 2 * timeoutMs, 2, 3);
          WithinAdds(w, s, opening, s', 0, 1, 2 * timeoutMs, 3);
        }
        return;
      }
      t := s';
      check, s' := DateNow(w, s');
      AccountsReading(w, s, t, s', log);
      if WithinBudget(log, timeoutMs, timeoutMs) {
        WithinAdds(w, opening, t, s', 2 * timeoutMs, 2, 0, 1);
      }
      ChronoWiden(log, s.now, t.now, s.now, s'.now);
      if check + Slowest(spent) > deadline {
        break;
      }
    }
    if WithinBudget(log, timeoutMs, timeoutMs) {
      WithinAdds(w, s, opening, s', 0, 1, 2 * timeoutMs, 3);
    }
  }

  lemma LastCallInBudget(log: seq<Event>, reachMs: nat)
    requires log != [] && WithinBudget(log, reachMs, reachMs)
    ensures log[|log| - 1].to - log[|log| - 1].from <= reachMs
  {
  }

  /** By the deadline, without counting how often the clock was read on the way. */
  lemma InTime(w: World, s: State, t: State, ms: int)
    requires s.readings <= t.readings && t.now <= s.now + ms
    ensures Within(w, s, t, ms, 0)
  {
  }

  lemma LongerStill(w: World, s: State, t: State, ms: int, more: int, readings: nat)
    requires Within(w, s, t, ms, readings) && ms <= more
    ensures Within(w, s, t, more, readings)
  {
  }

  lemma MoreReadings(w: World, s: State, t: State, ms: int, readings: nat, more: nat)
    requires Within(w, s, t, ms, readings) && readings <= more
    ensures Within(w, s, t, ms, more)
  {
    var x := Longest(w, s.readings, t.readings);
    assert readings * x + (more - readings) * x == more * x;
  }

  // ---- the image gate -------------------------------------------------------------------

  /** One inspect, and the reach probe that followed it if its outcome called for one. */
  datatype Attempt = Attempt(inspect: Event, again: seq<Event>)

  function AttemptLog(a: Attempt): seq<Event> {
    [a.inspect] + a.again
  }

  function Flat(attempts: seq<Attempt>): seq<Event> {
    if attempts == [] then []
    else Flat(attempts[..|attempts| - 1]) + AttemptLog(attempts[|attempts| - 1])
  }

  /** The last call of an attempt, and how long the attempt took from its first call to that one. */
  function LastCall(a: Attempt): Event {
    if a.again == [] then a.inspect else a.again[|a.again| - 1]
  }

  function Span(a: Attempt): int {
    LastCall(a).to - a.inspect.from
  }

  /** Another attempt followed one only if the longest so far would have fitted behind it. */
  ghost predicate AttemptsFit(attempts: seq<Attempt>, deadline: nat) {
    forall i, j :: 0 <= j <= i < |attempts| - 1 ==>
      LastCall(attempts[i]).to + Span(attempts[j]) <= deadline
  }

  ghost predicate NoneLonger(attempts: seq<Attempt>, ms: int) {
    forall j :: 0 <= j < |attempts| ==> Span(attempts[j]) <= ms
  }

  lemma AttemptsFitPush(attempts: seq<Attempt>, a: Attempt, slowest: nat, took: nat, deadline: nat)
    requires AttemptsFit(attempts, deadline) && NoneLonger(attempts, slowest) && Span(a) <= took
    requires attempts != [] ==> LastCall(attempts[|attempts| - 1]).to + slowest <= deadline
    ensures AttemptsFit(attempts + [a], deadline) && NoneLonger(attempts + [a], Max(slowest, took))
  {
  }

  lemma SpanFits(a: Attempt, start: nat, end: nat)
    requires Chronological(AttemptLog(a), start, end)
    ensures LastCall(a).to <= end && Span(a) <= end - start
  {
    var log := AttemptLog(a);
    assert log[0] == a.inspect && log[|log| - 1] == LastCall(a);
  }

  function AttemptVerdict(image: string, a: Attempt): Gate {
    ClassifyImageProbe(image, a.inspect.answer,
                       if a.again == [] then DaemonUnreachable else LastReach(a.again))
  }

  ghost predicate AttemptRun(image: string, a: Attempt, reachMs: nat) {
    && a.inspect.question == Inspect(image)
    && (NeedsDaemonAfter(a.inspect.answer) <==> a.again != [])
    && (a.again != [] ==> ReachRun(a.again, LastReach(a.again), reachMs))
  }

  /** Attempts that ended with a question that never left the host. */
  ghost predicate AllExhausted(image: string, attempts: seq<Attempt>) {
    forall i :: 0 <= i < |attempts| ==> GateExhausted(AttemptVerdict(image, attempts[i]))
  }

  ghost predicate AttemptsRun(image: string, attempts: seq<Attempt>, reachMs: nat) {
    forall i :: 0 <= i < |attempts| ==> AttemptRun(image, attempts[i], reachMs)
  }

  /**
   * A run of the gate: the daemon first, and the image only if the daemon answered; then one to
   * four attempts, each but the first made only because the one before it never left the host.
   */
  ghost predicate GateRun(image: string, first: seq<Event>, attempts: seq<Attempt>, gate: Gate,
                          reachMs: nat, inspectMs: nat)
  {
    && first != [] && ReachRun(first, LastReach(first), reachMs)
    && if !LastReach(first).DaemonAnswering?
       then attempts == [] && gate == Carry(LastReach(first), ImagePresent(image))
       else Tried(image, attempts, gate, reachMs, inspectMs)
  }

  ghost predicate Tried(image: string, attempts: seq<Attempt>, gate: Gate, reachMs: nat, inspectMs: nat)
  {
    && 1 <= |attempts| <= 4
    && AttemptsRun(image, attempts, reachMs)
    && AllExhausted(image, attempts[..|attempts| - 1])
    && gate == AttemptVerdict(image, attempts[|attempts| - 1])
    && Busy(Flat(attempts[..|attempts| - 1])) <= inspectMs
  }

  /** Up to three attempts that never got an answer out of the host, and one more. */
  lemma OneMoreAttempt(image: string, before: seq<Attempt>, all: seq<Attempt>, reachMs: nat,
                       inspectMs: nat)
    requires |before| < 4 && |all| == |before| + 1 && all[..|before|] == before
    requires AttemptsRun(image, all, reachMs) && AllExhausted(image, before)
    requires Busy(Flat(before)) <= inspectMs
    ensures Tried(image, all, AttemptVerdict(image, all[|before|]), reachMs, inspectMs)
    ensures all == before + [all[|before|]]
  {
    hide AttemptsRun, AllExhausted, Busy, Flat, AttemptVerdict;
    assert |all| - 1 == |before|;
  }

  ghost predicate AttemptInBudget(a: Attempt, reachMs: nat, inspectMs: nat) {
    a.inspect.to - a.inspect.from <= inspectMs && WithinBudget(a.again, reachMs, reachMs)
  }

  /** Every call of every attempt came back within its budget. */
  ghost predicate AttemptsInBudget(attempts: seq<Attempt>, reachMs: nat, inspectMs: nat) {
    forall i :: 0 <= i < |attempts| ==> AttemptInBudget(attempts[i], reachMs, inspectMs)
  }

  /** One pass of the gate's loop body: the inspect and, where called for, the reach probe. */
  method TryInspect(w: World, s: State, image: string, reachMs: nat, inspectMs: nat)
    returns (gate: Gate, s': State, a: Attempt)
    ensures AttemptRun(image, a, reachMs) && gate == AttemptVerdict(image, a)
    ensures Chronological(AttemptLog(a), s.now, s'.now)
    ensures Faithful(w, AttemptLog(a), s.calls, s'.calls) && Accounts(w, s, s', AttemptLog(a))
    ensures s.readings <= s'.readings
    ensures AttemptInBudget(a, reachMs, inspectMs) ==>
      Within(w, s, s', inspectMs + 2 * reachMs, 4)
  {
    hide Chronological, ClassifyReach, ReachRun, Accounts, Within, WithinBudget;
    var event;
    event, s' := RunProbe(w, s, Inspect(image));
    var again: seq<Event> := [];
    var reach := DaemonUnreachable;
    OneCall(event);
    if NeedsDaemonAfter(event.answer) {
      ghost var mid := s';
      reach, s', again := ProbeDockerReach(w, s', reachMs);
      ChronoAppend([event], again, s.now, mid.now, s'.now);
      AccountsAppend(w, s, mid, s', [event], again);
      if event.to - event.from <= inspectMs && WithinBudget(again, reachMs, reachMs) {
        LongerStill(w, s, mid, event.to - event.from, inspectMs, 0);
        WithinAdds(w, s, mid, s', inspectMs, 0, 2 * reachMs, 4);
      }
      FaithfulAppend(w, [event], again, s.calls, s.calls + 1, s'.calls);
      ReachLogIsNotEmpty(again, reach, reachMs);
    } else {
      assert [event] + [] == [event];
      if event.to - event.from <= inspectMs {
        LongerStill(w, s, s', event.to - event.from, inspectMs + 2 * reachMs, 0);
        MoreReadings(w, s, s', inspectMs + 2 * reachMs, 0, 4);
      }
    }
    gate := ClassifyImageProbe(image, event.answer, reach);
    a := Attempt(event, again);
  }

  lemma OneCall(e: Event)
    requires e.from <= e.to
    ensures Chronological([e], e.from, e.to)
  {
  }

  lemma ReachLogIsNotEmpty(log: seq<Event>, reach: Reach, budget: nat)
    requires ReachRun(log, reach, budget)
    ensures log != [] && reach == LastReach(log)
  {
  }

  lemma FlatPush(attempts: seq<Attempt>, a: Attempt)
    ensures Flat(attempts + [a]) == Flat(attempts) + AttemptLog(a)
  {
    assert (attempts + [a])[..|attempts|] == attempts;
  }

  lemma AttemptsPush(image: string, attempts: seq<Attempt>, a: Attempt, reachMs: nat)
    requires AttemptsRun(image, attempts, reachMs) && AttemptRun(image, a, reachMs)
    ensures AttemptsRun(image, attempts + [a], reachMs)
    ensures AllExhausted(image, attempts) && GateExhausted(AttemptVerdict(image, a)) ==>
      AllExhausted(image, attempts + [a])
  {
    hide AttemptRun, AttemptVerdict;
  }

  method GateOnImage(w: World, s: State, image: string, reachMs: nat, inspectMs: nat)
    returns (gate: Gate, s': State, first: seq<Event>, attempts: seq<Attempt>, armed: nat)
    ensures GateRun(image, first, attempts, gate, reachMs, inspectMs)
    ensures Chronological(first + Flat(attempts), s.now, s'.now)
    ensures Faithful(w, first + Flat(attempts), s.calls, s'.calls)
    ensures Accounts(w, s, s', first + Flat(attempts))
    ensures Chronological(first, s.now, armed) && Chronological(Flat(attempts), armed, s'.now)
    ensures AttemptsFit(attempts, armed + inspectMs)
    ensures GateExhausted(gate) && attempts != [] ==>
      RanOut(|attempts|, s'.now - armed, inspectMs)
    ensures WithinBudget(first, reachMs, reachMs) && AttemptsInBudget(attempts, reachMs, inspectMs) ==>
      Within(w, s, s', 2 * inspectMs + 4 * reachMs, 12)
  {
    hide ReachRun, Chronological, Busy, AttemptRun, AttemptVerdict, GateExhausted, Flat, Slowest,
         AllExhausted, AttemptsRun, Faithful, Accounts, Within, WithinBudget, AttemptInBudget,
         AttemptsInBudget, AttemptsFit, NoneLonger, Span, LastCall, Tried;
    var reach;
    reach, s', first := ProbeDockerReach(w, s, reachMs);
    ReachLogIsNotEmpty(first, reach, reachMs);
    attempts := [];
    NoAttempts(image, reachMs);
    assert first + [] == first;
    armed := s'.now;
    if !reach.DaemonAnswering? {
      NothingYet(armed);
      ReachIsEnough(w, s, s', first, reachMs, inspectMs);
      return Carry(reach, ImagePresent(image)), s', first, [], armed;
    }
    var begin;
    ghost var asked := s';
    begin, s' := DateNow(w, s');
    AccountsReading(w, s, asked, s', first);
    ChronoWiden(first, s.now, asked.now, s.now, begin);
    ghost var opening, called := s', s'.calls;
    armed := begin;
    ReachThenReading(w, s, asked, opening, first, reachMs);
    NothingYet(begin);
    var deadline := begin + inspectMs;
    var spent: seq<nat> := [];
    gate := GateUndetermined("none");
    for attempt := 1 to COULD_NOT_ASK_ATTEMPTS + 1
      invariant |attempts| == attempt - 1
      invariant AttemptsRun(image, attempts, reachMs) && AllExhausted(image, attempts)
      invariant s.now <= begin <= s'.now && Chronological(first, s.now, begin)
      invariant Chronological(Flat(attempts), begin, s'.now)
      invariant Faithful(w, Flat(attempts), called, s'.calls)
      invariant Accounts(w, opening, s', Flat(attempts)) && opening.readings <= s'.readings
      invariant attempts != [] && AttemptsInBudget(attempts, reachMs, inspectMs) ==>
        Within(w, opening, s', 2 * inspectMs + 2 * reachMs, 7)
      invariant attempts != [] ==>
        Tried(image, attempts, gate, reachMs, inspectMs) && GateExhausted(gate)
      invariant attempt <= COULD_NOT_ASK_ATTEMPTS ==> s'.now <= deadline
      invariant Slowest(spent) <= s'.now - begin
      invariant AttemptsFit(attempts, deadline) && NoneLonger(attempts, Slowest(spent))
      invariant attempt <= COULD_NOT_ASK_ATTEMPTS && attempts != [] ==>
        LastCall(attempts[|attempts| - 1]).to + Slowest(spent) <= deadline
    {
      var started, ended, check;
      ghost var before, mark := attempts, s';
      var a;
      started, s' := DateNow(w, s');
      AccountsReading(w, opening, mark, s', Flat(attempts));
      InTime(w, opening, mark, inspectMs);
      WithinAdds(w, opening, mark, s', inspectMs, 0, 0, 1);
      ghost var asking := s';
      gate, s', a := PushAttempt(w, s', image, reachMs, inspectMs, attempts, mark.now, opening);
      attempts := a;
      BusyFitsTheSpan(Flat(before), begin, mark.now);
      OneMoreAttempt(image, before, attempts, reachMs, inspectMs);
      mark := s';
      ended, s' := DateNow(w, s');
      AccountsReading(w, opening, mark, s', Flat(attempts));
      AttemptTakes(w, opening, asking, mark, s', attempts, reachMs, inspectMs);
      AttemptsFitPush(before, attempts[|before|], Slowest(spent), ended - started, deadline);
      SlowestPush(spent, ended - started);
      spent := spent + [ended - started];
      if !GateExhausted(gate) {
        ChronoWiden(Flat(attempts), begin, mark.now, begin, s'.now);
        AccountsAppend(w, s, opening, s', first, Flat(attempts));
        GateTakes(w, s, opening, s', first, attempts, reachMs, inspectMs, 6);
        ChronoAppend(first, Flat(attempts), s.now, begin, s'.now);
        FaithfulAppend(w, first, Flat(attempts), s.calls, called, s'.calls);
        return;
      }
      ghost var measured := s';
      check, s' := DateNow(w, s');
      AccountsReading(w, opening, measured, s', Flat(attempts));
      CheckTakes(w, opening, measured, s', attempts, reachMs, inspectMs);
      ChronoWiden(Flat(attempts), begin, mark.now, begin, s'.now);
      if check + Slowest(spent) > deadline {
        break;
      }
    }
    ChronoAppend(first, Flat(attempts), s.now, begin, s'.now);
    AccountsAppend(w, s, opening, s', first, Flat(attempts));
    GateTakes(w, s, opening, s', first, attempts, reachMs, inspectMs, 7);
    FaithfulAppend(w, first, Flat(attempts), s.calls, called, s'.calls);
  }

  lemma ReachIsEnough(
      w: World, s: State, t: State, first: seq<Event>, reachMs: nat, inspectMs: nat)
    requires WithinBudget(first, reachMs, reachMs) ==> Within(w, s, t, 2 * reachMs, 4)
    ensures WithinBudget(first, reachMs, reachMs) ==>
      Within(w, s, t, 2 * inspectMs + 4 * reachMs, 12)
  {
    hide Within, WithinBudget;
    if WithinBudget(first, reachMs, reachMs) {
      LongerStill(w, s, t, 2 * reachMs, 2 * inspectMs + 4 * reachMs, 4);
      MoreReadings(w, s, t, 2 * inspectMs + 4 * reachMs, 4, 12);
    }
  }

  lemma ReachThenReading(
      w: World, s: State, t: State, u: State, first: seq<Event>, reachMs: nat)
    requires WithinBudget(first, reachMs, reachMs) ==> Within(w, s, t, 2 * reachMs, 4)
    requires Within(w, t, u, 0, 1)
    ensures WithinBudget(first, reachMs, reachMs) ==> Within(w, s, u, 2 * reachMs, 5)
  {
    hide Within, WithinBudget;
    if WithinBudget(first, reachMs, reachMs) {
      WithinAdds(w, s, t, u, 2 * reachMs, 4, 0, 1);
    }
  }

  /** From the deadline's reading to the one after an attempt that was begun in time. */
  lemma AttemptTakes(
      w: World, s: State, t: State, u: State, v: State, attempts: seq<Attempt>, reachMs: nat,
      inspectMs: nat)
    requires attempts != [] && Within(w, s, t, inspectMs, 1) && Within(w, u, v, 0, 1)
    requires AttemptInBudget(attempts[|attempts| - 1], reachMs, inspectMs) ==>
      Within(w, t, u, inspectMs + 2 * reachMs, 4)
    ensures AttemptsInBudget(attempts, reachMs, inspectMs) ==>
      Within(w, s, v, 2 * inspectMs + 2 * reachMs, 6)
  {
    hide Within, AttemptInBudget;
    if AttemptsInBudget(attempts, reachMs, inspectMs) {
      LastAttemptInBudget(attempts, reachMs, inspectMs);
      WithinAdds(w, s, t, u, inspectMs, 1, inspectMs + 2 * reachMs, 4);
      WithinAdds(w, s, u, v, 2 * inspectMs + 2 * reachMs, 5, 0, 1);
    }
  }

  lemma CheckTakes(
      w: World, s: State, t: State, u: State, attempts: seq<Attempt>, reachMs: nat, inspectMs: nat)
    requires Within(w, t, u, 0, 1)
    requires AttemptsInBudget(attempts, reachMs, inspectMs) ==>
      Within(w, s, t, 2 * inspectMs + 2 * reachMs, 6)
    ensures AttemptsInBudget(attempts, reachMs, inspectMs) ==>
      Within(w, s, u, 2 * inspectMs + 2 * reachMs, 7)
  {
    hide Within, AttemptsInBudget;
    if AttemptsInBudget(attempts, reachMs, inspectMs) {
      WithinAdds(w, s, t, u, 2 * inspectMs + 2 * reachMs, 6, 0, 1);
    }
  }

  lemma GateTakes(
      w: World, s: State, t: State, u: State, first: seq<Event>, attempts: seq<Attempt>,
      reachMs: nat, inspectMs: nat, readings: nat)
    requires readings <= 7
    requires WithinBudget(first, reachMs, reachMs) ==> Within(w, s, t, 2 * reachMs, 5)
    requires AttemptsInBudget(attempts, reachMs, inspectMs) ==>
      Within(w, t, u, 2 * inspectMs + 2 * reachMs, readings)
    ensures WithinBudget(first, reachMs, reachMs) && AttemptsInBudget(attempts, reachMs, inspectMs)
      ==> Within(w, s, u, 2 * inspectMs + 4 * reachMs, 12)
  {
    hide Within, WithinBudget, AttemptsInBudget;
    if WithinBudget(first, reachMs, reachMs) && AttemptsInBudget(attempts, reachMs, inspectMs) {
      MoreReadings(w, t, u, 2 * inspectMs + 2 * reachMs, readings, 7);
      WithinAdds(w, s, t, u, 2 * reachMs, 5, 2 * inspectMs + 2 * reachMs, 7);
    }
  }

  lemma LastAttemptInBudget(attempts: seq<Attempt>, reachMs: nat, inspectMs: nat)
    requires attempts != [] && AttemptsInBudget(attempts, reachMs, inspectMs)
    ensures AttemptInBudget(attempts[|attempts| - 1], reachMs, inspectMs)
  {
  }

  lemma NoAttempts(image: string, reachMs: nat)
    ensures AttemptsRun(image, [], reachMs) && AllExhausted(image, []) && Flat([]) == []
    ensures NoneLonger([], 0) && forall deadline: nat :: AttemptsFit([], deadline)
  {
  }

  /** `TryInspect`, with its record added to the attempts made so far. */
  method PushAttempt(w: World, s: State, image: string, reachMs: nat, inspectMs: nat,
                     attempts: seq<Attempt>, ghost mark: nat, ghost opening: State)
    returns (gate: Gate, s': State, attempts': seq<Attempt>)
    requires AttemptsRun(image, attempts, reachMs)
    requires Chronological(Flat(attempts), opening.now, mark) && mark <= s.now
    requires Faithful(w, Flat(attempts), opening.calls, s.calls)
    requires Accounts(w, opening, s, Flat(attempts))
    ensures |attempts'| == |attempts| + 1 && attempts'[..|attempts|] == attempts
    ensures gate == AttemptVerdict(image, attempts'[|attempts|])
    ensures AttemptsRun(image, attempts', reachMs)
    ensures AllExhausted(image, attempts) && GateExhausted(gate) ==> AllExhausted(image, attempts')
    ensures Chronological(Flat(attempts'), opening.now, s'.now) && s.now <= s'.now
    ensures Faithful(w, Flat(attempts'), opening.calls, s'.calls)
    ensures Accounts(w, opening, s', Flat(attempts')) && s.readings <= s'.readings
    ensures AttemptInBudget(attempts'[|attempts|], reachMs, inspectMs) ==>
      Within(w, s, s', inspectMs + 2 * reachMs, 4)
    ensures var a := attempts'[|attempts|]; LastCall(a).to <= s'.now && Span(a) <= s'.now - s.now
  {
    hide Within, AttemptInBudget, Accounts, Faithful, Chronological, AttemptRun, AttemptVerdict,
         AttemptsRun, AllExhausted, AttemptLog, Span, LastCall;
    var a;
    gate, s', a := TryInspect(w, s, image, reachMs, inspectMs);
    ChronoWiden(Flat(attempts), opening.now, mark, opening.now, s.now);
    FlatPush(attempts, a);
    ChronoAppend(Flat(attempts), AttemptLog(a), opening.now, s.now, s'.now);
    FaithfulAppend(w, Flat(attempts), AttemptLog(a), opening.calls, s.calls, s'.calls);
    AccountsAppend(w, opening, s, s', Flat(attempts), AttemptLog(a));
    AttemptsPush(image, attempts, a, reachMs);
    attempts' := attempts + [a];
    SpanFits(a, s.now, s'.now);
    SpanIsForward(AttemptLog(a), s.now, s'.now);
  }

  lemma SpanIsForward(log: seq<Event>, start: nat, end: nat)
    requires Chronological(log, start, end)
    ensures start <= end
  {
  }

  // ---- what a gate's answer rests on ------------------------------------------------------

  predicate Answered(e: Event) {
    e.question == Version && e.answer.errno == None && e.answer.status == Some(0)
  }

  predicate HostExhausted(e: Event) {
    NeverAsked(e.answer)
  }

  /** Where the last attempt's calls are in the whole log. */
  lemma LastAttemptIn(first: seq<Event>, attempts: seq<Attempt>)
    requires first != [] && attempts != []
    ensures var log, a := first + Flat(attempts), attempts[|attempts| - 1];
      && |first| <= |log| - 1 - |a.again|
      && log[|log| - 1 - |a.again|] == a.inspect
      && forall i :: 0 <= i < |a.again| ==> log[|log| - |a.again| + i] == a.again[i]
  {
    hide Flat, AttemptLog;
    var n := |attempts| - 1;
    assert attempts == attempts[..n] + [attempts[n]];
    FlatPush(attempts[..n], attempts[n]);
    InTheTail(first, Flat(attempts[..n]), attempts[n]);
  }

  lemma InTheTail(first: seq<Event>, front: seq<Event>, a: Attempt)
    ensures var log, at := first + (front + AttemptLog(a)), |first| + |front|;
      && |log| == at + 1 + |a.again| && log[at] == a.inspect
      && forall i :: 0 <= i < |a.again| ==> log[at + 1 + i] == a.again[i]
  {
  }

  /** What an absent verdict rests on: the first daemon's answer, the inspect, and the last answer. */
  lemma AbsentRests(
      image: string, first: seq<Event>, attempts: seq<Attempt>, gate: Gate, reachMs: nat,
      inspectMs: nat)
    requires GateRun(image, first, attempts, gate, reachMs, inspectMs)
    requires gate.ImageAbsent?
    ensures gate.image == image && first != [] && attempts != []
    ensures var a := attempts[|attempts| - 1];
      && Answered(first[|first| - 1])
      && a.inspect.question == Inspect(image) && a.inspect.answer.errno == None
      && a.inspect.answer.status != Some(0)
      && a.again != [] && Answered(a.again[|a.again| - 1])
  {
    hide Busy, NeverLeft, Flat;
    assert attempts != [] ==> AttemptRun(image, attempts[|attempts| - 1], reachMs);
  }

  /** Absent means: a daemon answered, then the inspect failed, then a daemon answered again. */
  lemma AbsentWasAnsweredBeforeAndAfter(
      image: string, first: seq<Event>, attempts: seq<Attempt>, gate: Gate, reachMs: nat,
      inspectMs: nat, start: nat, end: nat)
    requires GateRun(image, first, attempts, gate, reachMs, inspectMs)
    requires Chronological(first + Flat(attempts), start, end)
    requires gate.ImageAbsent?
    ensures gate.image == image
    ensures var log := first + Flat(attempts);
      exists i, j, k :: 0 <= i < j < k < |log|
        && Answered(log[i]) && Answered(log[k])
        && log[j].question == Inspect(image) && log[j].answer.errno == None
        && log[j].answer.status != Some(0)
        && log[i].to <= log[j].from && log[j].to <= log[k].from
  {
    hide GateRun, Flat, Answered;
    AbsentRests(image, first, attempts, gate, reachMs, inspectMs);
    var log, a := first + Flat(attempts), attempts[|attempts| - 1];
    var i, j, k := |first| - 1, |log| - 1 - |a.again|, |log| - 1;
    LastAttemptIn(first, attempts);
    assert log[k] == a.again[|a.again| - 1] && log[i] == first[i];
  }

  /** Present means: a daemon answered, and after that an inspect of the image exited 0. */
  lemma PresentWasInspected(
      image: string, first: seq<Event>, attempts: seq<Attempt>, gate: Gate, reachMs: nat,
      inspectMs: nat, start: nat, end: nat)
    requires GateRun(image, first, attempts, gate, reachMs, inspectMs)
    requires Chronological(first + Flat(attempts), start, end)
    requires gate.ImagePresent?
    ensures gate.image == image
    ensures var log := first + Flat(attempts);
      exists i, j :: 0 <= i < j < |log|
        && Answered(log[i]) && log[i].to <= log[j].from
        && log[j].question == Inspect(image) && log[j].answer.errno == None
        && log[j].answer.status == Some(0)
  {
    hide Busy, NeverLeft;
    var log, a := first + Flat(attempts), attempts[|attempts| - 1];
    var i, j := |first| - 1, |log| - 1 - |a.again|;
    assert AttemptRun(image, a, reachMs);
    assert log[j] == a.inspect && log[i] == first[i];
    assert Answered(log[i]);
  }

  /** The image is not asked about at all unless a daemon answered. */
  lemma NothingIsAskedAboutTheImageWithoutADaemon(
      image: string, first: seq<Event>, attempts: seq<Attempt>, gate: Gate, reachMs: nat,
      inspectMs: nat)
    requires GateRun(image, first, attempts, gate, reachMs, inspectMs)
    ensures forall i :: 0 <= i < |first| ==> first[i].question == Version
    ensures Flat(attempts) != [] <==> Answered(first[|first| - 1])
    ensures !Answered(first[|first| - 1]) ==> !gate.ImagePresent? && !gate.ImageAbsent?
  {
    hide Busy;
    var n := |first| - 1;
    assert first == first[..n] + [first[n]];
    if attempts != [] {
      assert AttemptLog(attempts[|attempts| - 1]) != [];
    }
  }

  /** The client is not there. */
  predicate NoClient(p: Probe) {
    p.errno == Some("ENOENT") || p.errno == Some("EACCES")
  }

  /** The question never left the host. */
  predicate NeverAsked(p: Probe) {
    p.errno == Some("EAGAIN") || p.errno == Some("EMFILE") || p.errno == Some("ENFILE")
    || p.errno == Some("ENOMEM")
  }

  /** What is put again: every question that never left the host, and no other. */
  lemma ExhaustionIs(p: Probe, image: string, after: Reach)
    ensures ReachExhausted(ClassifyReach(p)) <==> NeverAsked(p)
    ensures NeverAsked(p) ==> GateExhausted(ClassifyImageProbe(image, p, after))
    ensures !NeverAsked(p) ==> (GateExhausted(ClassifyImageProbe(image, p, after)) <==>
      NeedsDaemonAfter(p) && ReachExhausted(after))
  {
  }

  predicate Succeeded(p: Probe) {
    p.errno == None && p.status == Some(0)
  }

  /** What is said for an answer that is not a daemon's: the client is missing, or the daemon, or it is not known. */
  ghost predicate IsRefusal(gate: Gate, p: Probe) {
    if NoClient(p) then gate == GateDockerAbsent
    else if p.errno == None || p.errno == Some("ETIMEDOUT") then gate == GateUnreachable
    else gate == GateUndetermined(p.errno.value)
  }

  /** What one run of the client says of the daemon. */
  lemma ReachIsExactly(p: Probe, whenAnswering: Gate)
    ensures Succeeded(p) ==>
      ClassifyReach(p) == DaemonAnswering(p.stdout)
      && Carry(ClassifyReach(p), whenAnswering) == whenAnswering
    ensures !Succeeded(p) ==>
      !ClassifyReach(p).DaemonAnswering? && IsRefusal(Carry(ClassifyReach(p), whenAnswering), p)
  {
  }

  /** What the verdict of one inspect, and of the daemon asked after it, comes to. */
  ghost predicate IsVerdict(gate: Gate, image: string, inspect: Probe, again: seq<Event>) {
    if NoClient(inspect) then gate == GateDockerAbsent && again == []
    else if NeverAsked(inspect) then gate == GateUndetermined(inspect.errno.value) && again == []
    else if Succeeded(inspect) then gate == ImagePresent(image) && again == []
    else
      && again != []
      && var after := again[|again| - 1].answer;
         if !Succeeded(after) then IsRefusal(gate, after)
         else if inspect.errno == None then gate == ImageAbsent(image)
         else gate == GateUndetermined(inspect.errno.value)
  }

  lemma AttemptSays(image: string, a: Attempt, reachMs: nat)
    requires AttemptRun(image, a, reachMs)
    ensures IsVerdict(AttemptVerdict(image, a), image, a.inspect.answer, a.again)
  {
    hide ReachRun, Carry, IsRefusal, ClassifyReach;
    if a.again != [] {
      ReachIsExactly(a.again[|a.again| - 1].answer,
                     if a.inspect.answer.errno == None then ImageAbsent(image)
                     else GateUndetermined(a.inspect.answer.errno.value));
    }
  }

  /**
   * Every verdict is the one of the last calls of the run: of the first daemon asked, if that one
   * did not answer, and otherwise of the last inspect and of the daemon asked after it.
   */
  lemma VerdictIsOfTheLastCalls(
      image: string, first: seq<Event>, attempts: seq<Attempt>, gate: Gate, reachMs: nat,
      inspectMs: nat)
    requires GateRun(image, first, attempts, gate, reachMs, inspectMs)
    ensures first != [] && (attempts == [] <==> !Succeeded(first[|first| - 1].answer))
    ensures attempts == [] ==> IsRefusal(gate, first[|first| - 1].answer)
    ensures attempts != [] ==>
      var a := attempts[|attempts| - 1]; IsVerdict(gate, image, a.inspect.answer, a.again)
  {
    hide ReachRun, Carry, IsRefusal, ClassifyReach, IsVerdict, AttemptVerdict, AttemptRun, Flat, Busy,
         AllExhausted;
    ReachIsExactly(first[|first| - 1].answer, ImagePresent(image));
    if attempts != [] {
      AttemptSays(image, attempts[|attempts| - 1], reachMs);
    }
  }

  /** Every call of a run but its last never left the host. */
  ghost predicate RetriedOnExhaustion(log: seq<Event>) {
    forall i :: 0 <= i < |log| - 1 ==> HostExhausted(log[i])
  }

  /** A question is put again only straight after an outcome that never left the host. */
  lemma RetriesFollowHostExhaustion(
      image: string, first: seq<Event>, attempts: seq<Attempt>, gate: Gate, reachMs: nat,
      inspectMs: nat)
    requires GateRun(image, first, attempts, gate, reachMs, inspectMs)
    ensures RetriedOnExhaustion(first)
    ensures forall k :: 0 <= k < |attempts| ==> RetriedOnExhaustion(attempts[k].again)
    ensures forall k :: 0 <= k < |attempts| - 1 ==>
      HostExhausted(AttemptLog(attempts[k])[|attempts[k].again|])
  {
    hide Busy, ReachRun, RetriedOnExhaustion;
    ReachRetries(first, LastReach(first), reachMs);
    forall k | 0 <= k < |attempts| ensures RetriedOnExhaustion(attempts[k].again) {
      AttemptRetries(image, attempts[k], reachMs);
    }
    forall k | 0 <= k < |attempts| - 1
      ensures HostExhausted(AttemptLog(attempts[k])[|attempts[k].again|])
    {
      assert attempts[k] == attempts[..|attempts| - 1][k];
      assert GateExhausted(AttemptVerdict(image, attempts[k]));
      ExhaustedAttempt(image, attempts[k], reachMs);
    }
  }

  lemma AttemptRetries(image: string, a: Attempt, reachMs: nat)
    requires AttemptRun(image, a, reachMs)
    ensures RetriedOnExhaustion(a.again)
  {
    hide ReachRun;
    if a.again != [] {
      ReachRetries(a.again, LastReach(a.again), reachMs);
    }
  }

  lemma ExhaustedAttempt(image: string, a: Attempt, reachMs: nat)
    requires AttemptRun(image, a, reachMs) && GateExhausted(AttemptVerdict(image, a))
    ensures HostExhausted(AttemptLog(a)[|a.again|])
  {
    hide ReachRun;
  }

  lemma ReachRetries(log: seq<Event>, reach: Reach, budget: nat)
    requires ReachRun(log, reach, budget)
    ensures RetriedOnExhaustion(log)
  {
    hide Busy;
    forall i | 0 <= i < |log| - 1 ensures HostExhausted(log[i]) {
      assert log[i] == log[..|log| - 1][i];
    }
  }

  lemma ReachWaitsTwoBudgets(log: seq<Event>, reach: Reach, reachMs: nat, inspectMs: nat)
    requires ReachRun(log, reach, reachMs) && WithinBudget(log, reachMs, inspectMs)
    ensures Busy(log) <= 2 * reachMs
  {
  }

  /**
   * If every call comes back within its budget, a reach probe is over after two budgets and the
   * delays of the clock readings it took.
   */
  lemma ReachTakesTwoBudgets(
      w: World, s: State, s': State, log: seq<Event>, reach: Reach, reachMs: nat)
    requires ReachRun(log, reach, reachMs) && Accounts(w, s, s', log)
    requires WithinBudget(log, reachMs, reachMs)
    ensures s'.now - s.now <= 2 * reachMs + Delays(w, s.readings, s'.readings)
  {
    ReachWaitsTwoBudgets(log, reach, reachMs, reachMs);
  }

  /**
   * If every call comes back within its budget, the gate is over after two inspect budgets, four
   * reach budgets and the delays of the readings it took, however the calls turn out.
   */
  lemma GateIsBounded(
      w: World, s: State, s': State, image: string, first: seq<Event>, attempts: seq<Attempt>,
      gate: Gate, reachMs: nat, inspectMs: nat)
    requires GateRun(image, first, attempts, gate, reachMs, inspectMs)
    requires Accounts(w, s, s', first + Flat(attempts))
    requires WithinBudget(first + Flat(attempts), reachMs, inspectMs)
    ensures s'.now - s.now
         <= 2 * inspectMs + 4 * reachMs + Delays(w, s.readings, s'.readings)
  {
    hide GateRun, Busy, WithinBudget, Delays;
    GateWaits(image, first, attempts, gate, reachMs, inspectMs);
  }

  lemma AttemptWaits(image: string, a: Attempt, reachMs: nat, inspectMs: nat)
    requires AttemptRun(image, a, reachMs) && WithinBudget(AttemptLog(a), reachMs, inspectMs)
    ensures Busy(AttemptLog(a)) <= inspectMs + 2 * reachMs
  {
    hide Busy, ReachRun;
    BusyAdds([a.inspect], a.again);
    BusyOne(a.inspect);
    NothingYet(0);
    assert AttemptLog(a)[0] == a.inspect;
    assert forall i :: 0 <= i < |a.again| ==> a.again[i] == AttemptLog(a)[1 + i];
    if a.again != [] {
      ReachWaitsTwoBudgets(a.again, LastReach(a.again), reachMs, inspectMs);
    }
  }

  /** Parts of a log within budget are within budget. */
  lemma PartsWithinBudget(a: seq<Event>, b: seq<Event>, c: seq<Event>, reachMs: nat, inspectMs: nat)
    requires WithinBudget(a + (b + c), reachMs, inspectMs)
    ensures WithinBudget(a, reachMs, inspectMs) && WithinBudget(c, reachMs, inspectMs)
  {
    var log := a + (b + c);
    assert forall i :: 0 <= i < |a| ==> a[i] == log[i];
    assert forall i :: 0 <= i < |c| ==> c[i] == log[|a| + |b| + i];
  }

  lemma GateWaits(
      image: string, first: seq<Event>, attempts: seq<Attempt>, gate: Gate, reachMs: nat,
      inspectMs: nat)
    requires GateRun(image, first, attempts, gate, reachMs, inspectMs)
    requires WithinBudget(first + Flat(attempts), reachMs, inspectMs)
    ensures Busy(first + Flat(attempts)) <= 2 * inspectMs + 4 * reachMs
  {
    hide Busy, ReachRun, ClassifyImageProbe, WithinBudget, AttemptRun, AttemptLog;
    BusyAdds(first, Flat(attempts));
    if attempts == [] {
      assert first + Flat(attempts) == first;
      NothingYet(0);
      ReachWaitsTwoBudgets(first, LastReach(first), reachMs, inspectMs);
    } else {
      var n := |attempts| - 1;
      var front, last := Flat(attempts[..n]), AttemptLog(attempts[n]);
      BusyAdds(front, last);
      PartsWithinBudget(first, front, last, reachMs, inspectMs);
      ReachWaitsTwoBudgets(first, LastReach(first), reachMs, inspectMs);
      AttemptWaits(image, attempts[n], reachMs, inspectMs);
    }
  }
}
