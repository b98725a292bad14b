/**
 The guest's step loop. Its step counter lives in linear memory, so that a restored memory resumes
 at the right step; composed with the checkpoint protocol, a run with crashes ends like a run without.
 */
module Runner {
  import opened Bytes
  import opened Blocks
  import opened Protocol
  import opened Exactness

  /** What a step leaves in linear memory, also when it returns an error. */
  datatype Outcome = Done(mem: seq<byte>) | Failed(mem: seq<byte>)

  type Step = seq<byte> -> Outcome

  /** A module: its steps, the address of its 32-bit step counter, and its memory after instantiation. */
  datatype Program = Program(steps: seq<Step>, at: nat, init: seq<byte>)

  function Counter(m: seq<byte>, at: nat): int
    requires at + 4 <= |m|
  {
    var b0: int, b1: int, b2: int, b3: int := m[at], m[at + 1], m[at + 2], m[at + 3];
    var u := b0 + 256 * b1 + 65536 * b2 + 16777216 * b3;
    if u < 0x8000_0000 then u else u - 0x1_0000_0000
  }

  function WithCounter(m: seq<byte>, at: nat, c: int): (r: seq<byte>)
    requires at + 4 <= |m| && 0 <= c < 0x8000_0000
    ensures |r| == |m| && Counter(r, at) == c
    ensures r[..at] == m[..at] && r[at + 4..] == m[at + 4..]
  {
    var c1 := c / 256;
    var c2 := c1 / 256;
    m[..at] + [c % 256, c1 % 256, c2 % 256, c2 / 256] + m[at + 4..]
  }

  /** Memory keeps whole pages, never shrinks, and a step leaves the runner's counter alone. */
  ghost predicate StepOk(p: Program, step: Step) {
    forall m: seq<byte> | IsMemory(m) && p.at + 4 <= |m| ::
      var m' := step(m).mem;
      IsMemory(m') && |m| <= |m'| && Counter(m', p.at) == Counter(m, p.at)
  }

  ghost predicate ProgramOk(p: Program) {
    && IsMemory(p.init) && p.at + 4 <= |p.init| && Counter(p.init, p.at) == 0
    && |p.steps| < 0x8000_0000
    && forall k | 0 <= k < |p.steps| :: StepOk(p, p.steps[k])
  }

  ghost predicate GuestMemory(p: Program, m: seq<byte>) {
    IsMemory(m) && |p.init| <= |m| && p.at + 4 <= |m| && 0 <= Counter(m, p.at) <= |p.steps|
  }

  /** One turn of the loop: run the step the counter names, then advance the counter. */
  function Turn(p: Program, m: seq<byte>): Outcome
    requires ProgramOk(p) && GuestMemory(p, m) && Counter(m, p.at) < |p.steps|
  {
    var c := Counter(m, p.at);
    match p.steps[c](m)
    case Failed(m') => Failed(m')
    case Done(m') =>
      assert StepOk(p, p.steps[c]);
      Done(WithCounter(m', p.at, c + 1))
  }

  lemma TurnKeepsMemory(p: Program, m: seq<byte>)
    requires ProgramOk(p) && GuestMemory(p, m) && Counter(m, p.at) < |p.steps|
    ensures var m' := Turn(p, m).mem;
            && GuestMemory(p, m') && |m| <= |m'|
            && Counter(m', p.at) == Counter(m, p.at) + if Turn(p, m).Done? then 1 else 0
  {
    assert StepOk(p, p.steps[Counter(m, p.at)]);
  }

  /** The memory after the first `k` steps of an uninterrupted run, if none of them fails. */
  ghost function After(p: Program, k: nat): (r: Option<seq<byte>>)
    requires ProgramOk(p) && k <= |p.steps|
    ensures r.Some? ==> GuestMemory(p, r.value) && Counter(r.value, p.at) == k
  {
    if k == 0 then Some(p.init)
    else
      match After(p, k - 1)
      case None => None
      case Some(m) =>
        TurnKeepsMemory(p, m);
        if Turn(p, m).Done? then Some(Turn(p, m).mem) else None
  }

  datatype Result = Returned(code: int, mem: seq<byte>)

  /** An uninterrupted run from `m`. */
  ghost function RunFrom(p: Program, m: seq<byte>): Result
    requires ProgramOk(p) && GuestMemory(p, m)
    decreases |p.steps| - Counter(m, p.at)
  {
    if Counter(m, p.at) >= |p.steps| then Returned(0, m)
    else
      match Turn(p, m)
      case Failed(m') => Returned(-1, m')
      case Done(m') =>
        TurnKeepsMemory(p, m);
        RunFrom(p, m')
  }

  /** Every prefix of the run continues to the same result. */
  lemma {:induction false} RunContinues(p: Program, k: nat)
    requires ProgramOk(p) && k <= |p.steps| && After(p, k).Some?
    ensures RunFrom(p, p.init) == RunFrom(p, After(p, k).value)
  {
    if k > 0 {
      RunContinues(p, k - 1);
    }
  }

  lemma TurnRunsTheStep(p: Program, m: seq<byte>)
    requires ProgramOk(p) && GuestMemory(p, m) && Counter(m, p.at) < |p.steps|
    ensures var c := Counter(m, p.at);
            && 0 <= c && |p.steps| < 0x8000_0000
            && match p.steps[c](m)
               case Failed(m') => Turn(p, m) == Failed(m')
               case Done(m') => p.at + 4 <= |m'| && Turn(p, m) == Done(WithCounter(m', p.at, c + 1))
  {
    assert StepOk(p, p.steps[Counter(m, p.at)]);
  }

  /** The reference run is made of the program's steps: each is run on what the one before left, or ends the run. */
  lemma AfterRunsTheSteps(p: Program, k: nat)
    requires ProgramOk(p) && k < |p.steps| && After(p, k).Some?
    ensures var m := After(p, k).value;
            match p.steps[k](m)
            case Failed(_) => After(p, k + 1).None?
            case Done(m') =>
              p.at + 4 <= |m'| && k + 1 < 0x8000_0000 && After(p, k + 1) == Some(WithCounter(m', p.at, k + 1))
  {
    hide ProgramOk, StepOk, Turn, WithCounter, GuestMemory;
    TurnRunsTheStep(p, After(p, k).value);
  }

  lemma RunFromRunsTheSteps(p: Program, m: seq<byte>)
    requires ProgramOk(p) && GuestMemory(p, m)
    ensures p.at + 4 <= |m| && 0 <= Counter(m, p.at) <= |p.steps| < 0x8000_0000
    ensures var c := Counter(m, p.at);
            if c == |p.steps| then RunFrom(p, m) == Returned(0, m)
            else
              match p.steps[c](m)
              case Failed(m') => RunFrom(p, m) == Returned(-1, m')
              case Done(m') =>
                && p.at + 4 <= |m'| && GuestMemory(p, WithCounter(m', p.at, c + 1))
                && RunFrom(p, m) == RunFrom(p, WithCounter(m', p.at, c + 1))
  {
    hide StepOk, Turn, WithCounter;
    if Counter(m, p.at) < |p.steps| {
      TurnKeepsMemory(p, m);
      TurnRunsTheStep(p, m);
    }
  }

  /** `after` is what the `c`-th step leaves of `before`, with the counter advanced. */
  ghost predicate Stepped(p: Program, c: int, before: seq<byte>, after: seq<byte>) {
    && 0 <= c < |p.steps| < 0x8000_0000
    && p.steps[c](before).Done?
    && var m := p.steps[c](before).mem;
       p.at + 4 <= |m| && after == WithCounter(m, p.at, c + 1)
  }

  /** Each memory is the step that the counter names, run on the one before. */
  ghost predicate Chained(p: Program, c: int, trace: seq<seq<byte>>) {
    forall i | 1 <= i < |trace| :: Stepped(p, c + i - 1, trace[i - 1], trace[i])
  }

  lemma ChainedOneMore(p: Program, c: int, trace: seq<seq<byte>>, m: seq<byte>)
    requires trace != [] && Chained(p, c, trace) && Stepped(p, c + |trace| - 1, trace[|trace| - 1], m)
    ensures Chained(p, c, trace + [m])
  {
    hide Stepped;
    var more := trace + [m];
    forall i | 1 <= i < |more| ensures Stepped(p, c + i - 1, more[i - 1], more[i]) {
      if i < |trace| {
        assert Stepped(p, c + i - 1, trace[i - 1], trace[i]);
      }
    }
  }

  /** Whatever of the trace a run is continued from, it ends the same. */
  ghost predicate Continues(p: Program, trace: seq<seq<byte>>, r: Result)
    requires ProgramOk(p)
  {
    forall i | 0 <= i < |trace| :: GuestMemory(p, trace[i]) && RunFrom(p, trace[i]) == r
  }

  /**
   The loop of the runner, returning also its trace: the memory it started with and the memory at each
   of its checkpoints. Every one of these is the step that the counter names, run on the one before;
   the loop ends when all steps are done, or with what the first failing step wrote.
   */
  method Run(p: Program, start: seq<byte>) returns (code: int, m: seq<byte>, trace: seq<seq<byte>>)
    requires ProgramOk(p) && GuestMemory(p, start)
    ensures trace != [] && trace[0] == start && Chained(p, Counter(start, p.at), trace)
    ensures var next, last := Counter(start, p.at) + |trace| - 1, trace[|trace| - 1];
            if next == |p.steps| then code == 0 && m == last
            else 0 <= next < |p.steps| && code == -1 && p.steps[next](last) == Failed(m)
    ensures Returned(code, m) == RunFrom(p, start) && Continues(p, trace, RunFrom(p, start))
  {
    hide *;
    TraceBegins(p, start);
    m, trace := start, [start];
    ghost var c, result := Counter(start, p.at), RunFrom(p, start);
    while Counter(m, p.at) < |p.steps|
      invariant trace != [] && trace[0] == start && m == trace[|trace| - 1]
      invariant p.at + 4 <= |m| && GuestMemory(p, m) && 0 <= Counter(m, p.at) == c + |trace| - 1 <= |p.steps|
      invariant RunFrom(p, m) == result && Chained(p, c, trace) && Continues(p, trace, result)
      decreases |p.steps| - Counter(m, p.at)
    {
      RunFromRunsTheSteps(p, m);
      StepKeepsMemory(p, m);
      var currentStep := Counter(m, p.at);
      var outcome := p.steps[currentStep](m);
      if outcome.Failed? {
        return -1, outcome.mem, trace;
      }
      m := WithCounter(outcome.mem, p.at, currentStep + 1);
      ChainedOneMore(p, c, trace, m);
      ContinuesOneMore(p, trace, m, result);
      trace := trace + [m];
    }
    RunFromRunsTheSteps(p, m);
    code := 0;
  }

  lemma TraceBegins(p: Program, start: seq<byte>)
    requires ProgramOk(p) && GuestMemory(p, start)
    ensures p.at + 4 <= |start| && 0 <= Counter(start, p.at) <= |p.steps|
    ensures Chained(p, Counter(start, p.at), [start]) && Continues(p, [start], RunFrom(p, start))
  {
  }

  lemma ContinuesOneMore(p: Program, trace: seq<seq<byte>>, m: seq<byte>, r: Result)
    requires ProgramOk(p) && Continues(p, trace, r) && GuestMemory(p, m) && RunFrom(p, m) == r
    ensures Continues(p, trace + [m], r)
  {
    hide ProgramOk, GuestMemory, RunFrom;
  }

  lemma StepKeepsMemory(p: Program, m: seq<byte>)
    requires ProgramOk(p) && GuestMemory(p, m) && Counter(m, p.at) < |p.steps|
    ensures var c := Counter(m, p.at);
            var m' := p.steps[c](m).mem;
            && 0 <= c && |p.steps| < 0x8000_0000 && p.at + 4 <= |m'| && GuestMemory(p, m')
            && GuestMemory(p, WithCounter(m', p.at, c + 1)) && Counter(WithCounter(m', p.at, c + 1), p.at) == c + 1
            && p.at + 4 <= |WithCounter(m', p.at, c + 1)|
            && (p.steps[c](m).Done? ==> Stepped(p, c, m, WithCounter(m', p.at, c + 1)))
  {
    assert StepOk(p, p.steps[Counter(m, p.at)]);
  }

  // ---------------------------------------------------------------- crashes and restarts

  /** What a host does, in order: a step begins, a step's effect becomes durable. */
  datatype Mark = Started(step: int) | Durable(steps: int)

  datatype Guest =
    | Off
    | Looping(s: Sess, tabled: seq<byte>)  // at the head of the loop
    | Saving(s: Sess, tabled: seq<byte>)   // a step is done, its checkpoint is due
    | Ended(result: Result)

  datatype Host = Host(inst: Inst, guest: Guest, log: seq<Mark>)

  datatype Event =
    | Boot                        // open a session and restore
    | Proceed                     // the next turn of the loop, up to its checkpoint
    | Save(untruncated: bool)     // a checkpoint; truncation errors are dropped
    | Crash                       // the host stops outside a checkpoint
    | CrashInSave(writes: nat)    // the host stops inside a checkpoint, after some of its writes

  predicate Enabled(h: Host, e: Event) {
    match e
    case Boot => h.guest.Off? || h.guest.Ended?
    case Proceed => h.guest.Looping?
    case Save(_) => h.guest.Saving?
    case Crash => true
    case CrashInSave(_) => h.guest.Saving?
  }

  ghost function Next(p: Program, id: string, hash: string, h: Host, e: Event): Host
    requires ProgramOk(p) && Enabled(h, e)
    requires h.guest.Looping? || h.guest.Saving? ==> GuestMemory(p, h.guest.s.mem)
  {
    match e
    case Boot => h.(guest := Looping(Opened(p.init, h.inst, id, hash), OpenTabled(p.init, h.inst)))
    case Proceed =>
      var s, c := h.guest.s, Counter(h.guest.s.mem, p.at);
      if c >= |p.steps| then h.(guest := Ended(Returned(0, s.mem)))
      else
        var log := h.log + [Started(c)];
        (match Turn(p, s.mem)
         case Failed(m) => h.(guest := Ended(Returned(-1, m)), log := log)
         case Done(m) => h.(guest := Saving(s.(mem := m), h.guest.tabled), log := log))
    case Save(untruncated) =>
      var s := h.guest.s;
      Host(AfterWrites(h.inst, s, if untruncated then 3 else 4),
           Looping(NextSess(s), NextTabled(s, h.guest.tabled)),
           h.log + [Durable(Counter(s.mem, p.at))])
    case Crash => h.(guest := Off)
    case CrashInSave(n) =>
      var s := h.guest.s;
      Host(AfterWrites(h.inst, s, n), Off, h.log + if n >= 2 then [Durable(Counter(s.mem, p.at))] else [])
  }

  /** The writes of a checkpoint that this event carries out, if it is one. */
  function WritesOf(e: Event): nat {
    match e
    case Save(untruncated) => if untruncated then 3 else 4
    case CrashInSave(n) => n
    case _ => 0
  }

  /** The condition on a checkpoint that writes data: it detects every change, or stops safely. */
  ghost predicate SafeWrites(p: Program, h: Host, e: Event) {
    h.guest.Saving? && WritesOf(e) >= 2 ==>
      var s, tabled, r := h.guest.s, h.guest.tabled, Restored(p.init, h.inst);
      |tabled| <= |r| <= |s.mem| ==> StopIsSafe(h.inst, tabled, r, s, WritesOf(e))
  }

  function Durables(log: seq<Mark>): nat {
    if log == [] then 0
    else Durables(log[..|log| - 1]) + if log[|log| - 1].Durable? then 1 else 0
  }

  /**
   A step starts exactly when the steps before it, and no others, are durable; steps become
   durable one at a time, in order. So no step before the last durable one ever runs again.
   */
  predicate InOrder(log: seq<Mark>) {
    forall i | 0 <= i < |log| ::
      match log[i]
      case Started(k) => k == Durables(log[..i])
      case Durable(k) => k == Durables(log[..i]) + 1
  }

  /**
   What an observer can hold a host to: steps start and become durable in order, the store restores
   the memory of the uninterrupted run at the last durable step, and a run that ends ends like it.
   */
  ghost predicate Faithful(p: Program, h: Host)
    requires ProgramOk(p)
  {
    var k := Durables(h.log);
    && InOrder(h.log)
    && k <= |p.steps|
    && After(p, k) == Some(Restored(p.init, h.inst))
    && (h.guest.Ended? ==> h.guest.result == RunFrom(p, p.init))
  }

  /** The invariant: the session, too, is in step with the uninterrupted run. */
  ghost predicate HostOk(p: Program, h: Host)
    requires ProgramOk(p)
  {
    var k := Durables(h.log);
    && Faithful(p, h)
    && Stored(p.init, h.inst)
    && (match h.guest
        case Off => true
        case Looping(s, tabled) => UpToDate(p.init, h.inst, s, tabled) && After(p, k) == Some(s.mem)
        case Saving(s, tabled) =>
          UpToDate(p.init, h.inst, s, tabled) && k < |p.steps| && After(p, k + 1) == Some(s.mem)
        case Ended(_) => true)
  }

  lemma LogGrows(log: seq<Mark>, mark: Mark)
    requires InOrder(log)
    requires match mark case Started(k) => k == Durables(log) case Durable(k) => k == Durables(log) + 1
    ensures InOrder(log + [mark])
    ensures Durables(log + [mark]) == Durables(log) + if mark.Durable? then 1 else 0
  {
    var l := log + [mark];
    assert l[..|log|] == log;
    forall i | 0 <= i < |log| ensures l[..i] == log[..i] {
    }
  }

  lemma BootKeepsHost(p: Program, id: string, hash: string, h: Host)
    requires ProgramOk(p) && HostOk(p, h) && Enabled(h, Boot)
    ensures HostOk(p, Next(p, id, hash, h, Boot))
  {
    OpenedIsUpToDate(p.init, h.inst, id, hash);
  }

  lemma ProceedKeepsHost(p: Program, id: string, hash: string, h: Host)
    requires ProgramOk(p) && HostOk(p, h) && Enabled(h, Proceed)
    ensures HostOk(p, Next(p, id, hash, h, Proceed))
  {
    hide Stored, UpToDate, Restored, StepOk, InOrder, ProgramOk, Durables, IsMemory, Counter;
    var k, s := Durables(h.log), h.guest.s;
    RunContinues(p, k);
    if k < |p.steps| {
      LogGrows(h.log, Started(k));
      TurnKeepsMemory(p, s.mem);
      assert Turn(p, s.mem).Done? ==> After(p, k + 1) == Some(Turn(p, s.mem).mem);
      UpToDateWhileRunning(p.init, h.inst, s, h.guest.tabled, Turn(p, s.mem).mem);
    }
  }

  /** However far a checkpoint gets, the store restores the step before it, or the step itself iff the stop is safe. */
  lemma WritesKeepHost(p: Program, h: Host, e: Event)
    requires ProgramOk(p) && HostOk(p, h) && h.guest.Saving?
    ensures var s, n := h.guest.s, WritesOf(e);
            var inst' := AfterWrites(h.inst, s, n);
            && Stored(p.init, inst')
            && (n < 2 ==> Restored(p.init, inst') == Restored(p.init, h.inst))
            && (n >= 2 ==> (Restored(p.init, inst') == s.mem <==> SafeWrites(p, h, e)))
            && (3 <= n <= 4 && SafeWrites(p, h, e) ==>
                  UpToDate(p.init, inst', NextSess(s), NextTabled(s, h.guest.tabled)))
  {
    hide AfterWrites, Stored, Restored, StepOk, InOrder, ProgramOk, After, Turn, RunFrom, Durables,
         IsMemory, Counter, StopIsSafe;
    var s, n := h.guest.s, WritesOf(e);
    CrashPoint(p.init, h.inst, s, h.guest.tabled, n);
    if 3 <= n <= 4 && SafeWrites(p, h, e) {
      StaysUpToDate(p.init, h.inst, s, h.guest.tabled, n);
    }
  }

  lemma SaveKeepsHost(p: Program, id: string, hash: string, h: Host, e: Event)
    requires ProgramOk(p) && HostOk(p, h)
    requires e.Save? && Enabled(h, e) && SafeWrites(p, h, e)
    ensures HostOk(p, Next(p, id, hash, h, e))
  {
    hide AfterWrites, Stored, UpToDate, Restored, Counter, StepOk, InOrder, ProgramOk, GuestMemory,
         After, Turn, RunFrom, Durables, IsMemory, SafeWrites;
    WritesKeepHost(p, h, e);
    LogGrows(h.log, Durable(Durables(h.log) + 1));
  }

  lemma CrashInSaveKeepsHost(p: Program, id: string, hash: string, h: Host, e: Event)
    requires ProgramOk(p) && HostOk(p, h)
    requires e.CrashInSave? && Enabled(h, e) && SafeWrites(p, h, e)
    ensures HostOk(p, Next(p, id, hash, h, e))
  {
    hide AfterWrites, Stored, UpToDate, Restored, Counter, StepOk, InOrder, ProgramOk, GuestMemory,
         After, Turn, RunFrom, Durables, IsMemory, SafeWrites;
    WritesKeepHost(p, h, e);
    if e.writes >= 2 {
      LogGrows(h.log, Durable(Durables(h.log) + 1));
    } else {
      assert h.log + [] == h.log;
    }
  }

  lemma NextKeepsHost(p: Program, id: string, hash: string, h: Host, e: Event)
    requires ProgramOk(p) && HostOk(p, h)
    requires Enabled(h, e) && SafeWrites(p, h, e)
    ensures HostOk(p, Next(p, id, hash, h, e))
  {
    match e
    case Boot => BootKeepsHost(p, id, hash, h);
    case Proceed => ProceedKeepsHost(p, id, hash, h);
    case Save(_) => SaveKeepsHost(p, id, hash, h, e);
    case Crash =>
    case CrashInSave(_) => CrashInSaveKeepsHost(p, id, hash, h, e);
  }

  /** The condition is necessary: after an unsafe checkpoint the host is not faithful any more. */
  lemma UnsafeWritesAreUnfaithful(p: Program, id: string, hash: string, h: Host, e: Event)
    requires ProgramOk(p) && HostOk(p, h)
    requires Enabled(h, e) && !SafeWrites(p, h, e)
    ensures !Faithful(p, Next(p, id, hash, h, e))
  {
    hide AfterWrites, Stored, UpToDate, Restored, Counter, StepOk, InOrder, ProgramOk, GuestMemory,
         After, Turn, RunFrom, Durables, IsMemory;
    WritesKeepHost(p, h, e);
    hide SafeWrites;
    LogGrows(h.log, Durable(Durables(h.log) + 1));
  }

  lemma InitialHostOk(p: Program)
    requires ProgramOk(p)
    ensures HostOk(p, Host(EMPTY, Off, []))
  {
  }

  ghost predicate GuestFits(p: Program, h: Host) {
    h.guest.Looping? || h.guest.Saving? ==> GuestMemory(p, h.guest.s.mem)
  }

  /** The host after a schedule, or None once the schedule asks for what cannot happen. */
  ghost function Schedule(p: Program, id: string, hash: string, events: seq<Event>): Option<Host>
    requires ProgramOk(p)
  {
    if events == [] then Some(Host(EMPTY, Off, []))
    else
      var e := events[|events| - 1];
      match Schedule(p, id, hash, events[..|events| - 1])
      case None => None
      case Some(h) => if Enabled(h, e) && GuestFits(p, h) then Some(Next(p, id, hash, h, e)) else None
  }

  /** Every checkpoint along the way met its condition. */
  ghost predicate SafeSchedule(p: Program, id: string, hash: string, events: seq<Event>)
    requires ProgramOk(p)
  {
    events == [] ||
    (var before := events[..|events| - 1];
     && SafeSchedule(p, id, hash, before)
     && (Schedule(p, id, hash, before).Some? ==>
           SafeWrites(p, Schedule(p, id, hash, before).value, events[|events| - 1])))
  }

  lemma {:induction false} ScheduleKeepsHost(p: Program, id: string, hash: string, events: seq<Event>)
    requires ProgramOk(p) && SafeSchedule(p, id, hash, events)
    ensures var r := Schedule(p, id, hash, events); r.Some? ==> HostOk(p, r.value)
  {
    if events == [] {
      InitialHostOk(p);
    } else {
      var before := events[..|events| - 1];
      ScheduleKeepsHost(p, id, hash, before);
      var r := Schedule(p, id, hash, before);
      var e := events[|events| - 1];
      hide HostOk;
      hide Next;
      if r.Some? && Enabled(r.value, e) {
        NextKeepsHost(p, id, hash, r.value, e);
      }
    }
  }

  ghost predicate AlwaysFaithful(p: Program, id: string, hash: string, events: seq<Event>)
    requires ProgramOk(p) && Schedule(p, id, hash, events).Some?
  {
    && Faithful(p, Schedule(p, id, hash, events).value)
    && (events == [] || AlwaysFaithful(p, id, hash, events[..|events| - 1]))
  }

  /**
   Crash-resume refinement. Under every schedule of crashes and restarts, the host is faithful to
   the uninterrupted run at every moment if and only if its checkpoints are safe.
   */
  lemma {:induction false} CrashResumeRefines(p: Program, id: string, hash: string, events: seq<Event>)
    requires ProgramOk(p) && Schedule(p, id, hash, events).Some?
    ensures AlwaysFaithful(p, id, hash, events) <==> SafeSchedule(p, id, hash, events)
  {
    if events == [] {
      InitialHostOk(p);
    } else {
      var before, e := events[..|events| - 1], events[|events| - 1];
      CrashResumeRefines(p, id, hash, before);
      if SafeSchedule(p, id, hash, before) {
        ScheduleKeepsHost(p, id, hash, before);
        var h := Schedule(p, id, hash, before).value;
        hide Faithful, Next, SafeWrites;
        if SafeWrites(p, h, e) {
          NextKeepsHost(p, id, hash, h, e);
        } else {
          UnsafeWritesAreUnfaithful(p, id, hash, h, e);
        }
      }
    }
  }

  /** A safe schedule never gets stuck: anything that is enabled can come next. */
  lemma SafeScheduleGoesOn(p: Program, id: string, hash: string, events: seq<Event>, e: Event)
    requires ProgramOk(p) && Schedule(p, id, hash, events).Some? && SafeSchedule(p, id, hash, events)
    ensures Enabled(Schedule(p, id, hash, events).value, e) ==> Schedule(p, id, hash, events + [e]).Some?
  {
    ScheduleKeepsHost(p, id, hash, events);
    assert (events + [e])[..|events|] == events;
  }

  // ---------------------------------------------------------------- a condition on the program

  /**
   The schedule's side condition: no stop between saving a later full snapshot and truncating the
   deltas, unless the deltas left over agree with the snapshot.
   */
  predicate WindowClosed(h: Host, e: Event) {
    h.guest.Saving? && 2 <= WritesOf(e) < 4 ==>
      var s := h.guest.s;
      IsFull(s.meta.version + 1) && s.meta.version > 0 ==> LeftoverAgrees(h.inst.deltas, s.mem)
  }

  lemma ByteAt(m: seq<byte>, i: nat, j: nat)
    requires i < NumBlocks(m) && j < 4096
    ensures i * 4096 + j < |m| && m[i * 4096 + j] == Block(m, i)[j]
  {
  }

  /** Memories with the same block there have the same counter. */
  lemma SameBlockSameCounter(a: seq<byte>, b: seq<byte>, at: nat)
    requires at + 4 <= |a| && at + 4 <= |b| && at / 4096 == (at + 3) / 4096
    requires at / 4096 < NumBlocks(a) && at / 4096 < NumBlocks(b) && Block(a, at / 4096) == Block(b, at / 4096)
    ensures Counter(a, at) == Counter(b, at)
  {
    var i := at / 4096;
    var j := at - i * 4096;
    ByteAt(a, i, j);
    ByteAt(b, i, j);
    ByteAt(a, i, j + 1);
    ByteAt(b, i, j + 1);
    ByteAt(a, i, j + 2);
    ByteAt(b, i, j + 2);
    ByteAt(a, i, j + 3);
    ByteAt(b, i, j + 3);
  }

  lemma AgreeingBlockKeepsCounter(init: seq<byte>, inst: Inst, m: seq<byte>, at: nat)
    requires Stored(init, inst) && at + 4 <= |Restored(init, inst)| && at + 4 <= |m|
    requires at / 4096 == (at + 3) / 4096 && at / 4096 in inst.deltas && LeftoverAgrees(inst.deltas, m)
    ensures Counter(Restored(init, inst), at) == Counter(m, at)
  {
    SavedInside(init, inst, at / 4096);
    RestoredBlock(init, inst, at / 4096);
    SameBlockSameCounter(Restored(init, inst), m, at);
  }

  /** What a host that is saving has in memory is a step further than what is stored. */
  lemma SavingIsAStepFurther(p: Program, h: Host)
    requires ProgramOk(p) && HostOk(p, h) && h.guest.Saving?
    ensures var m, r := h.guest.s.mem, Restored(p.init, h.inst);
            p.at + 4 <= |r| && p.at + 4 <= |m| && Counter(m, p.at) == Counter(r, p.at) + 1
    ensures Stored(p.init, h.inst) && |h.guest.tabled| <= |Restored(p.init, h.inst)| <= |h.guest.s.mem|
  {
    hide ProgramOk, RunFrom, Stored, Restored, InOrder, Turn, StepOk, Counter;
  }

  lemma CounterBlockDisagrees(p: Program, h: Host)
    requires ProgramOk(p) && HostOk(p, h) && h.guest.Saving?
    requires p.at / 4096 == (p.at + 3) / 4096 && p.at / 4096 in h.inst.deltas
    ensures !LeftoverAgrees(h.inst.deltas, h.guest.s.mem)
  {
    hide ProgramOk, HostOk, Stored, Restored, Counter, LeftoverAgrees;
    SavingIsAStepFurther(p, h);
    if LeftoverAgrees(h.inst.deltas, h.guest.s.mem) {
      AgreeingBlockKeepsCounter(p.init, h.inst, h.guest.s.mem, p.at);
    }
  }

  lemma DisagreementIsUnsafe(p: Program, h: Host, e: Event)
    requires h.guest.Saving? && 2 <= WritesOf(e) < 4
    requires IsFull(h.guest.s.meta.version + 1) && h.guest.s.meta.version > 0
    requires |h.guest.tabled| <= |Restored(p.init, h.inst)| <= |h.guest.s.mem|
    requires !LeftoverAgrees(h.inst.deltas, h.guest.s.mem)
    ensures !SafeWrites(p, h, e) && !WindowClosed(h, e)
  {
    hide Restored, LeftoverAgrees, Detects, IsFull;
  }

  /**
   Once an incremental checkpoint has saved the counter's block that way out is closed: the counter
   has moved on, so the block disagrees with the next full snapshot, and every stop in the window is unsafe.
   */
  lemma CounterBlockKeepsWindowOpen(p: Program, h: Host, e: Event)
    requires ProgramOk(p) && HostOk(p, h) && h.guest.Saving? && 2 <= WritesOf(e) < 4
    requires IsFull(h.guest.s.meta.version + 1) && h.guest.s.meta.version > 0
    requires p.at / 4096 == (p.at + 3) / 4096 && p.at / 4096 in h.inst.deltas
    ensures !SafeWrites(p, h, e) && !WindowClosed(h, e)
  {
    hide *;
    SavingIsAStepFurther(p, h);
    CounterBlockDisagrees(p, h);
    DisagreementIsUnsafe(p, h, e);
  }

  /** The program's side condition: no miss between neighbouring steps, nor across a full snapshot. */
  ghost predicate StepsDetected(p: Program)
    requires ProgramOk(p)
  {
    forall k | 0 <= k < |p.steps| && After(p, k).Some? && After(p, k + 1).Some? :: StepDetected(p, k)
  }

  ghost predicate StepDetected(p: Program, k: nat)
    requires ProgramOk(p) && k < |p.steps| && After(p, k).Some? && After(p, k + 1).Some?
  {
    var m, m' := After(p, k).value, After(p, k + 1).value;
    && |m| <= |m'|
    && (k >= 1 ==> Detects(m, m, m'))
    && (k >= 2 && After(p, k - 1).Some? && |After(p, k - 1).value| <= |m| ==> Detects(After(p, k - 1).value, m, m'))
  }

  /** What the hash table may describe when `k` steps are durable. */
  ghost predicate TabledOk(p: Program, tabled: seq<byte>, k: nat, version: int)
    requires ProgramOk(p) && k <= |p.steps|
  {
    || tabled == []
    || (k >= 1 && After(p, k) == Some(tabled))
    || (k >= 2 && After(p, k - 1) == Some(tabled) && IsFull(version))
  }

  lemma StepOkDetects(p: Program, tabled: seq<byte>, k: nat, version: int, m: seq<byte>, m': seq<byte>)
    requires ProgramOk(p) && StepsDetected(p) && k < |p.steps|
    requires After(p, k) == Some(m) && After(p, k + 1) == Some(m')
    requires TabledOk(p, tabled, k, version) && |tabled| <= |m| <= |m'|
    ensures Detects(tabled, m, m')
  {
    hide StepOk, Counter, After, GuestMemory;
    assert StepDetected(p, k);
  }

  /** The hash table describes the memory at the last durable step, or, right after a full snapshot, the one before. */
  ghost predicate TableOk(p: Program, h: Host)
    requires ProgramOk(p)
  {
    var k := Durables(h.log);
    && (k == 0 ==> NothingSaved(h.inst))
    && (h.guest.Looping? || h.guest.Saving? ==>
          k <= |p.steps| && TabledOk(p, h.guest.tabled, k, Version(h.inst)))
  }

  lemma SavedVersion(p: Program, h: Host, n: nat)
    requires ProgramOk(p) && HostOk(p, h) && h.guest.Saving? && n >= 1
    ensures Version(AfterWrites(h.inst, h.guest.s, n)) == h.guest.s.meta.version + 1 == Version(h.inst) + 1
  {
    hide Stored, Restored, StepOk, InOrder, ProgramOk, After, Durables;
  }

  lemma MetadataOnly(inst: Inst, s: Sess, n: nat)
    requires n < 2
    ensures AfterWrites(inst, s, n).snapshot == inst.snapshot && AfterWrites(inst, s, n).deltas == inst.deltas
  {
  }

  lemma NextKeepsTable(p: Program, id: string, hash: string, h: Host, e: Event)
    requires ProgramOk(p) && HostOk(p, h) && TableOk(p, h) && Enabled(h, e)
    ensures TableOk(p, Next(p, id, hash, h, e))
  {
    hide AfterWrites, Stored, UpToDate, Restored, Counter, StepOk, ProgramOk, GuestMemory, After, Turn, RunFrom,
         Durables, IsMemory;
    if e.Save? {
      SavedVersion(p, h, WritesOf(e));
      LogGrows(h.log, Durable(Durables(h.log) + 1));
    } else if e.CrashInSave? {
      if e.writes >= 2 {
        LogGrows(h.log, Durable(Durables(h.log) + 1));
      } else {
        assert h.log + [] == h.log;
        MetadataOnly(h.inst, h.guest.s, e.writes);
      }
    } else if e.Proceed? && Durables(h.log) < |p.steps| {
      LogGrows(h.log, Started(Durables(h.log)));
    }
  }

  lemma DetectedStepIsSafe(p: Program, h: Host, e: Event)
    requires ProgramOk(p) && StepsDetected(p) && HostOk(p, h) && TableOk(p, h)
    requires Enabled(h, e) && WindowClosed(h, e)
    ensures SafeWrites(p, h, e)
  {
    hide Stored, Restored, StepOk, InOrder, ProgramOk, StepsDetected, After, Turn, RunFrom, Durables,
         IsMemory, Counter, Detects, LeftoverAgrees;
    if h.guest.Saving? && WritesOf(e) >= 2 && !IsFull(h.guest.s.meta.version + 1) {
      StepOkDetects(p, h.guest.tabled, Durables(h.log), Version(h.inst), Restored(p.init, h.inst), h.guest.s.mem);
    }
  }

  ghost predicate WindowStaysClosed(p: Program, id: string, hash: string, events: seq<Event>)
    requires ProgramOk(p)
  {
    events == [] ||
    (var before := events[..|events| - 1];
     && WindowStaysClosed(p, id, hash, before)
     && (Schedule(p, id, hash, before).Some? ==>
           WindowClosed(Schedule(p, id, hash, before).value, events[|events| - 1])))
  }

  /** For a program without misses, every schedule that keeps the window closed is safe. */
  lemma {:induction false} DetectedStepsAreSafe(p: Program, id: string, hash: string, events: seq<Event>)
    requires ProgramOk(p) && StepsDetected(p)
    requires Schedule(p, id, hash, events).Some? && WindowStaysClosed(p, id, hash, events)
    ensures SafeSchedule(p, id, hash, events)
    ensures TableOk(p, Schedule(p, id, hash, events).value)
  {
    if events != [] {
      var before, e := events[..|events| - 1], events[|events| - 1];
      DetectedStepsAreSafe(p, id, hash, before);
      ScheduleKeepsHost(p, id, hash, before);
      var h := Schedule(p, id, hash, before).value;
      hide HostOk, TableOk, Next, SafeWrites;
      DetectedStepIsSafe(p, h, e);
      NextKeepsTable(p, id, hash, h, e);
    }
  }

  // ---------------------------------------------------------------- and that condition is necessary

  /** Every schedule that keeps the window closed is safe. */
  ghost predicate ProgramSafe(p: Program, id: string, hash: string)
    requires ProgramOk(p)
  {
    forall events | Schedule(p, id, hash, events).Some? && WindowStaysClosed(p, id, hash, events) ::
      SafeSchedule(p, id, hash, events)
  }

  /** A schedule that keeps the window closed leads to this host. */
  ghost predicate Reached(p: Program, id: string, hash: string, events: seq<Event>, h: Host)
    requires ProgramOk(p)
  {
    Schedule(p, id, hash, events) == Some(h) && WindowStaysClosed(p, id, hash, events) && HostOk(p, h)
  }

  lemma HostFits(p: Program, h: Host)
    requires ProgramOk(p) && HostOk(p, h)
    ensures GuestFits(p, h)
  {
  }

  /** One more event, which for a safe program is a safe one. */
  lemma OneMore(p: Program, id: string, hash: string, events: seq<Event>, h: Host, e: Event)
    requires ProgramOk(p) && ProgramSafe(p, id, hash) && Reached(p, id, hash, events, h)
    requires Enabled(h, e) && WindowClosed(h, e)
    ensures GuestFits(p, h) && Reached(p, id, hash, events + [e], Next(p, id, hash, h, e)) && SafeWrites(p, h, e)
  {
    hide HostOk, Next, WindowClosed, SafeWrites, GuestFits;
    HostFits(p, h);
    assert (events + [e])[..|events|] == events;
    ScheduleKeepsHost(p, id, hash, events + [e]);
  }

  lemma Resume(p: Program, id: string, hash: string, events: seq<Event>, h: Host)
    returns (events': seq<Event>, h': Host)
    requires ProgramOk(p) && ProgramSafe(p, id, hash) && Reached(p, id, hash, events, h) && h.guest.Off?
    requires Durables(h.log) < |p.steps| && After(p, Durables(h.log) + 1).Some?
    ensures Reached(p, id, hash, events', h') && h'.inst == h.inst && Durables(h'.log) == Durables(h.log)
    ensures h'.guest.Saving? && h'.guest.tabled == OpenTabled(p.init, h.inst)
  {
    hide ProgramSafe, Reached, HostOk, ProgramOk, Durables, After, OpenTable, OpenTabled, Restored, GuestFits;
    OneMore(p, id, hash, events, h, Boot);
    var booted := Next(p, id, hash, h, Boot);
    events', h' := Go(p, id, hash, events + [Boot], booted);
  }

  lemma TurnIsDone(p: Program, k: nat)
    requires ProgramOk(p) && k < |p.steps| && After(p, k + 1).Some?
    ensures After(p, k).Some?
    ensures var m := After(p, k).value;
            GuestMemory(p, m) && Counter(m, p.at) == k && Turn(p, m) == Done(After(p, k + 1).value)
  {
  }

  /** The next turn of a loop whose step does not fail. */
  lemma Go(p: Program, id: string, hash: string, events: seq<Event>, h: Host)
    returns (events': seq<Event>, h': Host)
    requires ProgramOk(p) && ProgramSafe(p, id, hash) && Reached(p, id, hash, events, h) && h.guest.Looping?
    requires Durables(h.log) < |p.steps| && After(p, Durables(h.log) + 1).Some?
    ensures Reached(p, id, hash, events', h') && h'.inst == h.inst && Durables(h'.log) == Durables(h.log)
    ensures h'.guest.Saving? && h'.guest.tabled == h.guest.tabled
  {
    hide ProgramSafe, Schedule, WindowStaysClosed, Stored, UpToDate, Restored, InOrder, ProgramOk, Durables, GuestFits;
    hide After, Turn, Counter, GuestMemory, RunFrom, SafeWrites;
    TurnIsDone(p, Durables(h.log));
    OneMore(p, id, hash, events, h, Proceed);
    events', h' := events + [Proceed], Next(p, id, hash, h, Proceed);
    LogGrows(h.log, Started(Durables(h.log)));
  }

  /** Stopping after the metadata write costs a version and saves nothing. */
  lemma Bump(p: Program, id: string, hash: string, events: seq<Event>, h: Host)
    returns (events': seq<Event>, h': Host)
    requires ProgramOk(p) && ProgramSafe(p, id, hash) && Reached(p, id, hash, events, h) && h.guest.Saving?
    ensures Reached(p, id, hash, events', h') && h'.guest.Off? && Durables(h'.log) == Durables(h.log)
    ensures Version(h'.inst) == Version(h.inst) + 1
  {
    assert HostOk(p, h);
    hide ProgramSafe, Reached, HostOk, ProgramOk, Durables, After, AfterWrites, GuestFits;
    OneMore(p, id, hash, events, h, CrashInSave(1));
    SavedVersion(p, h, 1);
    assert h.log + [] == h.log;
    events', h' := events + [CrashInSave(1)], Next(p, id, hash, h, CrashInSave(1));
  }

  /** So the version can be shifted to any later one. */
  lemma {:induction false} Shift(p: Program, id: string, hash: string, events: seq<Event>, h: Host, version: int)
    returns (events': seq<Event>, h': Host)
    requires ProgramOk(p) && ProgramSafe(p, id, hash) && Reached(p, id, hash, events, h) && h.guest.Off?
    requires Durables(h.log) < |p.steps| && After(p, Durables(h.log) + 1).Some?
    requires Version(h.inst) <= version
    ensures Reached(p, id, hash, events', h') && h'.guest.Off? && Durables(h'.log) == Durables(h.log)
    ensures Version(h'.inst) == version
    decreases version - Version(h.inst)
  {
    hide ProgramSafe, Reached, ProgramOk, Durables, After;
    events', h' := events, h;
    if Version(h.inst) < version {
      events', h' := Resume(p, id, hash, events, h);
      events', h' := Bump(p, id, hash, events', h');
      events', h' := Shift(p, id, hash, events', h', version);
    }
  }

  /** A checkpoint that goes through. */
  lemma Keep(p: Program, id: string, hash: string, events: seq<Event>, h: Host)
    returns (events': seq<Event>, h': Host)
    requires ProgramOk(p) && ProgramSafe(p, id, hash) && Reached(p, id, hash, events, h) && h.guest.Saving?
    ensures SafeWrites(p, h, Save(false))
    ensures Reached(p, id, hash, events', h') && h'.guest.Looping? && Durables(h'.log) == Durables(h.log) + 1
    ensures Version(h'.inst) == Version(h.inst) + 1 && h'.guest.tabled == NextTabled(h.guest.s, h.guest.tabled)
  {
    assert HostOk(p, h);
    hide ProgramSafe, Reached, ProgramOk, Durables, After, AfterWrites, GuestFits, SafeWrites, Stored, UpToDate,
         Restored, InOrder;
    OneMore(p, id, hash, events, h, Save(false));
    SavedVersion(p, h, 4);
    LogGrows(h.log, Durable(Durables(h.log) + 1));
    events', h' := events + [Save(false)], Next(p, id, hash, h, Save(false));
  }

  lemma Stop(p: Program, id: string, hash: string, events: seq<Event>, h: Host)
    returns (events': seq<Event>, h': Host)
    requires ProgramOk(p) && ProgramSafe(p, id, hash) && Reached(p, id, hash, events, h)
    ensures Reached(p, id, hash, events', h') && h' == h.(guest := Off)
  {
    hide ProgramSafe, Reached, ProgramOk, GuestMemory, SafeWrites;
    OneMore(p, id, hash, events, h, Crash);
    events', h' := events + [Crash], Next(p, id, hash, h, Crash);
  }

  lemma {:induction false} Reach(p: Program, id: string, hash: string, k: nat) returns (events: seq<Event>, h: Host)
    requires ProgramOk(p) && ProgramSafe(p, id, hash) && k <= |p.steps| && After(p, k).Some?
    ensures Reached(p, id, hash, events, h) && h.guest.Off? && Durables(h.log) == k
  {
    if k == 0 {
      InitialHostOk(p);
      events, h := [], Host(EMPTY, Off, []);
    } else {
      hide ProgramSafe, Reached, ProgramOk, Durables, After, SafeWrites;
      TurnIsDone(p, k - 1);
      events, h := Reach(p, id, hash, k - 1);
      events, h := Resume(p, id, hash, events, h);
      events, h := Keep(p, id, hash, events, h);
      events, h := Stop(p, id, hash, events, h);
    }
  }

  lemma FreshIsRestored(init: seq<byte>, inst: Inst)
    requires NothingSaved(inst)
    ensures Restored(init, inst) == init
  {
  }

  /** What is durable is in the store: a memory with a positive counter is not a fresh one. */
  lemma DurableIsSaved(p: Program, h: Host)
    requires ProgramOk(p) && HostOk(p, h) && Durables(h.log) >= 1
    ensures After(p, Durables(h.log)) == Some(OpenTabled(p.init, h.inst))
  {
    if NothingSaved(h.inst) {
      FreshIsRestored(p.init, h.inst);
    }
  }

  lemma SafeStepDetects(p: Program, h: Host, k: nat)
    requires ProgramOk(p) && HostOk(p, h) && h.guest.Saving? && Durables(h.log) == k
    requires SafeWrites(p, h, Save(false)) && !IsFull(Version(h.inst) + 1)
    ensures var m, m' := After(p, k).value, After(p, k + 1).value;
            |h.guest.tabled| <= |m| <= |m'| && Detects(h.guest.tabled, m, m')
  {
    hide ProgramOk, Stored, Restored, InOrder, After, Detects, IsMemory, RunFrom;
  }

  /** A host that is off with `k` steps durable, and whose next checkpoint is full or not, as wanted. */
  lemma ReachVersion(p: Program, id: string, hash: string, k: nat, full: bool)
    returns (events: seq<Event>, h: Host)
    requires ProgramOk(p) && ProgramSafe(p, id, hash) && k < |p.steps| && After(p, k + 1).Some?
    ensures Reached(p, id, hash, events, h) && h.guest.Off? && Durables(h.log) == k
    ensures IsFull(Version(h.inst) + 1) == full && Version(h.inst) > 0
  {
    hide *;
    TurnIsDone(p, k);
    events, h := Reach(p, id, hash, k);
    ReachedVersion(p, id, hash, events, h);
    var v := Version(h.inst);
    FullAndNotFull(v);
    events, h := Shift(p, id, hash, events, h, if full then 5 * v + 4 else 5 * v + 5);
  }

  lemma ReachedVersion(p: Program, id: string, hash: string, events: seq<Event>, h: Host)
    requires ProgramOk(p) && Reached(p, id, hash, events, h)
    ensures Version(h.inst) >= 0
  {
    VersionIsNatural(p.init, h.inst);
  }

  lemma FullAndNotFull(v: nat)
    ensures IsFull(5 * v + 4 + 1) && !IsFull(5 * v + 5 + 1)
  {
  }

  lemma VersionIsNatural(init: seq<byte>, inst: Inst)
    requires Stored(init, inst)
    ensures Version(inst) >= 0
  {
  }

  /** After a restart the next incremental checkpoint compares with the step before. */
  lemma NeighboursAreDetected(p: Program, id: string, hash: string, k: nat)
    requires ProgramOk(p) && ProgramSafe(p, id, hash) && 1 <= k < |p.steps| && After(p, k + 1).Some?
    ensures After(p, k).Some?
    ensures var m, m' := After(p, k).value, After(p, k + 1).value;
            |m| <= |m'| && Detects(m, m, m')
  {
    hide ProgramSafe, ProgramOk, Durables, After, HostOk, SafeWrites, Detects, Schedule, WindowStaysClosed, OpenTabled;
    var events, h := ReachVersion(p, id, hash, k, false);
    DurableIsSaved(p, h);
    events, h := Resume(p, id, hash, events, h);
    var _, _ := Keep(p, id, hash, events, h);
    SafeStepDetects(p, h, k);
  }

  /** A full checkpoint and the next turn: the table stays where it was. */
  lemma KeepFull(p: Program, id: string, hash: string, events: seq<Event>, h: Host)
    returns (events': seq<Event>, h': Host)
    requires ProgramOk(p) && ProgramSafe(p, id, hash) && Reached(p, id, hash, events, h) && h.guest.Saving?
    requires IsFull(Version(h.inst) + 1) && Version(h.inst) > 0
    requires Durables(h.log) + 1 < |p.steps| && After(p, Durables(h.log) + 2).Some?
    ensures Reached(p, id, hash, events', h') && h'.guest.Saving? && Durables(h'.log) == Durables(h.log) + 1
    ensures h'.guest.tabled == h.guest.tabled && !IsFull(Version(h'.inst) + 1)
  {
    hide ProgramSafe, ProgramOk, Durables, After, Stored, Restored, SafeWrites, Schedule, WindowStaysClosed;
    assert h.guest.s.meta.version == Version(h.inst);
    hide Reached;
    events', h' := Keep(p, id, hash, events, h);
    events', h' := Go(p, id, hash, events', h');
  }

  /** And after a full checkpoint, with the one before that. */
  lemma AcrossIsDetected(p: Program, id: string, hash: string, k: nat)
    requires ProgramOk(p) && ProgramSafe(p, id, hash) && 2 <= k < |p.steps| && After(p, k + 1).Some?
    ensures After(p, k).Some? && After(p, k - 1).Some?
    ensures var t, m, m' := After(p, k - 1).value, After(p, k).value, After(p, k + 1).value;
            |t| <= |m| <= |m'| && Detects(t, m, m')
  {
    hide ProgramSafe, ProgramOk, Durables, After, HostOk, SafeWrites, Detects, Schedule, WindowStaysClosed, OpenTabled;
    TurnIsDone(p, k);
    var events, h := ReachVersion(p, id, hash, k - 1, true);
    DurableIsSaved(p, h);
    events, h := Resume(p, id, hash, events, h);
    events, h := KeepFull(p, id, hash, events, h);
    var _, _ := Keep(p, id, hash, events, h);
    SafeStepDetects(p, h, k);
  }

  /**
   Every schedule that keeps the window closed is safe if and only if the program has no miss between
   neighbouring steps, from the second on, nor across a full snapshot, from the third on.
   */
  lemma ProgramSafeIff(p: Program, id: string, hash: string)
    requires ProgramOk(p)
    ensures ProgramSafe(p, id, hash) <==> StepsDetected(p)
  {
    hide ProgramOk, After, Detects, Schedule, WindowStaysClosed, SafeSchedule;
    if StepsDetected(p) {
      forall events | Schedule(p, id, hash, events).Some? && WindowStaysClosed(p, id, hash, events)
        ensures SafeSchedule(p, id, hash, events)
      {
        DetectedStepsAreSafe(p, id, hash, events);
      }
    }
    if ProgramSafe(p, id, hash) {
      hide ProgramSafe;
      forall k | 0 <= k < |p.steps| && After(p, k).Some? && After(p, k + 1).Some?
        ensures StepDetected(p, k)
      {
        StepsGrow(p, k);
        if k >= 1 {
          NeighboursAreDetected(p, id, hash, k);
        }
        if k >= 2 {
          AcrossIsDetected(p, id, hash, k);
        }
      }
    }
  }

  lemma StepsGrow(p: Program, k: nat)
    requires ProgramOk(p) && k < |p.steps| && After(p, k + 1).Some?
    ensures After(p, k).Some? && |After(p, k).value| <= |After(p, k + 1).value|
  {
    TurnIsDone(p, k);
    TurnKeepsMemory(p, After(p, k).value);
  }
}
