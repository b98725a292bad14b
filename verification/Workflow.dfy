/**
 Workflows whose steps call APIs. After a crash the runner goes on with the first step that is not
 durable, while the engine counts calls from the beginning again: which answers the calls get then.
 */
module Workflow {
  import opened Bytes
  import opened Protocol
  import opened Oplog

  function Flat<T>(xs: seq<seq<T>>): seq<T> {
    if xs == [] then [] else xs[0] + Flat(xs[1..])
  }

  /** For every call of every step, what the world would answer. */
  predicate Fit(steps: seq<seq<Call>>, worlds: seq<seq<World>>) {
    |steps| == |worlds| && forall i | 0 <= i < |steps| :: |steps[i]| == |worlds[i]|
  }

  lemma {:induction false} FlatFits(steps: seq<seq<Call>>, worlds: seq<seq<World>>)
    requires Fit(steps, worlds)
    ensures |Flat(steps)| == |Flat(worlds)|
    decreases |steps|
  {
    if steps != [] {
      assert forall i | 0 <= i < |steps[1..]| :: steps[1..][i] == steps[i + 1] && worlds[1..][i] == worlds[i + 1];
      FlatFits(steps[1..], worlds[1..]);
    }
  }

  /** Whether the truncation at a version goes through: the host may stop before it, and its errors are dropped. */
  type Through = int -> bool

  /** The checkpoint that makes this version truncates the oplog. */
  predicate Cuts(version: int, through: Through) {
    IsFull(version) && version > 1 && through(version)
  }

  /**
   A session: the calls of each step, and after it a checkpoint, which at every fifth version
   truncates the log at the call index reached, if the truncation goes through.
   */
  function Session(log: seq<OplogEntry>, version: int, index: int, steps: seq<seq<Call>>, worlds: seq<seq<World>>,
                   through: Through): Trace
    requires Fit(steps, worlds)
    decreases |steps|
  {
    if steps == [] then Trace([], [], log)
    else
      assert forall i | 0 <= i < |steps[1..]| :: steps[1..][i] == steps[i + 1] && worlds[1..][i] == worlds[i + 1];
      var t, index' := Run(log, index, steps[0], worlds[0]), index + |steps[0]|;
      var kept := if Cuts(version + 1, through) then Truncated(t.log, index') else t.log;
      var rest := Session(kept, version + 1, index', steps[1..], worlds[1..], through);
      Trace(t.replies + rest.replies, t.invoked + rest.invoked, rest.log)
  }

  /** The last call index that the session truncates at, or `cut` if it does not. */
  function CutOf(version: int, index: int, cut: int, steps: seq<seq<Call>>, through: Through): int
    decreases |steps|
  {
    if steps == [] then cut
    else
      var index' := index + |steps[0]|;
      CutOf(version + 1, index', if Cuts(version + 1, through) then index' else cut, steps[1..], through)
  }

  /** A session's truncations do not show in its replies; its log is the uncut one, cut once. */
  lemma {:induction false} CutsAreInvisible(log: seq<OplogEntry>, cut: int, version: int, index: int,
                                            steps: seq<seq<Call>>, worlds: seq<seq<World>>, through: Through)
    requires Fit(steps, worlds) && cut <= index
    ensures |Flat(steps)| == |Flat(worlds)|
    ensures var s, t := Session(Truncated(log, cut), version, index, steps, worlds, through),
                        Run(log, index, Flat(steps), Flat(worlds));
            && s.replies == t.replies && s.invoked == t.invoked
            && s.log == Truncated(t.log, CutOf(version, index, cut, steps, through))
    decreases |steps|
  {
    hide Run, Truncated, Cuts, Session, Flat, CutOf, Fit;
    FlatFits(steps, worlds);
    if steps == [] {
      NoSteps(log, cut, version, index, worlds, through);
    } else {
      Unfolded(Truncated(log, cut), version, index, cut, steps, worlds, through);
      var t, index' := Run(log, index, steps[0], worlds[0]), index + |steps[0]|;
      var cut' := if Cuts(version + 1, through) then index' else cut;
      FlatFits(steps[1..], worlds[1..]);
      RunInParts(log, index, steps[0], worlds[0], Flat(steps[1..]), Flat(worlds[1..]));
      OneStepCut(log, cut, version, index, steps[0], worlds[0], through);
      CutsAreInvisible(t.log, cut', version + 1, index', steps[1..], worlds[1..], through);
    }
  }

  lemma NoSteps(log: seq<OplogEntry>, cut: int, version: int, index: int, worlds: seq<seq<World>>, through: Through)
    requires Fit([], worlds)
    ensures |Flat<Call>([])| == |Flat(worlds)|
    ensures Run(log, index, Flat([]), Flat(worlds)) == Trace([], [], log)
    ensures Session(Truncated(log, cut), version, index, [], worlds, through) == Trace([], [], Truncated(log, cut))
    ensures CutOf(version, index, cut, [], through) == cut
  {
  }

  /** The first step of a session, and the rest. */
  lemma Unfolded(log: seq<OplogEntry>, version: int, index: int, cut: int,
                 steps: seq<seq<Call>>, worlds: seq<seq<World>>, through: Through)
    requires Fit(steps, worlds) && steps != []
    ensures |steps| == |worlds|
    ensures |steps[0]| == |worlds[0]| && Fit(steps[1..], worlds[1..])
    ensures Flat(steps) == steps[0] + Flat(steps[1..]) && Flat(worlds) == worlds[0] + Flat(worlds[1..])
    ensures var t, index' := Run(log, index, steps[0], worlds[0]), index + |steps[0]|;
            var kept := if Cuts(version + 1, through) then Truncated(t.log, index') else t.log;
            var rest := Session(kept, version + 1, index', steps[1..], worlds[1..], through);
            && Session(log, version, index, steps, worlds, through)
               == Trace(t.replies + rest.replies, t.invoked + rest.invoked, rest.log)
            && CutOf(version, index, cut, steps, through)
               == CutOf(version + 1, index', if Cuts(version + 1, through) then index' else cut, steps[1..], through)
  {
    assert forall i | 0 <= i < |steps[1..]| :: steps[1..][i] == steps[i + 1] && worlds[1..][i] == worlds[i + 1];
  }

  lemma OneStepCut(log: seq<OplogEntry>, cut: int, version: int, index: int, step: seq<Call>, world: seq<World>,
                   through: Through)
    requires |step| == |world| && cut <= index
    ensures var t, c := Run(log, index, step, world), Run(Truncated(log, cut), index, step, world);
            var index' := index + |step|;
            && c.replies == t.replies && c.invoked == t.invoked
            && (if Cuts(version + 1, through) then Truncated(c.log, index') else c.log)
               == Truncated(t.log, if Cuts(version + 1, through) then index' else cut)
  {
    hide Run, Truncated, Cuts;
    RunAfterCut(log, cut, index, step, world);
    TruncatedTwice(Run(log, index, step, world).log, cut, index + |step|);
  }

  /** The last version up to `version` that is a multiple of five. */
  function LastFull(version: nat): nat {
    version / 5 * 5
  }

  lemma FullVersions(version: nat, n: nat, through: Through)
    requires n >= 1 && forall v :: through(v)
    ensures LastFull(version + n) == version + 1 ==> Cuts(version + 1, through)
    ensures Cuts(version + 1, through) ==> LastFull(version + n) >= version + 1
    ensures LastFull(version + n) <= version + n
  {
  }

  lemma FlatPrefix(steps: seq<seq<Call>>, n: nat)
    requires 1 <= n <= |steps|
    ensures Flat(steps[..n]) == steps[0] + Flat(steps[1..][..n - 1])
  {
    assert steps[..n][1..] == steps[1..][..n - 1];
  }

  /** If all its truncations go through, a session's cut is at the last multiple of five. */
  lemma {:induction false} CutIsAtTheLastFull(version: nat, index: int, cut: int, steps: seq<seq<Call>>,
                                              through: Through)
    requires forall v :: through(v)
    ensures LastFull(version + |steps|) <= version + |steps|
    ensures var full := LastFull(version + |steps|);
            CutOf(version, index, cut, steps, through) ==
              if full > version then index + |Flat(steps[..full - version])| else cut
    decreases |steps|
  {
    if steps != [] {
      var full := LastFull(version + |steps|);
      var index' := index + |steps[0]|;
      FullVersions(version, |steps|, through);
      hide Cuts, LastFull, Flat;
      CutIsAtTheLastFull(version + 1, index', if Cuts(version + 1, through) then index' else cut, steps[1..], through);
      if full > version {
        FlatPrefix(steps, full - version);
        if full == version + 1 {
          NoCalls(steps[1..]);
        }
      }
    }
  }

  lemma NoCalls(steps: seq<seq<Call>>)
    ensures Flat(steps[..0]) == []
  {
  }

  predicate AllApi(calls: seq<Call>) {
    forall i | 0 <= i < |calls| :: calls[i].CallApi?
  }

  // ---------------------------------------------------------------- what is left of earlier sessions

  /**
   An earlier session: the calls it made, from its first one on, what the world answered if it was asked,
   and the last call index at which a truncation of its went through.
   */
  datatype Past = Past(calls: seq<Call>, worlds: seq<World>, cut: int)

  predicate PastOk(p: Past) {
    |p.calls| == |p.worlds| && AllApi(p.calls) && 0 <= p.cut
  }

  predicate AllOk(pasts: seq<Past>) {
    forall i | 0 <= i < |pasts| :: PastOk(pasts[i])
  }

  /** The log that any number of sessions, one after the other, leave behind. */
  function LogOf(pasts: seq<Past>): seq<OplogEntry>
    requires AllOk(pasts)
  {
    if pasts == [] then []
    else
      var last := pasts[|pasts| - 1];
      Truncated(Run(LogOf(pasts[..|pasts| - 1]), 0, last.calls, last.worlds).log, last.cut)
  }

  /**
   The answer that is logged for the k-th call of a session: that of the earliest session, since the
   last one to cut it off, whose own k-th call was to an API of that name and was answered.
   */
  function Logged(pasts: seq<Past>, k: nat, name: seq<byte>): Option<seq<byte>>
    requires AllOk(pasts)
  {
    if pasts == [] then None
    else
      var last := pasts[|pasts| - 1];
      var earlier := Logged(pasts[..|pasts| - 1], k, name);
      if 1 + k <= last.cut then None
      else if earlier.Some? then earlier
      else if k < |last.calls| && last.calls[k].name == name then last.worlds[k].answer
      else None
  }

  /** What one run adds to the log: the answer of its call of that index and name, if there was none. */
  lemma {:induction false} RunLogs(log: seq<OplogEntry>, index: int, calls: seq<Call>, worlds: seq<World>,
                                   call: Call, k: nat)
    requires |calls| == |worlds| && AllApi(calls) && call.CallApi?
    ensures var r := Replayed(log, index + 1 + k, call);
            Replayed(Run(log, index, calls, worlds).log, index + 1 + k, call) ==
              if r.Some? then r
              else if k < |calls| && calls[k].name == call.name && worlds[k].answer.Some?
              then Some(Deliver(call.maxLen, worlds[k].answer.value)) else None
    decreases |calls|
  {
    hide Host, Deliver, Replayed;
    if calls != [] {
      var s := Host(log, index + 1, calls[0], worlds[0]);
      OneCallLogs(log, index + 1, calls[0], worlds[0], call, index + 1 + k);
      if k > 0 {
        RunLogs(s.log, index + 1, calls[1..], worlds[1..], call, k - 1);
      } else {
        LaterCallsLogElsewhere(s.log, index + 1, calls[1..], worlds[1..], call);
      }
    }
  }

  lemma OneCallLogs(log: seq<OplogEntry>, index: int, made: Call, world: World, call: Call, at: int)
    requires made.CallApi? && call.CallApi?
    ensures var r := Replayed(log, at, call);
            Replayed(Host(log, index, made, world).log, at, call) ==
              if r.Some? then r
              else if at == index && made.name == call.name && world.answer.Some?
              then Some(Deliver(call.maxLen, world.answer.value)) else None
  {
    var s := Host(log, index, made, world);
    if s.log != log {
      var e := s.log[|log|];
      assert s.log == log + [e];
      AppendedLookup(log, e, at, call);
      assert [e][1..] == [];
      assert FirstMatch([e], at, call.name) == if at == index && made.name == call.name then Some(e) else None;
    }
  }

  lemma LaterCallsLogElsewhere(log: seq<OplogEntry>, index: int, calls: seq<Call>, worlds: seq<World>, call: Call)
    requires |calls| == |worlds|
    ensures Replayed(Run(log, index, calls, worlds).log, index, call) == Replayed(log, index, call)
  {
    var t := Run(log, index, calls, worlds);
    RunAppends(log, index, calls, worlds);
    var more := t.log[|log|..];
    assert t.log == log + more;
    OtherIndicesDoNotAnswer(more, index, call);
    if Replayed(log, index, call).Some? {
      LookupIsStable(log, more, index, call);
    } else {
      LookupSkips(log, more, index, call);
    }
  }

  /** What the log of all earlier sessions says. */
  lemma {:induction false} LogAnswers(pasts: seq<Past>, k: nat, call: Call)
    requires AllOk(pasts) && call.CallApi?
    ensures var r := Logged(pasts, k, call.name);
            Replayed(LogOf(pasts), 1 + k, call) == if r.Some? then Some(Deliver(call.maxLen, r.value)) else None
    decreases |pasts|
  {
    if pasts != [] {
      hide Run, Truncated, Deliver, Replayed;
      var before, last := pasts[..|pasts| - 1], pasts[|pasts| - 1];
      assert PastOk(last);
      LogAnswers(before, k, call);
      RunLogs(LogOf(before), 0, last.calls, last.worlds, call, k);
      LookupAfterCut(Run(LogOf(before), 0, last.calls, last.worlds).log, last.cut, 1 + k, call);
    } else {
      OtherIndicesDoNotAnswer([], 1 + k, call);
    }
  }

  /** Nothing in that log is at or below call index 0. */
  lemma {:induction false} PositiveIndices(pasts: seq<Past>)
    requires AllOk(pasts)
    ensures forall i | 0 <= i < |LogOf(pasts)| :: LogOf(pasts)[i].callIndex > 0
    ensures Truncated(LogOf(pasts), 0) == LogOf(pasts)
    decreases |pasts|
  {
    if pasts != [] {
      var before, last := pasts[..|pasts| - 1], pasts[|pasts| - 1];
      assert PastOk(last);
      PositiveIndices(before);
      RunAppends(LogOf(before), 0, last.calls, last.worlds);
      TruncatedIsLater(Run(LogOf(before), 0, last.calls, last.worlds).log, last.cut);
    }
    TruncationKeepsLater(LogOf(pasts), 0);
  }

  /** A session that is stopped anywhere, whatever of its truncations went through, is one more of the past. */
  lemma StoppedSessionIsPast(pasts: seq<Past>, version: int, steps: seq<seq<Call>>, worlds: seq<seq<World>>,
                             part: seq<Call>, partWorlds: seq<World>, through: Through)
    requires AllOk(pasts) && Fit(steps, worlds) && |part| == |partWorlds|
    requires AllApi(Flat(steps) + part)
    ensures |Flat(steps)| == |Flat(worlds)|
    ensures var past := Past(Flat(steps) + part, Flat(worlds) + partWorlds, CutOf(version, 0, 0, steps, through));
            && AllOk(pasts + [past])
            && Run(Session(LogOf(pasts), version, 0, steps, worlds, through).log, |Flat(steps)|, part, partWorlds).log
               == LogOf(pasts + [past])
  {
    hide Run, Session, CutOf, Truncated, Flat, Fit, AllApi;
    var log, cut := LogOf(pasts), CutOf(version, 0, 0, steps, through);
    var past := Past(Flat(steps) + part, Flat(worlds) + partWorlds, cut);
    PositiveIndices(pasts);
    CutsAreInvisible(log, 0, version, 0, steps, worlds, through);
    CutIsWithin(version, 0, 0, steps, through);
    RunInParts(log, 0, Flat(steps), Flat(worlds), part, partWorlds);
    RunAfterCut(Run(log, 0, Flat(steps), Flat(worlds)).log, cut, |Flat(steps)|, part, partWorlds);
    assert (pasts + [past])[..|pasts|] == pasts;
  }

  lemma {:induction false} CutIsWithin(version: int, index: int, cut: int, steps: seq<seq<Call>>, through: Through)
    requires 0 <= cut <= index
    ensures 0 <= CutOf(version, index, cut, steps, through) <= index + |Flat(steps)|
    decreases |steps|
  {
    if steps != [] {
      var index' := index + |steps[0]|;
      CutIsWithin(version + 1, index', if Cuts(version + 1, through) then index' else cut, steps[1..], through);
    }
  }

  // ---------------------------------------------------------------- the session that goes on

  /**
   The answers after any number of crashes. The session that goes on with the steps `rest` gets for
   its k-th call the answer that is logged for a k-th call to an API of that name; if there is none, and
   only then, the API is called.
   */
  lemma ResumedCallsAreAnsweredByPosition(pasts: seq<Past>, version: int, rest: seq<seq<Call>>, later: seq<seq<World>>,
                                          through: Through, k: nat)
    requires AllOk(pasts) && Fit(rest, later)
    requires |Flat(rest)| == |Flat(later)| && AllApi(Flat(rest)) && k < |Flat(rest)|
    ensures var resumed := Session(LogOf(pasts), version, 0, rest, later, through);
            var call, r := Flat(rest)[k], Logged(pasts, k, Flat(rest)[k].name);
            && |resumed.invoked| == |resumed.replies| == |Flat(rest)|
            && resumed.invoked[k] == r.None?
            && resumed.replies[k] == if r.Some? then Deliver(call.maxLen, r.value) else Live(call, Flat(later)[k])
  {
    hide Replayed, Deliver, Live, Session, LogOf, Logged;
    var log := LogOf(pasts);
    AnswersAreLookedUp(log, 0, Flat(rest), Flat(later), k);
    LogAnswers(pasts, k, Flat(rest)[k]);
    PositiveIndices(pasts);
    CutsAreInvisible(log, 0, version, 0, rest, later, through);
  }

  /** After one session: its own k-th answer, if the names agree, it was given, and it has not been cut. */
  lemma AfterOneSession(past: Past, k: nat, name: seq<byte>)
    requires PastOk(past)
    ensures Logged([past], k, name) ==
            if past.cut < 1 + k <= |past.calls| && past.calls[k].name == name then past.worlds[k].answer else None
  {
    assert [past][..0] == [];
  }

  /** Stopped right after a full checkpoint that truncated, a workflow makes every later call anew. */
  lemma AfterAFullCheckpointCallsAreLive(pasts: seq<Past>, k: nat, name: seq<byte>)
    requires AllOk(pasts) && pasts != []
    requires var last := pasts[|pasts| - 1]; 1 + k <= last.cut || (last.cut == |last.calls| && Shorter(pasts))
    ensures Logged(pasts, k, name).None?
  {
    if 1 + k > pasts[|pasts| - 1].cut {
      NothingBeyond(pasts[..|pasts| - 1], pasts[|pasts| - 1].cut, k, name);
    }
  }

  /** No earlier session made more calls than the last one. */
  predicate Shorter(pasts: seq<Past>)
    requires pasts != []
  {
    forall i | 0 <= i < |pasts| :: |pasts[i].calls| <= |pasts[|pasts| - 1].calls|
  }

  lemma {:induction false} NothingBeyond(pasts: seq<Past>, n: int, k: nat, name: seq<byte>)
    requires AllOk(pasts) && n < 1 + k && forall i | 0 <= i < |pasts| :: |pasts[i].calls| <= n
    ensures Logged(pasts, k, name).None?
    decreases |pasts|
  {
    if pasts != [] {
      NothingBeyond(pasts[..|pasts| - 1], n, k, name);
    }
  }
}
