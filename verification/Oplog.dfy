/** Recording and replaying host calls: the oplog, its lookup, its truncation. */
module Oplog {
  import opened Bytes
  import opened Protocol

  // ---------------------------------------------------------------- decimal payloads

  /** The bytes of "host_get_time". */
  const TIME: seq<byte> := [104, 111, 115, 116, 95, 103, 101, 116, 95, 116, 105, 109, 101]

  function Digits(n: nat): (s: seq<byte>)
    ensures |s| > 0 && forall i | 0 <= i < |s| :: 48 <= s[i] < 58
  {
    if n < 10 then [48 + n] else Digits(n / 10) + [48 + n % 10]
  }

  function FormatInt(n: int): seq<byte> {
    if n < 0 then [45] + Digits(-n) else Digits(n)
  }

  /** A non-empty run of decimal digits, or nothing. */
  function ParseDigits(s: seq<byte>): Option<nat> {
    if s == [] || !(48 <= s[|s| - 1] < 58) then None
    else if |s| == 1 then Some(s[0] - 48)
    else
      match ParseDigits(s[..|s| - 1])
      case None => None
      case Some(n) => Some(10 * n + (s[|s| - 1] - 48))
  }

  /** Base-10 parsing into 64 bits: an optional sign, digits, and a range check. */
  function ParseInt(s: seq<byte>): Option<int> {
    if s == [] then None
    else
      var negative := s[0] == 45;
      match ParseDigits(if negative || s[0] == 43 then s[1..] else s)
      case None => None
      case Some(value) =>
        var n: int := value;
        if negative then (if n <= 0x8000_0000_0000_0000 then Some(-n) else None)
        else if n < 0x8000_0000_0000_0000 then Some(n) else None
  }

  /** Decimal as printed: a sign exactly for negative numbers, and no leading zero. */
  lemma {:induction false} FormatIsCanonical(n: int)
    ensures var s := FormatInt(n);
            && (n < 0 <==> s[0] == 45)
            && var d := if n < 0 then s[1..] else s;
               |d| > 0 && (forall i | 0 <= i < |d| :: 48 <= d[i] < 58) && (d[0] == 48 ==> n == 0 && d == [48])
  {
    NoLeadingZero(if n < 0 then -n else n);
  }

  lemma {:induction false} NoLeadingZero(n: nat)
    ensures Digits(n)[0] == 48 ==> n == 0
  {
    if n >= 10 {
      NoLeadingZero(n / 10);
    }
  }

  lemma {:induction false} DigitsParse(n: nat)
    ensures ParseDigits(Digits(n)) == Some(n)
  {
    if n >= 10 {
      DigitsParse(n / 10);
      assert Digits(n)[..|Digits(n)| - 1] == Digits(n / 10);
    }
  }

  /** Printing and parsing a 64-bit integer is the identity. */
  lemma DecimalRoundTrip(n: int)
    requires -0x8000_0000_0000_0000 <= n < 0x8000_0000_0000_0000
    ensures ParseInt(FormatInt(n)) == Some(n)
  {
    var s := FormatInt(n);
    var d := Digits(if n < 0 then -n else n);
    DigitsParse(if n < 0 then -n else n);
    hide Digits, ParseDigits;
    if n < 0 {
      assert s == [45] + d && s[1..] == d;
    } else {
      assert s == d && s[0] != 45 && s[0] != 43;
    }
  }

  // ---------------------------------------------------------------- one call

  /** The first entry logged under this call index and name. */
  function FirstMatch(log: seq<OplogEntry>, index: int, name: seq<byte>): Option<OplogEntry> {
    if log == [] then None
    else if log[0].callIndex == index && log[0].apiName == name then Some(log[0])
    else FirstMatch(log[1..], index, name)
  }

  /** The first time logged under this call index that parses. */
  function LoggedTime(log: seq<OplogEntry>, index: int): Option<int> {
    if log == [] then None
    else if log[0].callIndex == index && log[0].apiName == TIME && ParseInt(log[0].response).Some? then
      ParseInt(log[0].response)
    else LoggedTime(log[1..], index)
  }

  datatype Call =
    | GetTime
    | CallApi(name: seq<byte>, request: seq<byte>, maxLen: int)

  /** What the outside world would answer now; None is a handler that fails. */
  datatype World = World(now: int, answer: Option<seq<byte>>)

  /** What the guest sees: a time, or a length (or an error code) and the bytes written for it. */
  datatype Reply = Time(ns: int) | Bytes(code: int, written: Option<seq<byte>>)

  datatype Step = Step(reply: Reply, invoked: bool, log: seq<OplogEntry>)

  function Deliver(maxLen: int, response: seq<byte>): Reply {
    if maxLen < |response| then Bytes(-2, None) else Bytes(|response|, Some(response))
  }

  /** The reply that the log alone gives, if it gives one. */
  function Replayed(log: seq<OplogEntry>, index: int, call: Call): Option<Reply> {
    match call
    case GetTime => (match LoggedTime(log, index) case Some(t) => Some(Time(t)) case None => None)
    case CallApi(name, _, maxLen) =>
      (match FirstMatch(log, index, name) case Some(e) => Some(Deliver(maxLen, e.response)) case None => None)
  }

  /** One host call under call index `index`. */
  function Host(log: seq<OplogEntry>, index: int, call: Call, world: World): Step {
    var replayed := Replayed(log, index, call);
    if replayed.Some? then Step(replayed.value, false, log)
    else
      match call
      case GetTime => Step(Time(world.now), true, log + [OplogEntry(index, TIME, [], FormatInt(world.now))])
      case CallApi(name, request, maxLen) =>
        match world.answer
        case None => Step(Bytes(-1, None), true, log)
        case Some(response) =>
          Step(Deliver(maxLen, response), true, log + [OplogEntry(index, name, request, response)])
  }

  /** The first entry of this call index and name. */
  ghost predicate FirstEntry(log: seq<OplogEntry>, k: int, index: int, name: seq<byte>) {
    && 0 <= k < |log| && log[k].callIndex == index && log[k].apiName == name
    && forall j | 0 <= j < k :: !(log[j].callIndex == index && log[j].apiName == name)
  }

  lemma {:induction false} FirstMatchIsFirst(log: seq<OplogEntry>, index: int, name: seq<byte>)
    ensures FirstMatch(log, index, name).None? <==>
            forall k | 0 <= k < |log| :: !(log[k].callIndex == index && log[k].apiName == name)
    ensures FirstMatch(log, index, name).Some? ==>
              exists k :: FirstEntry(log, k, index, name) && FirstMatch(log, index, name) == Some(log[k])
    decreases |log|
  {
    if log != [] {
      assert forall k | 0 <= k < |log[1..]| :: log[1..][k] == log[k + 1];
      FirstMatchIsFirst(log[1..], index, name);
      if log[0].callIndex == index && log[0].apiName == name {
        assert FirstEntry(log, 0, index, name);
      } else if FirstMatch(log[1..], index, name).Some? {
        var k :| FirstEntry(log[1..], k, index, name) && FirstMatch(log[1..], index, name) == Some(log[1..][k]);
        assert FirstEntry(log, k + 1, index, name);
      }
    }
  }

  /** The first entry of this call index that the clock logged and that is a time. */
  ghost predicate FirstTime(log: seq<OplogEntry>, k: int, index: int) {
    && 0 <= k < |log| && log[k].callIndex == index && log[k].apiName == TIME && ParseInt(log[k].response).Some?
    && forall j | 0 <= j < k ::
         !(log[j].callIndex == index && log[j].apiName == TIME && ParseInt(log[j].response).Some?)
  }

  lemma {:induction false} LoggedTimeIsFirst(log: seq<OplogEntry>, index: int)
    ensures LoggedTime(log, index).None? <==>
            forall k | 0 <= k < |log| ::
              !(log[k].callIndex == index && log[k].apiName == TIME && ParseInt(log[k].response).Some?)
    ensures LoggedTime(log, index).Some? ==>
              exists k :: FirstTime(log, k, index) && LoggedTime(log, index) == ParseInt(log[k].response)
    decreases |log|
  {
    hide ParseInt;
    if log != [] {
      assert forall k | 0 <= k < |log[1..]| :: log[1..][k] == log[k + 1];
      LoggedTimeIsFirst(log[1..], index);
      if log[0].callIndex == index && log[0].apiName == TIME && ParseInt(log[0].response).Some? {
        assert FirstTime(log, 0, index);
      } else if LoggedTime(log[1..], index).Some? {
        var k :| FirstTime(log[1..], k, index) && LoggedTime(log[1..], index) == ParseInt(log[1..][k].response);
        assert FirstTime(log, k + 1, index);
      }
    }
  }

  /** The response that an API call comes to: the first logged one, or else the handler's. */
  ghost predicate Responds(log: seq<OplogEntry>, index: int, name: seq<byte>, answer: Option<seq<byte>>,
                           invoked: bool, response: Option<seq<byte>>) {
    if invoked then
      && response == answer
      && forall k | 0 <= k < |log| :: !(log[k].callIndex == index && log[k].apiName == name)
    else exists k :: FirstEntry(log, k, index, name) && response == Some(log[k].response)
  }

  /** What an API call does, without the functions above: whose response, which code, what is logged. */
  lemma ApiCallMeans(log: seq<OplogEntry>, index: int, name: seq<byte>, request: seq<byte>, maxLen: int, world: World)
    returns (response: Option<seq<byte>>)
    ensures var s := Host(log, index, CallApi(name, request, maxLen), world);
            && Responds(log, index, name, world.answer, s.invoked, response)
            && s.reply.Bytes?
            && s.reply.code == (if response.None? then -1
                                else if maxLen < |response.value| then -2 else |response.value|)
            && s.reply.written == (if s.reply.code >= 0 then response else None)
            && s.log == log + if s.invoked && response.Some? then [OplogEntry(index, name, request, response.value)]
                              else []
  {
    FirstMatchIsFirst(log, index, name);
    var found := FirstMatch(log, index, name);
    response := if found.Some? then Some(found.value.response) else world.answer;
    assert log + [] == log;
  }

  /** And what a clock call does. */
  lemma ClockCallMeans(log: seq<OplogEntry>, index: int, world: World)
    ensures var s := Host(log, index, GetTime, world);
            && s.reply.Time?
            && (if s.invoked then
                  && s.reply.ns == world.now && s.log == log + [OplogEntry(index, TIME, [], FormatInt(world.now))]
                  && forall k | 0 <= k < |log| ::
                       !(log[k].callIndex == index && log[k].apiName == TIME && ParseInt(log[k].response).Some?)
                else
                  s.log == log && exists k :: FirstTime(log, k, index) && ParseInt(log[k].response) == Some(s.reply.ns))
  {
    LoggedTimeIsFirst(log, index);
    hide ParseInt, FormatInt, LoggedTime;
  }

  predicate Clock(world: World) {
    -0x8000_0000_0000_0000 <= world.now < 0x8000_0000_0000_0000
  }

  lemma {:induction false} LookupIsStable(log: seq<OplogEntry>, more: seq<OplogEntry>, index: int, call: Call)
    requires Replayed(log, index, call).Some?
    ensures Replayed(log + more, index, call) == Replayed(log, index, call)
    decreases |log|
  {
    assert log != [];
    assert (log + more)[1..] == log[1..] + more;
    match call
    case GetTime =>
      if !(log[0].callIndex == index && log[0].apiName == TIME && ParseInt(log[0].response).Some?) {
        LookupIsStable(log[1..], more, index, call);
      }
    case CallApi(name, _, _) =>
      if !(log[0].callIndex == index && log[0].apiName == name) {
        LookupIsStable(log[1..], more, index, call);
      }
  }

  lemma {:induction false} LookupSkips(log: seq<OplogEntry>, more: seq<OplogEntry>, index: int, call: Call)
    requires Replayed(log, index, call).None?
    ensures Replayed(log + more, index, call) == Replayed(more, index, call)
    decreases |log|
  {
    if log == [] {
      assert log + more == more;
    } else {
      assert (log + more)[1..] == log[1..] + more;
      LookupSkips(log[1..], more, index, call);
    }
  }

  /** Whatever a call leaves in the log answers the same call with the same reply. */
  lemma HostIsReplayable(log: seq<OplogEntry>, index: int, call: Call, world: World)
    requires Clock(world)
    ensures var s := Host(log, index, call, world);
            && log <= s.log
            && (s.log != log || !s.invoked <==> Replayed(s.log, index, call).Some?)
            && (Replayed(s.log, index, call).Some? ==> Replayed(s.log, index, call) == Some(s.reply))
  {
    var s := Host(log, index, call, world);
    if s.invoked && s.log != log {
      var e := s.log[|log|];
      assert s.log == log + [e];
      LookupSkips(log, [e], index, call);
      assert [e][1..] == [];
      DecimalRoundTrip(world.now);
    }
  }

  // ---------------------------------------------------------------- whole runs

  datatype Trace = Trace(replies: seq<Reply>, invoked: seq<bool>, log: seq<OplogEntry>)

  /** A guest issuing `calls` in order; its first call has index `index + 1`. */
  function Run(log: seq<OplogEntry>, index: int, calls: seq<Call>, worlds: seq<World>): (t: Trace)
    requires |calls| == |worlds|
    ensures |t.replies| == |t.invoked| == |calls|
    decreases |calls|
  {
    if calls == [] then Trace([], [], log)
    else
      var s := Host(log, index + 1, calls[0], worlds[0]);
      var t := Run(s.log, index + 1, calls[1..], worlds[1..]);
      Trace([s.reply] + t.replies, [s.invoked] + t.invoked, t.log)
  }

  /** A run only appends, and only under its own, later, call indices. */
  lemma {:induction false} RunAppends(log: seq<OplogEntry>, index: int, calls: seq<Call>, worlds: seq<World>)
    requires |calls| == |worlds|
    ensures log <= Run(log, index, calls, worlds).log
    ensures forall i | |log| <= i < |Run(log, index, calls, worlds).log| ::
              index < Run(log, index, calls, worlds).log[i].callIndex <= index + |calls|
    decreases |calls|
  {
    if calls != [] {
      var s := Host(log, index + 1, calls[0], worlds[0]);
      RunAppends(s.log, index + 1, calls[1..], worlds[1..]);
    }
  }

  lemma {:induction false} OtherIndicesDoNotAnswer(log: seq<OplogEntry>, index: int, call: Call)
    requires forall i | 0 <= i < |log| :: log[i].callIndex != index
    ensures Replayed(log, index, call).None?
    decreases |log|
  {
    if log != [] {
      OtherIndicesDoNotAnswer(log[1..], index, call);
    }
  }

  /** Every reply that a run leaves in its log is the reply it gave. */
  lemma {:induction false} RunIsReplayable(log: seq<OplogEntry>, index: int, calls: seq<Call>,
                                           worlds: seq<World>, k: nat)
    requires |calls| == |worlds| && k < |calls|
    requires forall i | 0 <= i < |worlds| :: Clock(worlds[i])
    ensures var t := Run(log, index, calls, worlds);
            var r := Replayed(t.log, index + 1 + k, calls[k]);
            (r.Some? ==> r == Some(t.replies[k])) && (calls[k].GetTime? ==> r.Some?)
    decreases |calls|
  {
    var s := Host(log, index + 1, calls[0], worlds[0]);
    var t := Run(s.log, index + 1, calls[1..], worlds[1..]);
    if k > 0 {
      RunIsReplayable(s.log, index + 1, calls[1..], worlds[1..], k - 1);
    } else {
      HostIsReplayable(log, index + 1, calls[0], worlds[0]);
      RunAppends(s.log, index + 1, calls[1..], worlds[1..]);
      var more := t.log[|s.log|..];
      assert t.log == s.log + more;
      if Replayed(s.log, index + 1, calls[0]).Some? {
        LookupIsStable(s.log, more, index + 1, calls[0]);
      } else {
        LookupSkips(s.log, more, index + 1, calls[0]);
        OtherIndicesDoNotAnswer(more, index + 1, calls[0]);
      }
    }
  }

  /** A call that the log answers is answered by it, whatever the world would say now. */
  lemma {:induction false} LoggedCallsAreReplayed(log: seq<OplogEntry>, index: int, calls: seq<Call>,
                                                  worlds: seq<World>, k: nat)
    requires |calls| == |worlds| && k < |calls|
    requires Replayed(log, index + 1 + k, calls[k]).Some?
    ensures var t := Run(log, index, calls, worlds);
            Some(t.replies[k]) == Replayed(log, index + 1 + k, calls[k]) && !t.invoked[k]
    decreases |calls|
  {
    if k > 0 {
      var s := Host(log, index + 1, calls[0], worlds[0]);
      assert log <= s.log;
      var more := s.log[|log|..];
      assert s.log == log + more;
      LookupIsStable(log, more, index + 1 + k, calls[k]);
      LoggedCallsAreReplayed(s.log, index + 1, calls[1..], worlds[1..], k - 1);
    }
  }

  lemma HostLogsItsOwnIndex(log: seq<OplogEntry>, index: int, call: Call, world: World, other: int, later: Call)
    requires other != index && Replayed(log, other, later).None?
    ensures Replayed(Host(log, index, call, world).log, other, later).None?
  {
    var s := Host(log, index, call, world);
    var more := s.log[|log|..];
    assert s.log == log + more;
    LookupSkips(log, more, other, later);
    OtherIndicesDoNotAnswer(more, other, later);
  }

  /** What the handler, or the clock, would answer now. */
  function Live(call: Call, world: World): Reply {
    match call
    case GetTime => Time(world.now)
    case CallApi(_, _, maxLen) => if world.answer.Some? then Deliver(maxLen, world.answer.value) else Bytes(-1, None)
  }

  /** A call that the log does not answer at the start of the run is answered live. */
  lemma {:induction false} UnloggedCallsAreLive(log: seq<OplogEntry>, index: int, calls: seq<Call>,
                                                worlds: seq<World>, k: nat)
    requires |calls| == |worlds| && k < |calls|
    requires Replayed(log, index + 1 + k, calls[k]).None?
    ensures var t := Run(log, index, calls, worlds);
            t.invoked[k] && t.replies[k] == Live(calls[k], worlds[k])
    decreases |calls|
  {
    if k > 0 {
      HostLogsItsOwnIndex(log, index + 1, calls[0], worlds[0], index + 1 + k, calls[k]);
      UnloggedCallsAreLive(Host(log, index + 1, calls[0], worlds[0]).log, index + 1, calls[1..], worlds[1..], k - 1);
    }
  }

  /** So every reply of a run is what the log says at its start, or live. */
  lemma AnswersAreLookedUp(log: seq<OplogEntry>, index: int, calls: seq<Call>, worlds: seq<World>, k: nat)
    requires |calls| == |worlds| && k < |calls|
    ensures var t, r := Run(log, index, calls, worlds), Replayed(log, index + 1 + k, calls[k]);
            t.invoked[k] == r.None? && t.replies[k] == if r.Some? then r.value else Live(calls[k], worlds[k])
  {
    hide Run, Replayed, Live;
    if Replayed(log, index + 1 + k, calls[k]).Some? {
      LoggedCallsAreReplayed(log, index, calls, worlds, k);
    } else {
      UnloggedCallsAreLive(log, index, calls, worlds, k);
    }
  }

  /**
   Replay determinism. A guest that re-issues its calls from the first one, on a log that has only
   been appended to in between, by anyone, sees the same reply for every call its first run left in
   the log, and the handler is not invoked for it. Times are always among those calls.
   */
  lemma ReplayDeterminism(log: seq<OplogEntry>, calls: seq<Call>, worlds: seq<World>,
                          more: seq<OplogEntry>, later: seq<World>, k: nat)
    requires |calls| == |worlds| == |later| && k < |calls|
    requires forall i | 0 <= i < |worlds| :: Clock(worlds[i])
    ensures var first := Run(log, 0, calls, worlds);
            var second := Run(first.log + more, 0, calls, later);
            Replayed(first.log, 1 + k, calls[k]).Some? || calls[k].GetTime? ==>
              second.replies[k] == first.replies[k] && !second.invoked[k]
  {
    hide Run, Replayed;
    var first := Run(log, 0, calls, worlds);
    RunIsReplayable(log, 0, calls, worlds, k);
    if Replayed(first.log, 1 + k, calls[k]).Some? {
      LookupIsStable(first.log, more, 1 + k, calls[k]);
      LoggedCallsAreReplayed(first.log + more, 0, calls, later, k);
    }
  }

  // ---------------------------------------------------------------- uniqueness and truncation

  predicate SamePair(a: OplogEntry, b: OplogEntry) {
    a.callIndex == b.callIndex && a.apiName == b.apiName
  }

  /** No two entries share call index and name. */
  predicate Unique(log: seq<OplogEntry>) {
    forall i, j | 0 <= i < j < |log| :: !SamePair(log[i], log[j])
  }

  /** Entries that share both are named like the clock; the earlier is not a time and the later is one. */
  predicate RepeatsAreClocks(log: seq<OplogEntry>) {
    forall i, j | 0 <= i < j < |log| && SamePair(log[i], log[j]) ::
      log[i].apiName == TIME && ParseInt(log[i].response).None? && ParseInt(log[j].response).Some?
  }

  /** Any call of any session, or a truncation at a full snapshot. */
  datatype LogEvent =
    | Called(index: int, call: Call, world: World)
    | Cut(before: int)

  function Apply(log: seq<OplogEntry>, e: LogEvent): seq<OplogEntry> {
    match e
    case Called(index, call, world) => Host(log, index, call, world).log
    case Cut(before) => Truncated(log, before)
  }

  function ApplyAll(log: seq<OplogEntry>, events: seq<LogEvent>): seq<OplogEntry> {
    if events == [] then log else Apply(ApplyAll(log, events[..|events| - 1]), events[|events| - 1])
  }

  lemma {:induction false} NoMatchNoPair(log: seq<OplogEntry>, index: int, name: seq<byte>)
    requires FirstMatch(log, index, name).None?
    ensures forall i | 0 <= i < |log| :: !(log[i].callIndex == index && log[i].apiName == name)
    decreases |log|
  {
    if log != [] {
      NoMatchNoPair(log[1..], index, name);
      forall i | 0 <= i < |log| ensures !(log[i].callIndex == index && log[i].apiName == name) {
        assert i > 0 ==> log[i] == log[1..][i - 1];
      }
    }
  }

  lemma {:induction false} NoTimeNoParse(log: seq<OplogEntry>, index: int)
    requires LoggedTime(log, index).None?
    ensures forall i | 0 <= i < |log| && log[i].callIndex == index && log[i].apiName == TIME ::
              ParseInt(log[i].response).None?
    decreases |log|
  {
    if log != [] {
      NoTimeNoParse(log[1..], index);
      forall i | 0 <= i < |log| && log[i].callIndex == index && log[i].apiName == TIME
        ensures ParseInt(log[i].response).None?
      {
        assert i > 0 ==> log[i] == log[1..][i - 1];
      }
    }
  }

  /** Truncation keeps exactly the entries above the bound, each as often as it was there. */
  lemma {:induction false} TruncationIsExact(log: seq<OplogEntry>, before: int, e: OplogEntry)
    ensures multiset(Truncated(log, before))[e] == if e.callIndex > before then multiset(log)[e] else 0
    decreases |log|
  {
    if log != [] {
      var init, last := log[..|log| - 1], log[|log| - 1];
      TruncationIsExact(init, before, e);
      assert log == init + [last];
    }
  }

  /** Truncation keeps the order: it works entry by entry. */
  lemma {:induction false} TruncationKeepsOrder(a: seq<OplogEntry>, b: seq<OplogEntry>, before: int)
    ensures Truncated(a + b, before) == Truncated(a, before) + Truncated(b, before)
    decreases |b|
  {
    if b == [] {
      assert a + b == a;
    } else {
      var init := b[..|b| - 1];
      assert (a + b)[..|a + b| - 1] == a + init;
      TruncationKeepsOrder(a, init, before);
    }
  }

  lemma {:induction false} TruncationKeepsLater(log: seq<OplogEntry>, before: int)
    requires forall i | 0 <= i < |log| :: log[i].callIndex > before
    ensures Truncated(log, before) == log
    decreases |log|
  {
    if log != [] {
      TruncationKeepsLater(log[..|log| - 1], before);
    }
  }

  lemma {:induction false} TruncatedIsLater(log: seq<OplogEntry>, before: int)
    ensures forall i | 0 <= i < |Truncated(log, before)| ::
              Truncated(log, before)[i].callIndex > before && Truncated(log, before)[i] in log
    decreases |log|
  {
    if log != [] {
      TruncatedIsLater(log[..|log| - 1], before);
    }
  }

  /** Nothing a session logs after cutting at its own call index could have been cut by it. */
  lemma LaterCallsSurviveTheCut(log: seq<OplogEntry>, index: int, calls: seq<Call>, worlds: seq<World>)
    requires |calls| == |worlds|
    ensures var t := Run(Truncated(log, index), index, calls, worlds); Truncated(t.log, index) == t.log
  {
    TruncatedIsLater(log, index);
    RunAppends(Truncated(log, index), index, calls, worlds);
    TruncationKeepsLater(Run(Truncated(log, index), index, calls, worlds).log, index);
  }

  /** What truncation keeps is a subsequence: `at[i]` is where its i-th entry was. */
  lemma {:induction false} TruncatedIsSubsequence(log: seq<OplogEntry>, before: int) returns (at: seq<nat>)
    ensures |at| == |Truncated(log, before)|
    ensures forall i | 0 <= i < |at| :: at[i] < |log| && log[at[i]] == Truncated(log, before)[i]
    ensures forall i, j | 0 <= i < j < |at| :: at[i] < at[j]
    decreases |log|
  {
    if log == [] {
      at := [];
    } else {
      at := TruncatedIsSubsequence(log[..|log| - 1], before);
      if log[|log| - 1].callIndex > before {
        at := at + [|log| - 1];
      }
    }
  }

  lemma CutKeepsUnique(log: seq<OplogEntry>, before: int)
    ensures Unique(log) ==> Unique(Truncated(log, before))
    ensures RepeatsAreClocks(log) ==> RepeatsAreClocks(Truncated(log, before))
  {
    var kept := Truncated(log, before);
    var at := TruncatedIsSubsequence(log, before);
    forall i, j | 0 <= i < j < |kept| && SamePair(kept[i], kept[j])
      ensures SamePair(log[at[i]], log[at[j]]) && at[i] < at[j] && log[at[i]] == kept[i] && log[at[j]] == kept[j]
    {
    }
  }

  lemma CallKeepsRepeats(log: seq<OplogEntry>, index: int, call: Call, world: World)
    requires RepeatsAreClocks(log) && Clock(world)
    ensures RepeatsAreClocks(Host(log, index, call, world).log)
  {
    match call
    case GetTime =>
      if LoggedTime(log, index).None? {
        NoTimeNoParse(log, index);
        DecimalRoundTrip(world.now);
      }
    case CallApi(name, _, _) =>
      if FirstMatch(log, index, name).None? {
        NoMatchNoPair(log, index, name);
      }
  }

  /** Every clock that is called is a 64-bit one. */
  predicate Clocked(events: seq<LogEvent>) {
    forall i | 0 <= i < |events| && events[i].Called? :: Clock(events[i].world)
  }

  /**
   Uniqueness. Under every sequence of calls by any sessions with any restarts and truncations, a
   call index and API name are logged twice only by the clock, after an API that goes by its name
   and whose response is not a time; no API call ever repeats a pair, and no clock repeats a time.
   */
  lemma {:induction false} LogStaysUnique(events: seq<LogEvent>)
    requires Clocked(events)
    ensures RepeatsAreClocks(ApplyAll([], events))
    decreases |events|
  {
    if events != [] {
      var before, e := events[..|events| - 1], events[|events| - 1];
      LogStaysUnique(before);
      var log := ApplyAll([], before);
      match e
      case Called(index, call, world) => CallKeepsRepeats(log, index, call, world);
      case Cut(bound) => CutKeepsUnique(log, bound);
    }
  }

  /** A clock call on a log whose entry of that index and name is not a time. */
  predicate Doubles(log: seq<OplogEntry>, e: LogEvent) {
    && e.Called? && e.call.GetTime?
    && LoggedTime(log, e.index).None? && FirstMatch(log, e.index, TIME).Some?
  }

  lemma {:induction false} FirstMatchIsThere(log: seq<OplogEntry>, index: int, name: seq<byte>)
    requires FirstMatch(log, index, name).Some?
    ensures exists i :: 0 <= i < |log| && log[i].callIndex == index && log[i].apiName == name
    decreases |log|
  {
    if !(log[0].callIndex == index && log[0].apiName == name) {
      FirstMatchIsThere(log[1..], index, name);
      var i :| 0 <= i < |log[1..]| && log[1..][i].callIndex == index && log[1..][i].apiName == name;
      assert log[i + 1] == log[1..][i];
    }
  }

  /** One event keeps the log unique if and only if it is not such a clock call. */
  lemma UniqueUnlessDoubled(log: seq<OplogEntry>, e: LogEvent)
    requires Unique(log)
    ensures Unique(Apply(log, e)) <==> !Doubles(log, e)
  {
    match e
    case Cut(bound) => CutKeepsUnique(log, bound);
    case Called(index, GetTime, world) =>
      if FirstMatch(log, index, TIME).Some? {
        FirstMatchIsThere(log, index, TIME);
        if LoggedTime(log, index).None? {
          var i :| 0 <= i < |log| && log[i].callIndex == index && log[i].apiName == TIME;
          var log' := Apply(log, e);
          assert log'[i] == log[i] && SamePair(log'[i], log'[|log|]);
        }
      } else {
        NoMatchNoPair(log, index, TIME);
      }
    case Called(index, CallApi(name, _, _), world) =>
      if FirstMatch(log, index, name).None? {
        NoMatchNoPair(log, index, name);
      }
  }

  ghost predicate AlwaysUnique(events: seq<LogEvent>) {
    Unique(ApplyAll([], events)) && (events == [] || AlwaysUnique(events[..|events| - 1]))
  }

  ghost predicate NeverDoubles(events: seq<LogEvent>) {
    events == [] ||
    (var before := events[..|events| - 1];
     NeverDoubles(before) && !Doubles(ApplyAll([], before), events[|events| - 1]))
  }

  /** The log is unique at every moment of a run if and only if no clock call doubles an entry. */
  lemma {:induction false} AlwaysUniqueIff(events: seq<LogEvent>)
    ensures AlwaysUnique(events) <==> NeverDoubles(events)
    decreases |events|
  {
    if events != [] {
      var before, e := events[..|events| - 1], events[|events| - 1];
      AlwaysUniqueIff(before);
      if AlwaysUnique(before) {
        UniqueUnlessDoubled(ApplyAll([], before), e);
      }
    }
  }

  predicate TimesParse(log: seq<OplogEntry>) {
    forall i | 0 <= i < |log| && log[i].apiName == TIME :: ParseInt(log[i].response).Some?
  }

  /** No API goes by the name of the clock. */
  predicate NoNamesake(events: seq<LogEvent>) {
    forall i | 0 <= i < |events| && events[i].Called? && events[i].call.CallApi? :: events[i].call.name != TIME
  }

  lemma EventKeepsTimes(log: seq<OplogEntry>, e: LogEvent)
    requires TimesParse(log) && Clocked([e]) && NoNamesake([e])
    ensures TimesParse(Apply(log, e))
  {
    match e
    case Called(_, _, world) =>
      assert [e][0] == e;
      DecimalRoundTrip(world.now);
    case Cut(bound) => TruncatedIsLater(log, bound);
  }

  lemma {:induction false} TimesParseWithoutNamesakes(events: seq<LogEvent>)
    requires Clocked(events) && NoNamesake(events)
    ensures TimesParse(ApplyAll([], events))
    decreases |events|
  {
    hide Apply, ParseInt;
    if events != [] {
      var before, e := events[..|events| - 1], events[|events| - 1];
      TimesParseWithoutNamesakes(before);
      EventKeepsTimes(ApplyAll([], before), e);
    }
  }

  /** Without such an API, nothing is ever logged twice, the clock included. */
  lemma UniqueWithoutNamesakes(events: seq<LogEvent>)
    requires Clocked(events) && NoNamesake(events)
    ensures Unique(ApplyAll([], events))
  {
    hide ApplyAll, ParseInt;
    LogStaysUnique(events);
    TimesParseWithoutNamesakes(events);
  }

  /** The smallest run with a repeat: an API of that name, then the clock, under one call index. */
  lemma ClockNamesakeIsLoggedTwice(index: int, world: World)
    ensures var events := [Called(index, CallApi(TIME, [], 0), World(0, Some([]))), Called(index, GetTime, world)];
            !Unique(ApplyAll([], events))
  {
    var a := Called(index, CallApi(TIME, [], 0), World(0, Some([])));
    var events := [a, Called(index, GetTime, world)];
    var e := OplogEntry(index, TIME, [], []);
    assert events[..1] == [a] && [a][..0] == [];
    assert ApplyAll([], [a]) == [e];
    assert ParseInt(e.response) == None;
    assert LoggedTime([e][1..], index) == None;
    var log := ApplyAll([], events);
    assert log == Apply([e], events[1]);
    assert SamePair(log[0], log[1]);
  }

  // ---------------------------------------------------------------- replay after a truncation

  /** Truncation takes away exactly the answers at or below the bound. */
  lemma {:induction false} LookupAfterCut(log: seq<OplogEntry>, before: int, index: int, call: Call)
    ensures Replayed(Truncated(log, before), index, call) ==
            if index > before then Replayed(log, index, call) else None
    decreases |log|
  {
    if log != [] {
      var init, e := log[..|log| - 1], log[|log| - 1];
      assert log == init + [e];
      LookupAfterCut(init, before, index, call);
      AppendedLookup(init, e, index, call);
      AppendedLookup(Truncated(init, before), e, index, call);
    }
  }

  lemma AppendedLookup(log: seq<OplogEntry>, e: OplogEntry, index: int, call: Call)
    ensures Replayed(log + [e], index, call) ==
            if Replayed(log, index, call).Some? then Replayed(log, index, call) else Replayed([e], index, call)
    ensures e.callIndex != index ==> Replayed([e], index, call).None?
  {
    if Replayed(log, index, call).Some? {
      LookupIsStable(log, [e], index, call);
    } else {
      LookupSkips(log, [e], index, call);
    }
    if e.callIndex != index {
      OtherIndicesDoNotAnswer([e], index, call);
    }
  }

  /**
   Replay after a truncation. A guest that re-issues its calls on its log cut at a full snapshot gets
   its first reply, without the handler, exactly for the calls above the cut that it had logged; every
   other call is made again.
   */
  lemma ReplayAfterCut(log: seq<OplogEntry>, calls: seq<Call>, worlds: seq<World>,
                       before: int, later: seq<World>, k: nat)
    requires |calls| == |worlds| == |later| && k < |calls|
    requires forall i | 0 <= i < |worlds| :: Clock(worlds[i])
    ensures var first := Run(log, 0, calls, worlds);
            var second := Run(Truncated(first.log, before), 0, calls, later);
            var kept := 1 + k > before && Replayed(first.log, 1 + k, calls[k]).Some?;
            && second.invoked[k] == !kept
            && second.replies[k] == if kept then first.replies[k] else Live(calls[k], later[k])
  {
    hide Run, Replayed, Truncated;
    var first := Run(log, 0, calls, worlds);
    var cut := Truncated(first.log, before);
    LookupAfterCut(first.log, before, 1 + k, calls[k]);
    RunIsReplayable(log, 0, calls, worlds, k);
    AnswersAreLookedUp(cut, 0, calls, later, k);
  }

  /** Cutting at or below the call index a run starts from changes nothing for the run. */
  lemma {:induction false} RunAfterCut(log: seq<OplogEntry>, before: int, index: int,
                                       calls: seq<Call>, worlds: seq<World>)
    requires |calls| == |worlds| && before <= index
    ensures var t, c := Run(log, index, calls, worlds), Run(Truncated(log, before), index, calls, worlds);
            c.replies == t.replies && c.invoked == t.invoked && c.log == Truncated(t.log, before)
    decreases |calls|
  {
    if calls != [] {
      HostAfterCut(log, before, index + 1, calls[0], worlds[0]);
      RunAfterCut(Host(log, index + 1, calls[0], worlds[0]).log, before, index + 1, calls[1..], worlds[1..]);
    }
  }

  lemma HostAfterCut(log: seq<OplogEntry>, before: int, index: int, call: Call, world: World)
    requires before < index
    ensures var s, c := Host(log, index, call, world), Host(Truncated(log, before), index, call, world);
            c == s.(log := Truncated(s.log, before))
  {
    hide Replayed, FormatInt;
    LookupAfterCut(log, before, index, call);
    var s := Host(log, index, call, world);
    if s.log != log {
      var e := s.log[|log|];
      assert s.log == log + [e] && (log + [e])[..|log|] == log;
    }
  }

  /** A run of two parts is the one after the other. */
  lemma {:induction false} RunInParts(log: seq<OplogEntry>, index: int, a: seq<Call>, v: seq<World>,
                                      b: seq<Call>, w: seq<World>)
    requires |a| == |v| && |b| == |w|
    ensures var t := Run(log, index, a, v);
            var u := Run(t.log, index + |a|, b, w);
            Run(log, index, a + b, v + w) == Trace(t.replies + u.replies, t.invoked + u.invoked, u.log)
    decreases |a|
  {
    hide Host;
    if a == [] {
      assert a + b == b && v + w == w;
      var u := Run(log, index, b, w);
      assert [] + u.replies == u.replies && [] + u.invoked == u.invoked;
    } else {
      assert (a + b)[1..] == a[1..] + b && (v + w)[1..] == v[1..] + w;
      var s := Host(log, index + 1, a[0], v[0]);
      RunInParts(s.log, index + 1, a[1..], v[1..], b, w);
      var t, u := Run(s.log, index + 1, a[1..], v[1..]), Run(Run(log, index, a, v).log, index + |a|, b, w);
      assert [s.reply] + (t.replies + u.replies) == ([s.reply] + t.replies) + u.replies;
      assert [s.invoked] + (t.invoked + u.invoked) == ([s.invoked] + t.invoked) + u.invoked;
    }
  }

  lemma {:induction false} TruncatedTwice(log: seq<OplogEntry>, a: int, b: int)
    requires a <= b
    ensures Truncated(Truncated(log, a), b) == Truncated(log, b)
    decreases |log|
  {
    if log != [] {
      var init, e := log[..|log| - 1], log[|log| - 1];
      TruncatedTwice(init, a, b);
      assert (Truncated(init, a) + [e])[..|Truncated(init, a)|] == Truncated(init, a);
    }
  }

  // ---------------------------------------------------------------- guests that skip finished work

  predicate AllAnswered(calls: seq<Call>, worlds: seq<World>) {
    |calls| == |worlds| && forall i | 0 <= i < |calls| :: calls[i].CallApi? && worlds[i].answer.Some?
  }

  /** On a log without these call indices, answered API calls are logged one by one. */
  lemma {:induction false} CleanRunLog(log: seq<OplogEntry>, index: int, calls: seq<Call>, worlds: seq<World>, k: nat)
    requires AllAnswered(calls, worlds) && k < |calls|
    requires forall i | 0 <= i < |log| :: log[i].callIndex <= index
    ensures var t := Run(log, index, calls, worlds);
            && |t.log| == |log| + |calls|
            && t.log[|log| + k] == OplogEntry(index + 1 + k, calls[k].name, calls[k].request, worlds[k].answer.value)
    decreases |calls|
  {
    OtherIndicesDoNotAnswer(log, index + 1, calls[0]);
    var s := Host(log, index + 1, calls[0], worlds[0]);
    RunAppends(s.log, index + 1, calls[1..], worlds[1..]);
    if |calls| > 1 {
      CleanRunLog(s.log, index + 1, calls[1..], worlds[1..], if k > 0 then k - 1 else 0);
    }
  }

  lemma {:induction false} MatchByPosition(log: seq<OplogEntry>, k: nat, name: seq<byte>)
    requires k < |log| && forall i | 0 <= i < |log| :: log[i].callIndex == log[0].callIndex + i
    ensures FirstMatch(log, log[0].callIndex + k, name) == if log[k].apiName == name then Some(log[k]) else None
    decreases |log|
  {
    if k > 0 {
      assert forall i | 0 <= i < |log[1..]| :: log[1..][i] == log[i + 1];
      MatchByPosition(log[1..], k - 1, name);
    } else {
      if log[0].apiName != name {
        OtherIndicesDoNotAnswer(log[1..], log[0].callIndex, CallApi(name, [], 0));
      }
    }
  }

  lemma FirstRunIsLookedUpByPosition(calls: seq<Call>, worlds: seq<World>, call: Call, k: nat)
    requires AllAnswered(calls, worlds) && k < |calls| && call.CallApi?
    ensures Replayed(Run([], 0, calls, worlds).log, 1 + k, call)
            == if calls[k].name == call.name then Some(Deliver(call.maxLen, worlds[k].answer.value)) else None
  {
    hide Run, FirstMatch;
    var log := Run([], 0, calls, worlds).log;
    forall i | 0 <= i < |calls|
      ensures |log| == |calls|
      ensures log[i] == OplogEntry(1 + i, calls[i].name, calls[i].request, worlds[i].answer.value)
    {
      CleanRunLog([], 0, calls, worlds, i);
    }
    CleanRunLog([], 0, calls, worlds, k);
    MatchByPosition(log, k, call.name);
  }

  /**
   Replay goes by position. A guest that resumes with its first `skip` calls already done gets, for
   its k-th call, the logged answer to its original k-th call if the two have the same name; if not,
   and only then, the handler is invoked.
   */
  lemma SkippingGuestGetsOlderAnswers(calls: seq<Call>, worlds: seq<World>, skip: nat, later: seq<World>, k: nat)
    requires AllAnswered(calls, worlds) && skip + k < |calls| && |later| == |calls| - skip
    ensures var resumed := Run(Run([], 0, calls, worlds).log, 0, calls[skip..], later);
            var same := calls[k].name == calls[skip + k].name;
            && resumed.invoked[k] == !same
            && resumed.replies[k] == if same then Deliver(calls[skip + k].maxLen, worlds[k].answer.value)
                                     else Live(calls[skip + k], later[k])
  {
    hide Run, FirstMatch, Replayed, Deliver, Live;
    var log := Run([], 0, calls, worlds).log;
    FirstRunIsLookedUpByPosition(calls, worlds, calls[skip + k], k);
    AnswersAreLookedUp(log, 0, calls[skip..], later, k);
    assert calls[skip..][k] == calls[skip + k];
  }
}
