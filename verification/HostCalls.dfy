/** The host functions `host_get_time` and `host_call_api`, as the engine runs them. */
module HostCalls {
  import opened Bytes
  import opened Protocol
  import opened Oplog
  import opened MemoryStore
  import opened Engine

  lemma {:induction false} EntriesLength(l: seq<LogRef>)
    ensures |EntriesOf(l)| == |l|
    decreases |l|
  {
    if l != [] {
      EntriesLength(l[..|l| - 1]);
    }
  }

  lemma {:induction false} EntryAt(l: seq<LogRef>, i: nat)
    requires i < |l|
    ensures |EntriesOf(l)| == |l|
    ensures EntriesOf(l)[i] == OplogEntry(l[i].callIndex, l[i].apiName, l[i].request[..], l[i].response[..])
    ensures l[i].request in Slices(l) && l[i].response in Slices(l)
    decreases |l|
  {
    EntriesLength(l);
    EntriesLength(l[..|l| - 1]);
    if i < |l| - 1 {
      EntryAt(l[..|l| - 1], i);
    }
  }

  lemma {:induction false} FirstMatchSkips(log: seq<OplogEntry>, i: nat, index: int, name: seq<byte>)
    requires i <= |log|
    requires forall k | 0 <= k < i :: !(log[k].callIndex == index && log[k].apiName == name)
    ensures FirstMatch(log, index, name) == FirstMatch(log[i..], index, name)
    decreases i
  {
    if i > 0 {
      FirstMatchSkips(log, i - 1, index, name);
      assert log[i - 1..][1..] == log[i..];
    } else {
      assert log[0..] == log;
    }
  }

  lemma {:induction false} LoggedTimeSkips(log: seq<OplogEntry>, i: nat, index: int)
    requires i <= |log|
    requires forall k | 0 <= k < i ::
               !(log[k].callIndex == index && log[k].apiName == TIME && ParseInt(log[k].response).Some?)
    ensures LoggedTime(log, index) == LoggedTime(log[i..], index)
    decreases i
  {
    if i > 0 {
      LoggedTimeSkips(log, i - 1, index);
      assert log[i - 1..][1..] == log[i..];
    } else {
      assert log[0..] == log;
    }
  }

  /** The scan for a logged response. */
  method FindResponse(l: seq<LogRef>, index: int, name: seq<byte>) returns (r: Option<array<byte>>)
    ensures match FirstMatch(EntriesOf(l), index, name)
            case None => r.None?
            case Some(e) => r.Some? && r.value in Slices(l) && r.value[..] == e.response
  {
    ghost var log := EntriesOf(l);
    EntriesLength(l);
    for i := 0 to |l|
      invariant log == EntriesOf(l)
      invariant forall k | 0 <= k < i :: !(log[k].callIndex == index && log[k].apiName == name)
    {
      EntryAt(l, i);
      if l[i].callIndex == index && l[i].apiName == name {
        FirstMatchSkips(log, i, index, name);
        return Some(l[i].response);
      }
    }
    FirstMatchSkips(log, |l|, index, name);
    assert log[|log|..] == [];
    r := None;
  }

  /** The scan for a logged time: an entry that does not parse is passed over. */
  method FindTime(l: seq<LogRef>, index: int) returns (r: Option<int>)
    ensures r == LoggedTime(EntriesOf(l), index)
  {
    ghost var log := EntriesOf(l);
    EntriesLength(l);
    for i := 0 to |l|
      invariant log == EntriesOf(l)
      invariant forall k | 0 <= k < i ::
                  !(log[k].callIndex == index && log[k].apiName == TIME && ParseInt(log[k].response).Some?)
    {
      EntryAt(l, i);
      if l[i].callIndex == index && l[i].apiName == TIME {
        var t := ParseInt(l[i].response[..]);
        if t.Some? {
          LoggedTimeSkips(log, i, index);
          return t;
        }
      }
    }
    LoggedTimeSkips(log, |l|, index);
    assert log[|log|..] == [];
    r := None;
  }

  method HostGetTime(s: Session, store: MemorySnapshotStore, now: int) returns (t: int)
    requires store.Valid() && s.mem !in store.Repr
    modifies s`callIndex, store
    ensures store.Valid() && fresh(store.Repr - old(store.Repr)) && s.mem !in store.Repr
    ensures s.callIndex == old(s.callIndex) + 1
    ensures var log, log' := old(store.View(s.instanceId)).oplog, store.View(s.instanceId).oplog;
            if exists k :: FirstTime(log, k, s.callIndex) then
              log' == log && exists k :: FirstTime(log, k, s.callIndex) && ParseInt(log[k].response) == Some(t)
            else t == now && log' == log + [OplogEntry(s.callIndex, TIME, [], FormatInt(now))]
    ensures var step := Host(old(store.View(s.instanceId)).oplog, s.callIndex, GetTime, World(now, None));
            && step.reply == Time(t)
            && store.View(s.instanceId) == old(store.View(s.instanceId)).(oplog := step.log)
    ensures forall j | j != s.instanceId :: store.View(j) == old(store.View(j))
  {
    hide FormatInt, ParseInt, LoggedTime, EntriesOf, Slices, MemorySnapshotStore.Valid, MemorySnapshotStore.View;
    s.callIndex := s.callIndex + 1;
    ClockCallMeans(store.View(s.instanceId).oplog, s.callIndex, World(now, None));
    var log := store.LoadOplog(s.instanceId);
    var logged := FindTime(log, s.callIndex);
    if logged.Some? {
      return logged.value;
    }
    var nothing := ArrayOf([]);
    var payload := ArrayOf(FormatInt(now));
    assert BytesOf(Whole(nothing)) == [] && BytesOf(Whole(payload)) == payload[..];
    store.SaveOplog(s.instanceId, s.callIndex, TIME, Whole(nothing), Whole(payload));
    t := now;
  }

  /** A range of guest memory that the guest names by pointer and length. */
  predicate InBounds(ptr: int, length: int, size: nat) {
    0 <= ptr && 0 <= length && ptr + length <= size
  }

  /** The end of a range that passed the check is added up again in 32 bits; a range whose end wraps is a panic. */
  predicate Wraps(ptr: int, length: int) {
    ptr + length >= 0x8000_0000
  }

  /** That takes a memory of 2 GiB: in any other, every range that passes the check is safe. */
  lemma WrapsIff(size: nat)
    ensures (exists ptr, length :: InBounds(ptr, length, size) && Wraps(ptr, length)) <==> size >= 0x8000_0000
  {
    if size >= 0x8000_0000 {
      assert InBounds(0x7fff_ffff, 1, size) && Wraps(0x7fff_ffff, 1);
    }
  }

  /** The name is checked and read before the request is. */
  predicate ApiPanics(size: nat, namePtr: int, nameLen: int, reqPtr: int, reqLen: int) {
    && InBounds(namePtr, nameLen, size)
    && (Wraps(namePtr, nameLen) || (InBounds(reqPtr, reqLen, size) && Wraps(reqPtr, reqLen)))
  }

  /** A 32-bit pointer as the memory takes it. */
  function Unsigned(ptr: int): int {
    if ptr < 0 then ptr + 0x1_0000_0000 else ptr
  }

  /** A write past the end of guest memory has no effect and is not reported. */
  function Written(m: seq<byte>, ptr: int, reply: Reply): seq<byte> {
    if reply.Bytes? && reply.written.Some? && InBounds(Unsigned(ptr), |reply.written.value|, |m|)
    then Splice(m, Unsigned(ptr), reply.written.value) else m
  }

  /** Where and when a response reaches guest memory, byte by byte. */
  predicate Arrives(m: seq<byte>, m': seq<byte>, ptr: int, code: int, response: Option<seq<byte>>) {
    var at := if ptr < 0 then ptr + 0x1_0000_0000 else ptr;
    && |m'| == |m|
    && if code >= 0 && 0 <= at && at + code <= |m| then
         && response.Some? && m'[at..at + code] == response.value
         && m'[..at] == m[..at] && m'[at + code..] == m[at + code..]
       else m' == m
  }

  /** The code that the guest sees, and what has been logged. */
  predicate CodeAndLog(log: seq<OplogEntry>, log': seq<OplogEntry>, index: int, name: seq<byte>, request: seq<byte>,
                       maxLen: int, invoked: bool, response: Option<seq<byte>>, code: int) {
    match response
    case None => code == -1 && log' == log
    case Some(bytes) =>
      && code == (if maxLen < |bytes| then -2 else |bytes|)
      && log' == if invoked then log + [OplogEntry(index, name, request, bytes)] else log
  }

  lemma WrittenArrives(m: seq<byte>, ptr: int, reply: Reply, response: Option<seq<byte>>)
    requires reply.Bytes? && reply.written == (if reply.code >= 0 then response else None)
    requires reply.code >= 0 ==> response.Some? && reply.code == |response.value|
    ensures Arrives(m, Written(m, ptr, reply), ptr, reply.code, response)
  {
  }

  /** The response may itself be a part of guest memory, even one that the write overlaps. */
  method Reply(s: Session, ptr: int, maxLen: int, response: Slice) returns (code: int)
    requires Within(response)
    modifies s.mem
    ensures Deliver(maxLen, old(BytesOf(response))).code == code
    ensures s.mem[..] == Written(old(s.mem[..]), ptr, Deliver(maxLen, old(BytesOf(response))))
  {
    var length := response.hi - response.lo;
    if maxLen < length {
      return -2;
    }
    if InBounds(Unsigned(ptr), length, s.mem.Length) {
      WriteBytes(s.mem, Unsigned(ptr), response.a[response.lo..response.hi]);
    }
    code := length;
  }

  /**
   `answer` is what the handler would return, perhaps a part of guest memory such as its request; it is
   consulted only when the log has no answer. The store is handed the request where it is in memory.
   */
  method HostCallApi(s: Session, store: MemorySnapshotStore, namePtr: int, nameLen: int, reqPtr: int, reqLen: int,
                     respPtr: int, respMaxLen: int, answer: Option<Slice>)
    returns (code: int, invoked: bool, panicked: bool, ghost response: Option<seq<byte>>)
    requires store.Valid() && s.mem !in store.Repr && (answer.Some? ==> Within(answer.value))
    modifies s`callIndex, s.mem, store
    ensures store.Valid() && fresh(store.Repr - old(store.Repr)) && s.mem !in store.Repr
    ensures forall j | j != s.instanceId :: store.View(j) == old(store.View(j))
    ensures panicked <==> ApiPanics(old(s.mem.Length), namePtr, nameLen, reqPtr, reqLen)
    ensures var size := old(s.mem.Length);
            panicked <==>
              && 0 <= namePtr && 0 <= nameLen && namePtr + nameLen <= size
              && (namePtr + nameLen >= 0x8000_0000
                  || (0 <= reqPtr && 0 <= reqLen && reqPtr + reqLen <= size && reqPtr + reqLen >= 0x8000_0000))
    ensures var m, log := old(s.mem[..]), old(store.View(s.instanceId)).oplog;
            !panicked && InBounds(namePtr, nameLen, |m|) && InBounds(reqPtr, reqLen, |m|) ==>
              var name, request := m[namePtr..namePtr + nameLen], m[reqPtr..reqPtr + reqLen];
              var own := if answer.Some? then Some(old(BytesOf(answer.value))) else None;
              && Responds(log, s.callIndex, name, own, invoked, response)
              && CodeAndLog(log, store.View(s.instanceId).oplog, s.callIndex, name, request, respMaxLen,
                            invoked, response, code)
              && Arrives(m, s.mem[..], respPtr, code, response)
    ensures var m := old(s.mem[..]);
            if !panicked && InBounds(namePtr, nameLen, |m|) && InBounds(reqPtr, reqLen, |m|) then
              var call := CallApi(m[namePtr..namePtr + nameLen], m[reqPtr..reqPtr + reqLen], respMaxLen);
              var world := World(0, if answer.Some? then Some(old(BytesOf(answer.value))) else None);
              var step := Host(old(store.View(s.instanceId)).oplog, s.callIndex, call, world);
              && s.callIndex == old(s.callIndex) + 1
              && code == step.reply.code && invoked == step.invoked
              && store.View(s.instanceId) == old(store.View(s.instanceId)).(oplog := step.log)
              && s.mem[..] == Written(m, respPtr, step.reply)
            else
              && code == -1 && !invoked && s.callIndex == old(s.callIndex) && s.mem[..] == m
              && store.View(s.instanceId) == old(store.View(s.instanceId))
  {
    hide Host, Responds, Arrives, Written, MemorySnapshotStore.Valid, MemorySnapshotStore.View;
    panicked, response := false, None;
    if !InBounds(namePtr, nameLen, s.mem.Length) {
      return -1, false, false, None;
    }
    if Wraps(namePtr, nameLen) {
      return -1, false, true, None;
    }
    if !InBounds(reqPtr, reqLen, s.mem.Length) {
      return -1, false, false, None;
    }
    if Wraps(reqPtr, reqLen) {
      return -1, false, true, None;
    }
    ghost var m, before := s.mem[..], store.View(s.instanceId).oplog;
    ghost var world := World(0, if answer.Some? then Some(BytesOf(answer.value)) else None);
    var name := s.mem[namePtr..namePtr + nameLen];
    var request := Slice(s.mem, reqPtr, reqPtr + reqLen);
    ghost var requested := BytesOf(request);
    s.callIndex := s.callIndex + 1;
    code, invoked := Answer(s, store, name, request, respPtr, respMaxLen, answer);
    ghost var step := Host(before, s.callIndex, CallApi(name, requested, respMaxLen), world);
    response := ApiCallMeans(before, s.callIndex, name, requested, respMaxLen, world);
    WrittenArrives(m, respPtr, step.reply, response);
    assert before + [] == before;
  }

  /** The call proper, under the call index that it has been given. */
  method Answer(s: Session, store: MemorySnapshotStore, name: seq<byte>, request: Slice, respPtr: int, respMaxLen: int,
                answer: Option<Slice>)
    returns (code: int, invoked: bool)
    requires store.Valid() && s.mem !in store.Repr && Within(request) && (answer.Some? ==> Within(answer.value))
    modifies s.mem, store
    ensures store.Valid() && fresh(store.Repr - old(store.Repr)) && s.mem !in store.Repr
    ensures forall j | j != s.instanceId :: store.View(j) == old(store.View(j))
    ensures var world := World(0, if answer.Some? then Some(old(BytesOf(answer.value))) else None);
            var call := CallApi(name, old(BytesOf(request)), respMaxLen);
            var step := Host(old(store.View(s.instanceId)).oplog, s.callIndex, call, world);
            && code == step.reply.code && invoked == step.invoked
            && store.View(s.instanceId) == old(store.View(s.instanceId)).(oplog := step.log)
            && s.mem[..] == Written(old(s.mem[..]), respPtr, step.reply)
  {
    hide FirstMatch, EntriesOf, Slices, Splice, Deliver, Written, MemorySnapshotStore.Valid, MemorySnapshotStore.View;
    NothingWritten(s.mem[..], respPtr);
    var log := store.LoadOplog(s.instanceId);
    var logged := FindResponse(log, s.callIndex, name);
    invoked, code := logged.None?, -1;
    if logged.Some? {
      assert BytesOf(Whole(logged.value)) == logged.value[..];
      code := Reply(s, respPtr, respMaxLen, Whole(logged.value));
    } else if answer.Some? {
      store.SaveOplog(s.instanceId, s.callIndex, name, request, answer.value);
      code := Reply(s, respPtr, respMaxLen, answer.value);
    }
  }

  lemma NothingWritten(m: seq<byte>, ptr: int)
    ensures Written(m, ptr, Bytes(-1, None)) == m
  {
  }
}
