/**
 Snapshot isolation. On the heap the live memory, the store's slices and the guest's buffers are
 arrays that could be shared. Whatever the guest and the host functions do, in whatever order, the
 store ends up with what value semantics gives: no later write reaches anything it holds.
 */
module Isolation {
  import opened Bytes
  import opened Blocks
  import opened Protocol
  import opened MemoryStore
  import opened Engine
  import O = Oplog
  import H = HostCalls

  /** A memory range named by pointer and length. */
  datatype Range = Range(ptr: int, length: int)

  /** What an API handler returns: nothing, bytes of its own, or a part of guest memory. */
  datatype Answer = Error | Own(bytes: seq<byte>) | Guest(range: Range)

  /** What a running guest can do to its memory and its session. */
  datatype Act =
    | Write(at: nat, x: byte)
    | Grow(pages: nat)
    | GetTime(now: int)
    | CallApi(name: Range, request: Range, response: Range, answer: Answer)
    | Save

  function InRange(r: Range, size: nat): bool {
    H.InBounds(r.ptr, r.length, size)
  }

  function BytesAt(m: seq<byte>, r: Range): seq<byte>
    requires InRange(r, |m|)
  {
    m[r.ptr..r.ptr + r.length]
  }

  function Answered(m: seq<byte>, answer: Answer): Option<seq<byte>> {
    match answer
    case Error => None
    case Own(bytes) => Some(bytes)
    case Guest(range) => if InRange(range, |m|) then Some(BytesAt(m, range)) else None
  }

  datatype State = State(inst: Inst, s: Sess)

  /** One act on values; None is a panic or a checkpoint that does not go through, which ends the run. */
  function Step(st: State, maxPages: nat, act: Act): Option<State> {
    var m := st.s.mem;
    var index := st.s.callIndex + 1;
    match act
    case Write(at, x) => Some(if at < |m| then st.(s := st.s.(mem := m[at := x])) else st)
    case Grow(pages) =>
      Some(if |m| / 65536 + pages <= maxPages then st.(s := st.s.(mem := m + Zeros(pages * 65536))) else st)
    case GetTime(now) =>
      var step := O.Host(st.inst.oplog, index, O.GetTime, O.World(now, None));
      Some(State(st.inst.(oplog := step.log), st.s.(callIndex := index)))
    case CallApi(name, request, response, answer) =>
      if H.ApiPanics(|m|, name.ptr, name.length, request.ptr, request.length) then None
      else if InRange(name, |m|) && InRange(request, |m|) then
        var call := O.CallApi(BytesAt(m, name), BytesAt(m, request), response.length);
        var step := O.Host(st.inst.oplog, index, call, O.World(0, Answered(m, answer)));
        var m' := H.Written(m, response.ptr, step.reply);
        Some(State(st.inst.(oplog := step.log), st.s.(callIndex := index, mem := m')))
      else Some(st)
    case Save =>
      if !CasAllowed(st.inst.meta, st.s.meta.version) || m == [] then None
      else Some(State(Checkpointed(st.inst, st.s), NextSess(st.s)))
  }

  function Run(st: State, maxPages: nat, acts: seq<Act>): Option<State> {
    if acts == [] then Some(st)
    else
      match Run(st, maxPages, acts[..|acts| - 1])
      case None => None
      case Some(st') => Step(st', maxPages, acts[|acts| - 1])
  }

  /** What the guest does to its own memory. */
  predicate Private(act: Act) {
    act.Write? || act.Grow?
  }

  /** Nothing that a guest does to its own memory reaches what is stored: it is what the last save left. */
  lemma {:induction false} PrivateActsReachNothing(st: State, maxPages: nat, acts: seq<Act>)
    requires forall i | 0 <= i < |acts| :: Private(acts[i])
    ensures Run(st, maxPages, acts).Some? && Run(st, maxPages, acts).value.inst == st.inst
    decreases |acts|
  {
    if acts != [] {
      PrivateActsReachNothing(st, maxPages, acts[..|acts| - 1]);
    }
  }

  lemma {:induction false} RunStops(st: State, maxPages: nat, acts: seq<Act>, k: nat)
    requires k <= |acts| && Run(st, maxPages, acts[..k]).None?
    ensures Run(st, maxPages, acts).None?
    decreases |acts|
  {
    if k < |acts| {
      assert acts[..|acts| - 1][..k] == acts[..k];
      RunStops(st, maxPages, acts[..|acts| - 1], k);
    } else {
      assert acts[..k] == acts;
    }
  }

  /** The live memory is whole pages, and is not one of the store's slices. */
  ghost predicate Apart(s: Session, store: MemorySnapshotStore)
    reads s, store
  {
    && store.Valid() && s.mem !in store.Repr
    && s.mem.Length % 65536 == 0
    && s.meta.instanceId == s.instanceId
  }

  ghost function StateOf(s: Session, store: MemorySnapshotStore): State
    reads s, s.mem, store, store.Repr
    requires store.Valid()
  {
    State(store.View(s.instanceId), s.AsSess())
  }

  lemma WrittenKeepsSize(m: seq<byte>, ptr: int, reply: O.Reply)
    ensures |H.Written(m, ptr, reply)| == |m|
  {
  }

  method WriteByte(s: Session, store: MemorySnapshotStore, at: nat, x: byte)
    requires Apart(s, store)
    modifies s.mem
    ensures s.mem[..] == if at < s.mem.Length then old(s.mem[..])[at := x] else old(s.mem[..])
    ensures forall j :: store.View(j) == old(store.View(j))
  {
    hide MemorySnapshotStore.Valid, MemorySnapshotStore.View;
    if at < s.mem.Length {
      s.mem[at] := x;
    }
  }

  method Call(s: Session, store: MemorySnapshotStore, name: Range, request: Range, response: Range, answer: Answer)
    returns (ok: bool)
    requires Apart(s, store)
    modifies s`callIndex, s.mem, store
    ensures Apart(s, store) && fresh(store.Repr - old(store.Repr))
    ensures Step(old(StateOf(s, store)), s.maxPages, CallApi(name, request, response, answer))
            == if ok then Some(StateOf(s, store)) else None
    ensures forall j | j != s.instanceId :: store.View(j) == old(store.View(j))
  {
    hide Dirty, HashTable, Truncated, AfterWrites, NextSess, CasAllowed, Zeros;
    hide H.Written, H.Arrives, H.ApiPanics, H.CodeAndLog, O.Host, O.Responds;
    hide MemorySnapshotStore.Valid, MemorySnapshotStore.View;
    var slice := None;
    if answer.Own? {
      var a := ArrayOf(answer.bytes);
      assert BytesOf(Whole(a)) == a[..];
      slice := Some(Whole(a));
    } else if answer.Guest? && InRange(answer.range, s.mem.Length) {
      slice := Some(Slice(s.mem, answer.range.ptr, answer.range.ptr + answer.range.length));
    }
    assert (if slice.Some? then Some(BytesOf(slice.value)) else None) == Answered(s.mem[..], answer);
    ghost var m := s.mem[..];
    var code, invoked, panicked, _ := H.HostCallApi(s, store, name.ptr, name.length, request.ptr, request.length,
                                       response.ptr, response.length, slice);
    forall reply ensures |H.Written(m, response.ptr, reply)| == |m| {
      WrittenKeepsSize(m, response.ptr, reply);
    }
    ok := !panicked;
  }

  method Do(s: Session, store: MemorySnapshotStore, act: Act) returns (ok: bool)
    requires Apart(s, store)
    modifies s, s.mem, store
    ensures Apart(s, store) && fresh(store.Repr - old(store.Repr)) && (s.mem == old(s.mem) || fresh(s.mem))
    ensures Step(old(StateOf(s, store)), s.maxPages, act) == if ok then Some(StateOf(s, store)) else None
    ensures forall j | j != s.instanceId :: store.View(j) == old(store.View(j))
  {
    hide NextSess, AfterWrites, O.Host, MemorySnapshotStore.Valid, MemorySnapshotStore.View;
    ok := true;
    match act
    case Write(at, x) => WriteByte(s, store, at, x);
    case Grow(pages) => var grown := s.Grow(pages);
    case GetTime(now) => var t := H.HostGetTime(s, store, now);
    case CallApi(name, request, response, answer) =>
      ok := Call(s, store, name, request, response, answer);
    case Save =>
      var o := s.Checkpoint(store, 4);
      ok := o.Saved?;
  }

  method Drive(s: Session, store: MemorySnapshotStore, acts: seq<Act>) returns (ok: bool)
    requires Apart(s, store)
    modifies s, s.mem, store
    ensures Apart(s, store)
    ensures Run(old(StateOf(s, store)), s.maxPages, acts) == if ok then Some(StateOf(s, store)) else None
    ensures forall j | j != s.instanceId :: store.View(j) == old(store.View(j))
  {
    hide Step, MemorySnapshotStore.Valid, MemorySnapshotStore.View;
    ghost var st := StateOf(s, store);
    for i := 0 to |acts|
      invariant Apart(s, store) && fresh(store.Repr - old(store.Repr)) && (s.mem == old(s.mem) || fresh(s.mem))
      invariant Run(st, s.maxPages, acts[..i]) == Some(StateOf(s, store))
      invariant forall j | j != s.instanceId :: store.View(j) == old(store.View(j))
    {
      assert acts[..i + 1][..i] == acts[..i];
      ok := Do(s, store, acts[i]);
      if !ok {
        RunStops(st, s.maxPages, acts, i + 1);
        return;
      }
    }
    assert acts[..|acts|] == acts;
    ok := true;
  }
}
