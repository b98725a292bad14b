/**
 Any number of cold sessions on one instance. Each reads metadata, snapshot and blocks in three
 separate steps, runs, swaps the version and then writes its data, one store write at a time; steps
 of different sessions interleave freely, and a host may die between any two of them.
 */
module Concurrency {
  import opened Bytes
  import opened Blocks
  import opened Protocol
  import opened Exactness
  import opened Overwrites

  /** The memory of the module with a given hash, freshly instantiated. */
  type Fresh = string -> seq<byte>

  ghost predicate FreshOk(init: Fresh) {
    forall hash :: IsMemory(init(hash)) && 0 < |init(hash)|
  }

  datatype Data = Data(snapshot: Option<seq<byte>>, deltas: BlockMap)

  function DataOf(inst: Inst): Data {
    Data(inst.snapshot, inst.deltas)
  }

  datatype Client =
    | Opening(meta: InstanceMeta, hash: string)
    | Loading(meta: InstanceMeta, hash: string, snapshot: Option<seq<byte>>)
    | Running(s: Sess, tabled: seq<byte>, base: seq<byte>)  // base: restored, or last saved by itself
    | Saving(s: Sess, tabled: seq<byte>, done: nat)         // done: how many writes of its checkpoint
    | Dead

  /** The `version`-th successful compare-and-swap. */
  datatype Win = Win(client: nat, version: int)

  /** saved is the memory of the last data write by a session that had the newest version. */
  datatype System = System(inst: Inst, clients: map<nat, Client>, wins: seq<Win>, saved: Option<seq<byte>>)

  datatype Event =
    | Open(c: nat, id: string, hash: string)
    | ReadSnapshot(c: nat)
    | ReadDeltas(c: nat)
    | Work(c: nat, mem: seq<byte>, callIndex: int)
    | Swap(c: nat)
    | Write(c: nat)
    | Drop(c: nat)  // a truncation fails, and its error is dropped
    | Die(c: nat)

  const START := System(EMPTY, map[], [], None)

  predicate Enabled(sys: System, e: Event) {
    match e
    case Open(c, _, _) => c !in sys.clients
    case ReadSnapshot(c) => c in sys.clients && sys.clients[c].Opening?
    case ReadDeltas(c) => c in sys.clients && sys.clients[c].Loading?
    case Work(c, mem, _) =>
      && c in sys.clients && sys.clients[c].Running?
      && IsMemory(mem) && |sys.clients[c].s.mem| <= |mem|
    case Swap(c) => c in sys.clients && sys.clients[c].Running?
    case Write(c) => c in sys.clients && sys.clients[c].Saving?
    case Drop(c) => c in sys.clients && sys.clients[c].Saving? && sys.clients[c].done >= 2
    case Die(c) => c in sys.clients
  }

  /** The write that follows the first `done` ones of a checkpoint, on whatever is stored by now. */
  function WriteOnce(inst: Inst, s: Sess, done: nat): Inst {
    if done == 1 then
      if IsFull(s.meta.version + 1) then inst.(snapshot := Some(s.mem))
      else inst.(deltas := inst.deltas + Dirty(s.table, s.mem))
    else if done == 2 then inst.(oplog := Truncated(inst.oplog, s.callIndex))
    else inst.(deltas := map[])
  }

  /** How many writes the checkpoint has, the metadata included. */
  function Writes(s: Sess): nat {
    if IsFull(s.meta.version + 1) && s.meta.version > 0 then 4 else 2
  }

  function VersionOf(k: Client): int {
    match k
    case Opening(meta, _) => meta.version
    case Loading(meta, _, _) => meta.version
    case Running(s, _, _) => s.meta.version
    case Saving(s, _, _) => s.meta.version + 1
    case Dead => 0
  }

  /** The client is alive and holds the newest version: only such a client can win next. */
  predicate Holds(sys: System, c: nat) {
    c in sys.clients && !sys.clients[c].Dead? && VersionOf(sys.clients[c]) == Version(sys.inst)
  }

  /** A client after its next write. */
  function Advanced(k: Client): Client
    requires k.Saving?
  {
    if k.done + 1 == Writes(k.s) then Running(NextSess(k.s), NextTabled(k.s, k.tabled), k.s.mem)
    else k.(done := k.done + 1)
  }

  /** A session that has read everything: its memory and table come from the snapshot it read and the blocks of now. */
  ghost function Reader(memory: seq<byte>, k: Client, deltas: BlockMap): Client
    requires k.Loading?
  {
    var read := Inst(None, k.snapshot, deltas, []);
    var s := Sess(k.meta, k.hash, OpenTable(memory, read), 0, Restored(memory, read));
    Running(s, OpenTabled(memory, read), Restored(memory, read))
  }

  ghost function Next(init: Fresh, sys: System, e: Event): System
    requires Enabled(sys, e)
  {
    match e
    case Open(c, id, hash) => sys.(clients := sys.clients[c := Opening(OpenMeta(id, hash, sys.inst), hash)])
    case ReadSnapshot(c) =>
      var k := sys.clients[c];
      sys.(clients := sys.clients[c := Loading(k.meta, k.hash, sys.inst.snapshot)])
    case ReadDeltas(c) =>
      var k := sys.clients[c];
      sys.(clients := sys.clients[c := Reader(init(k.meta.wasmHash), k, sys.inst.deltas)])
    case Work(c, mem, callIndex) =>
      var k := sys.clients[c];
      sys.(clients := sys.clients[c := Running(k.s.(mem := mem, callIndex := callIndex), k.tabled, k.base)])
    case Swap(c) =>
      var k := sys.clients[c];
      if CasAllowed(sys.inst.meta, k.s.meta.version) then
        sys.(inst := sys.inst.(meta := Some(NextMeta(k.s))),
             clients := sys.clients[c := Saving(k.s, k.tabled, 1)],
             wins := sys.wins + [Win(c, k.s.meta.version + 1)])
      else sys
    case Write(c) =>
      var k := sys.clients[c];
      sys.(inst := WriteOnce(sys.inst, k.s, k.done),
           clients := sys.clients[c := Advanced(k)],
           saved := if Holds(sys, c) && k.done == 1 then Some(k.s.mem) else sys.saved)
    case Drop(c) => sys.(clients := sys.clients[c := Advanced(sys.clients[c])])
    case Die(c) => sys.(clients := sys.clients[c := Dead])
  }

  ghost function Exec(init: Fresh, events: seq<Event>): Option<System> {
    if events == [] then Some(START)
    else
      match Exec(init, events[..|events| - 1])
      case None => None
      case Some(sys) =>
        var e := events[|events| - 1];
        if Enabled(sys, e) then Some(Next(init, sys, e)) else None
  }

  // ---------------------------------------------------------------- versions alone

  /** The stored version counts the wins, and win number k made version k. */
  ghost predicate Numbered(sys: System) {
    && Version(sys.inst) == |sys.wins|
    && (sys.inst.meta.Some? ==> sys.inst.meta.value.version >= 1)
    && (forall k | 0 <= k < |sys.wins| :: sys.wins[k].version == k + 1)
    && forall c | c in sys.clients :: ClientNumbered(sys, c)
  }

  /** A client's version is at most the stored one; if it is saving, it is one that it won itself. */
  ghost predicate ClientNumbered(sys: System, c: nat)
    requires c in sys.clients
  {
    var v := VersionOf(sys.clients[c]);
    && 0 <= v <= Version(sys.inst)
    && (sys.clients[c].Saving? ==> 1 <= v <= |sys.wins| && sys.wins[v - 1].client == c)
  }

  lemma NextNumbered(init: Fresh, sys: System, e: Event)
    requires Numbered(sys) && Enabled(sys, e)
    ensures Numbered(Next(init, sys, e))
    ensures |sys.wins| <= |Next(init, sys, e).wins| <= |sys.wins| + 1
    ensures sys.wins <= Next(init, sys, e).wins
  {
    hide Dirty, Truncated, Restored, OpenTable, OpenTabled, IsMemory;
  }

  /** Stored versions rise by exactly one, each made by exactly one win. */
  lemma {:induction false} VersionsAreNumbered(init: Fresh, events: seq<Event>)
    requires Exec(init, events).Some?
    ensures Numbered(Exec(init, events).value)
  {
    if events != [] {
      var before := events[..|events| - 1];
      VersionsAreNumbered(init, before);
      NextNumbered(init, Exec(init, before).value, events[|events| - 1]);
    }
  }

  /** Client `c` exists and does not hold the newest version. */
  ghost predicate Behind(sys: System, c: nat) {
    c in sys.clients && !Holds(sys, c)
  }

  /** Losing the swap is exactly being behind. */
  lemma LosingIsBeingBehind(sys: System, c: nat)
    requires Numbered(sys) && c in sys.clients && sys.clients[c].Running?
    ensures CasAllowed(sys.inst.meta, sys.clients[c].s.meta.version) <==> !Behind(sys, c)
  {
  }

  lemma BehindStaysBehind(init: Fresh, sys: System, e: Event, c: nat)
    requires Numbered(sys) && Enabled(sys, e) && Behind(sys, c)
    ensures Behind(Next(init, sys, e), c)
    ensures forall k | |sys.wins| <= k < |Next(init, sys, e).wins| :: Next(init, sys, e).wins[k].client != c
  {
    hide Dirty, Truncated, Restored, OpenTable, OpenTabled, IsMemory;
    NextNumbered(init, sys, e);
  }

  /** A session that lost once, or fell behind in any way, never wins again. */
  lemma {:induction false} LosersNeverWin(init: Fresh, events: seq<Event>, more: seq<Event>, c: nat)
    requires Exec(init, events).Some? && Exec(init, events + more).Some?
    requires Behind(Exec(init, events).value, c)
    ensures var early, late := Exec(init, events).value, Exec(init, events + more).value;
            && Behind(late, c)
            && |early.wins| <= |late.wins|
            && forall k | |early.wins| <= k < |late.wins| :: late.wins[k].client != c
    decreases |more|
  {
    if more == [] {
      assert events + more == events;
    } else {
      var m := more[..|more| - 1];
      var e := more[|more| - 1];
      assert (events + more)[..|events + more| - 1] == events + m;
      LosersNeverWin(init, events, m, c);
      var mid := Exec(init, events + m).value;
      VersionsAreNumbered(init, events + m);
      NextNumbered(init, mid, e);
      BehindStaysBehind(init, mid, e, c);
    }
  }

  // ---------------------------------------------------------------- what every run keeps, linear or not

  predicate SaneSnapshot(snapshot: Option<seq<byte>>) {
    snapshot.Some? ==> IsMemory(snapshot.value) && 0 < |snapshot.value|
  }

  predicate SaneClient(inst: Inst, k: Client) {
    match k
    case Loading(_, _, snapshot) => SaneSnapshot(snapshot) && (snapshot.Some? ==> inst.snapshot.Some?)
    case Running(s, _, _) => IsMemory(s.mem) && 0 < |s.mem|
    case Saving(s, _, done) =>
      && IsMemory(s.mem) && 0 < |s.mem|
      && 1 <= done < Writes(s) && (done >= 2 ==> inst.snapshot.Some?)
    case _ => true
  }

  /** Memories are whole pages and not empty, and a snapshot that was written or read does not disappear. */
  ghost predicate Sane(sys: System) {
    && SaneSnapshot(sys.inst.snapshot) && FullBlocks(sys.inst.deltas)
    && forall c | c in sys.clients :: SaneClient(sys.inst, sys.clients[c])
  }

  lemma ReaderIsSane(x: seq<byte>, k: Client, deltas: BlockMap)
    requires IsMemory(x) && 0 < |x| && k.Loading? && SaneSnapshot(k.snapshot)
    ensures var r := Reader(x, k, deltas); IsMemory(r.s.mem) && 0 < |r.s.mem|
  {
    RebaseLength(x, k.snapshot);
  }

  lemma NextSane(init: Fresh, sys: System, e: Event)
    requires FreshOk(init) && Sane(sys) && Enabled(sys, e)
    ensures Sane(Next(init, sys, e))
  {
    hide Restored, OpenTable, OpenTabled, Truncated, IsMemory, Dirty;
    var sys' := Next(init, sys, e);
    if e.ReadDeltas? {
      assert SaneClient(sys.inst, sys.clients[e.c]);
      ReaderIsSane(init(sys.clients[e.c].meta.wasmHash), sys.clients[e.c], sys.inst.deltas);
    } else if e.Write? {
      assert SaneClient(sys.inst, sys.clients[e.c]);
      DirtyIsFull(sys.clients[e.c].s.table, sys.clients[e.c].s.mem);
    } else if e.Work? || e.Swap? || e.Drop? {
      assert SaneClient(sys.inst, sys.clients[e.c]);
    }
    forall c | c in sys'.clients ensures SaneClient(sys'.inst, sys'.clients[c]) {
      assert c != e.c ==> SaneClient(sys.inst, sys.clients[c]);
    }
  }

  lemma {:induction false} RunIsSane(init: Fresh, events: seq<Event>)
    requires FreshOk(init) && Exec(init, events).Some?
    ensures Sane(Exec(init, events).value)
  {
    if events != [] {
      var before := events[..|events| - 1];
      RunIsSane(init, before);
      NextSane(init, Exec(init, before).value, events[|events| - 1]);
    }
  }

  // ---------------------------------------------------------------- memories

  /** The store keeps its invariant for the module it names, and that module restores what was last saved. */
  ghost predicate StoreOk(init: Fresh, inst: Inst, saved: Option<seq<byte>>) {
    && (inst.meta.None? ==> NothingSaved(inst))
    && (saved.None? <==> NothingSaved(inst))
    && (inst.meta.Some? ==>
          && Stored(init(inst.meta.value.wasmHash), inst)
          && (saved.Some? ==> Restored(init(inst.meta.value.wasmHash), inst) == saved.value))
  }

  /** The metadata names the module that the store names, if it names one. */
  predicate SameModule(inst: Inst, meta: InstanceMeta) {
    inst.meta.Some? ==> inst.meta.value.wasmHash == meta.wasmHash
  }

  /** What is stored, under the metadata that the session won with. */
  function Rewound(inst: Inst, s: Sess): Inst {
    inst.(meta := if s.meta.version == 0 then None else Some(s.meta))
  }

  /** The session is up to date with what it is about to write over. */
  ghost predicate BeforeOk(init: Fresh, before: Inst, s: Sess, tabled: seq<byte>) {
    && Stored(init(s.meta.wasmHash), before)
    && UpToDate(init(s.meta.wasmHash), before, s, tabled)
    && 0 < |s.mem|
  }

  /** A session with the newest version that has read everything works on what the store restores. */
  ghost predicate ClientOk(init: Fresh, inst: Inst, saved: Option<seq<byte>>, k: Client) {
    match k
    case Opening(meta, _) => SameModule(inst, meta)
    case Loading(meta, _, _) => SameModule(inst, meta)
    case Running(s, tabled, base) =>
      && SameModule(inst, s.meta)
      && UpToDate(init(s.meta.wasmHash), inst, s, tabled)
      && base == Restored(init(s.meta.wasmHash), inst)
    case Saving(s, tabled, done) =>
      && inst.meta == Some(NextMeta(s))
      && (done == 1 ==> BeforeOk(init, Rewound(inst, s), s, tabled))
      && (done >= 2 ==> saved == Some(s.mem) && UpToDate(init(s.engineHash), inst, NextSess(s), tabled))
    case Dead => true
  }

  /**
   One linear history: the store restores what the last winner to write has saved, and every session
   that could win next works on exactly that.
   */
  ghost predicate Linear(init: Fresh, sys: System) {
    && Numbered(sys)
    && StoreOk(init, sys.inst, sys.saved)
    && forall c | Holds(sys, c) :: ClientOk(init, sys.inst, sys.saved, sys.clients[c])
  }

  /** The holder's data write: its module has room, and it detects every change or leaves blocks that agree. */
  ghost predicate ExactWrite(init: Fresh, inst: Inst, k: Client)
    requires k.Saving?
  {
    var before := Rewound(inst, k.s);
    var r := Restored(init(k.s.meta.wasmHash), before);
    && |init(k.s.engineHash)| <= |k.s.mem|
    && (|k.tabled| <= |r| <= |k.s.mem| ==> StopIsSafe(before, k.tabled, r, k.s, 2))
  }

  /** The data write of a session that was overtaken: its blocks or its snapshot are what is saved already. */
  predicate IdleWrite(inst: Inst, saved: Option<seq<byte>>, s: Sess) {
    if saved.None? then !IsFull(s.meta.version + 1) && Dirty(s.table, s.mem) == map[]
    else if IsFull(s.meta.version + 1) then SnapshotFits(s.mem, inst.deltas, saved.value)
    else LeftoverAgrees(Dirty(s.table, s.mem), saved.value)
  }

  /** The condition on a write, as far as the store is concerned. */
  ghost predicate SafeForStore(init: Fresh, inst: Inst, saved: Option<seq<byte>>, k: Client, holds: bool)
    requires k.Saving?
  {
    if k.done == 1 then if holds then ExactWrite(init, inst, k) else IdleWrite(inst, saved, k.s)
    else if k.done == 3 then inst.snapshot.Some? ==> LeftoverAgrees(inst.deltas, inst.snapshot.value)
    else true
  }

  /**
   The condition on an event.
   - What a session with the newest version has read, before and after whatever writes, fits together.
   - A winner's module has room for what is saved.
   - A holder's data write is exact, and any other session that holds the newest version and has read
     everything has read that very memory; an overtaken session's writes only what is saved already.
   - A truncation drops only blocks that the snapshot has.
   */
  ghost predicate Safe(init: Fresh, sys: System, e: Event)
    requires Enabled(sys, e)
  {
    match e
    case ReadDeltas(c) =>
      var k := sys.clients[c];
      var x := init(k.meta.wasmHash);
      Holds(sys, c) ==> ReadFits(x, k.snapshot, sys.inst.deltas, Restored(x, sys.inst))
    case Swap(c) =>
      Holds(sys, c) && sys.saved.Some? ==> |init(sys.clients[c].s.engineHash)| <= |sys.saved.value|
    case Write(c) =>
      var k := sys.clients[c];
      && SafeForStore(init, sys.inst, sys.saved, k, Holds(sys, c))
      && (Holds(sys, c) && k.done == 1 ==>
            forall b | b != c && Holds(sys, b) && sys.clients[b].Running? :: sys.clients[b].base == k.s.mem)
    case _ => true
  }

  // ---------------------------------------------------------------- the store alone

  /** Metadata and oplog have no part in what is restored. */
  lemma SameData(x: seq<byte>, a: Inst, b: Inst)
    requires DataOf(a) == DataOf(b)
    ensures Restored(x, a) == Restored(x, b)
    ensures Stored(x, a) && b.meta.Some? && b.meta.value.version >= 1 ==> Stored(x, b)
  {
  }

  lemma NothingSavedIsStored(x: seq<byte>, inst: Inst)
    requires IsMemory(x) && NothingSaved(inst) && (inst.meta.Some? ==> inst.meta.value.version >= 1)
    ensures Stored(x, inst) && Restored(x, inst) == x
  {
  }

  lemma ClientStored(init: Fresh, inst: Inst, saved: Option<seq<byte>>, meta: InstanceMeta)
    requires FreshOk(init) && StoreOk(init, inst, saved) && SameModule(inst, meta)
    ensures Stored(init(meta.wasmHash), inst)
  {
    if inst.meta.None? {
      NothingSavedIsStored(init(meta.wasmHash), inst);
    }
  }

  /** The first data write of a checkpoint, made on what is stored by then, gives the data of the protocol. */
  lemma WritesAddUp(inst: Inst, s: Sess)
    requires 0 < |s.mem|
    ensures DataOf(WriteOnce(inst, s, 1)) == DataOf(AfterWrites(Rewound(inst, s), s, 2))
    ensures DataOf(WriteOnce(inst, s, 2)) == DataOf(inst)
  {
  }

  /** And each write is the protocol's next one, the oplog included. */
  lemma WritesAreTheProtocols(inst: Inst, s: Sess, done: nat)
    requires 0 < |s.mem| && 1 <= done < Writes(s)
    ensures WriteOnce(AfterWrites(inst, s, done), s, done) == AfterWrites(inst, s, done + 1)
    ensures AfterWrites(inst, s, Writes(s)) == Checkpointed(inst, s)
  {
  }

  lemma WriteKeepsMeta(inst: Inst, s: Sess, done: nat)
    ensures WriteOnce(inst, s, done).meta == inst.meta
  {
  }

  lemma AfterWritesMeta(before: Inst, s: Sess, n: nat)
    requires n >= 1
    ensures AfterWrites(before, s, n).meta == Some(NextMeta(s))
  {
  }

  /** The data of a checkpoint, as the winner's own module restores it. */
  lemma WinnerRestores(init: Fresh, before: Inst, s: Sess, tabled: seq<byte>, n: nat)
    requires FreshOk(init) && BeforeOk(init, before, s, tabled) && n >= 2
    ensures var after := AfterWrites(before, s, n);
            var own, r := init(s.engineHash), Restored(init(s.meta.wasmHash), before);
            && !NothingSaved(after)
            && (Stored(own, after) && Restored(own, after) == s.mem <==>
                  |own| <= |s.mem| && StopIsSafe(before, tabled, r, s, n))
  {
    hide AfterWrites, Stored, StopIsSafe, Restored;
    var after, own, x := AfterWrites(before, s, n), init(s.engineHash), init(s.meta.wasmHash);
    CrashPoint(x, before, s, tabled, n);
    FirstSaveSavesSomething(x, before, s, tabled, n);
    OtherModuleRestoresTheSame(x, own, after);
    if Stored(own, after) {
      RestoredIsMemory(own, after);
    }
  }

  lemma SameDataStoreOk(init: Fresh, inst: Inst, inst': Inst, saved: Option<seq<byte>>)
    requires StoreOk(init, inst, saved) && inst'.meta == inst.meta && DataOf(inst') == DataOf(inst)
    ensures StoreOk(init, inst', saved)
  {
    if inst.meta.Some? {
      SameData(init(inst.meta.value.wasmHash), inst, inst');
    }
  }

  /** The store holds the data of a checkpoint, as its session's own module restores it. */
  lemma DataStoreOk(init: Fresh, inst': Inst, s: Sess, tabled: seq<byte>, before: Inst)
    requires FreshOk(init) && BeforeOk(init, before, s, tabled)
    requires inst'.meta == Some(NextMeta(s)) && 0 <= s.meta.version
    requires DataOf(inst') == DataOf(AfterWrites(before, s, 2))
    ensures StoreOk(init, inst', Some(s.mem)) <==>
            && |init(s.engineHash)| <= |s.mem|
            && StopIsSafe(before, tabled, Restored(init(s.meta.wasmHash), before), s, 2)
  {
    hide Stored, Restored, AfterWrites, StopIsSafe;
    var own, after := init(s.engineHash), AfterWrites(before, s, 2);
    AfterWritesMeta(before, s, 2);
    SameData(own, inst', after);
    SameData(own, after, inst');
    WinnerRestores(init, before, s, tabled, 2);
  }

  /** A store that goes on restoring what it did is one that is kept. */
  lemma KeptStoreOk(init: Fresh, inst: Inst, inst': Inst, saved: Option<seq<byte>>)
    requires StoreOk(init, inst, saved) && saved.Some? && inst'.meta == inst.meta && !NothingSaved(inst')
    ensures StoreOk(init, inst', saved) <==> Keeps(init(inst.meta.value.wasmHash), inst, inst')
  {
  }

  lemma TruncationStoreOk(init: Fresh, inst: Inst, saved: Option<seq<byte>>, s: Sess)
    requires StoreOk(init, inst, saved) && inst.snapshot.Some?
    ensures StoreOk(init, WriteOnce(inst, s, 3), saved) <==> LeftoverAgrees(inst.deltas, inst.snapshot.value)
  {
    hide Stored, Restored, Keeps, LeftoverAgrees;
    KeptStoreOk(init, inst, WriteOnce(inst, s, 3), saved);
    TruncationKeepsIff(init(inst.meta.value.wasmHash), inst);
  }

  lemma IdleStoreOk(init: Fresh, inst: Inst, saved: Option<seq<byte>>, s: Sess)
    requires StoreOk(init, inst, saved) && inst.meta.Some? && IsMemory(s.mem) && 0 < |s.mem|
    requires FreshOk(init) && inst.meta.value.version >= 1
    ensures StoreOk(init, WriteOnce(inst, s, 1), saved) <==> IdleWrite(inst, saved, s)
  {
    DirtyIsFull(s.table, s.mem);
    hide Dirty;
    if saved.None? {
      FirstDataIsIdleIff(init, inst, s);
    } else {
      IdleDataStoreOk(init, inst, saved, s);
    }
  }

  lemma FirstDataIsIdleIff(init: Fresh, inst: Inst, s: Sess)
    requires StoreOk(init, inst, None) && inst.meta.Some? && FreshOk(init) && inst.meta.value.version >= 1
    ensures StoreOk(init, WriteOnce(inst, s, 1), None) <==> IdleWrite(inst, None, s)
  {
    hide Dirty;
    var inst', e := WriteOnce(inst, s, 1), Dirty(s.table, s.mem);
    assert inst.deltas + e == e;
    if NothingSaved(inst') {
      NothingSavedIsStored(init(inst.meta.value.wasmHash), inst');
    }
  }

  lemma IdleDataStoreOk(init: Fresh, inst: Inst, saved: Option<seq<byte>>, s: Sess)
    requires StoreOk(init, inst, saved) && saved.Some? && inst.meta.Some? && IsMemory(s.mem) && 0 < |s.mem|
    requires FullBlocks(Dirty(s.table, s.mem))
    ensures StoreOk(init, WriteOnce(inst, s, 1), saved) <==> IdleWrite(inst, saved, s)
  {
    hide Stored, Restored, Keeps, LeftoverAgrees, SnapshotFits, Dirty, FullBlocks, IsMemory;
    var x, inst', e := init(inst.meta.value.wasmHash), WriteOnce(inst, s, 1), Dirty(s.table, s.mem);
    if IsFull(s.meta.version + 1) {
      KeptStoreOk(init, inst, inst', saved);
      SnapshotKeepsIff(x, inst, s.mem);
    } else {
      if inst.deltas != map[] {
        MoreKeepsSome(inst.deltas, e);
      }
      KeptStoreOk(init, inst, inst', saved);
      BlocksKeepIff(x, inst, e);
    }
  }

  lemma MoreKeepsSome(d: BlockMap, e: BlockMap)
    requires d != map[]
    ensures d + e != map[]
  {
    NonemptyHasMember(d.Keys);
    var i :| i in d.Keys;
    assert i in d + e;
  }

  /** The store after a write is in order if and only if the write is safe for it. */
  lemma WriteStoreOk(init: Fresh, inst: Inst, saved: Option<seq<byte>>, k: Client, holds: bool)
    requires FreshOk(init) && StoreOk(init, inst, saved) && k.Saving? && 0 <= k.s.meta.version
    requires SaneClient(inst, k) && inst.meta.Some? && inst.meta.value.version >= 1
    requires holds ==> ClientOk(init, inst, saved, k)
    ensures StoreOk(init, WriteOnce(inst, k.s, k.done), if holds && k.done == 1 then Some(k.s.mem) else saved)
            <==> SafeForStore(init, inst, saved, k, holds)
  {
    hide Stored, Restored, AfterWrites, WriteOnce, StopIsSafe, Dirty, LeftoverAgrees, IdleWrite;
    var inst' := WriteOnce(inst, k.s, k.done);
    WritesAddUp(inst, k.s);
    WriteKeepsMeta(inst, k.s, k.done);
    if k.done == 2 {
      SameDataStoreOk(init, inst, inst', saved);
    } else if k.done == 3 {
      TruncationStoreOk(init, inst, saved, k.s);
    } else if holds {
      DataStoreOk(init, inst', k.s, k.tabled, Rewound(inst, k.s));
    } else {
      IdleStoreOk(init, inst, saved, k.s);
    }
  }

  // ---------------------------------------------------------------- one event at a time

  lemma QuietKeepsLinear(init: Fresh, sys: System, e: Event)
    requires Linear(init, sys) && Enabled(sys, e) && (e.Open? || e.ReadSnapshot? || e.Die?)
    ensures Linear(init, Next(init, sys, e))
  {
    hide StoreOk, Restored, UpToDate, BeforeOk, Numbered;
    NextNumbered(init, sys, e);
    var sys' := Next(init, sys, e);
    forall c | Holds(sys', c)
      ensures ClientOk(init, sys'.inst, sys'.saved, sys'.clients[c])
    {
      if c != e.c || e.ReadSnapshot? {
        assert Holds(sys, c);
      }
    }
  }

  /** A session is up to date with what it has read if and only if that fits together with what is stored. */
  lemma ReaderOkIff(init: Fresh, inst: Inst, saved: Option<seq<byte>>, k: Client)
    requires FreshOk(init) && StoreOk(init, inst, saved) && k.Loading? && SaneClient(inst, k)
    requires ClientOk(init, inst, saved, k) && k.meta.version == Version(inst)
    ensures var x := init(k.meta.wasmHash);
            ClientOk(init, inst, saved, Reader(x, k, inst.deltas)) <==>
              ReadFits(x, k.snapshot, inst.deltas, Restored(x, inst))
  {
    var x, read := init(k.meta.wasmHash), Inst(None, k.snapshot, inst.deltas, []);
    ClientStored(init, inst, saved, k.meta);
    ReadFitsIff(x, inst, read);
    RestoredIsMemory(x, inst);
    ReaderIsSane(x, k, inst.deltas);
    hide Stored, Restored, OpenTable, ReadFits, HashTable, StoreOk;
  }

  lemma ReadDeltasLinearIff(init: Fresh, sys: System, e: Event)
    requires FreshOk(init) && Linear(init, sys) && Sane(sys) && Enabled(sys, e) && e.ReadDeltas?
    ensures Linear(init, Next(init, sys, e)) <==> Safe(init, sys, e)
  {
    hide StoreOk, Restored, OpenTable, OpenTabled, UpToDate, BeforeOk, ReadFits, Numbered;
    NextNumbered(init, sys, e);
    var sys', k := Next(init, sys, e), sys.clients[e.c];
    assert SaneClient(sys.inst, k);
    assert forall c :: Holds(sys', c) <==> Holds(sys, c);
    if Holds(sys, e.c) {
      ReaderOkIff(init, sys.inst, sys.saved, k);
    }
  }

  lemma WorkKeepsLinear(init: Fresh, sys: System, e: Event)
    requires Linear(init, sys) && Enabled(sys, e) && e.Work?
    ensures Linear(init, Next(init, sys, e))
  {
    hide StoreOk, Restored, BeforeOk, Numbered;
    NextNumbered(init, sys, e);
    var sys' := Next(init, sys, e);
    forall c | Holds(sys', c)
      ensures ClientOk(init, sys'.inst, sys'.saved, sys'.clients[c])
    {
      assert Holds(sys, c);
    }
  }

  /** A dropped truncation leaves the store as it is, and the session as up to date as it was. */
  lemma DropKeepsLinear(init: Fresh, sys: System, e: Event)
    requires Linear(init, sys) && Sane(sys) && Enabled(sys, e) && e.Drop?
    ensures Linear(init, Next(init, sys, e))
  {
    NextNumbered(init, sys, e);
    var sys', k := Next(init, sys, e), sys.clients[e.c];
    assert SaneClient(sys.inst, k);
    assert forall c :: Holds(sys', c) <==> Holds(sys, c);
    hide Stored, Restored, HashTable, BeforeOk, Numbered;
    forall c | Holds(sys', c)
      ensures ClientOk(init, sys'.inst, sys'.saved, sys'.clients[c])
    {
      assert ClientOk(init, sys.inst, sys.saved, sys.clients[c]);
    }
  }

  /** A swap changes the module that the store names, and with it who has room for what is saved. */
  lemma SwapStoreOk(init: Fresh, inst: Inst, saved: Option<seq<byte>>, k: Client)
    requires FreshOk(init) && StoreOk(init, inst, saved) && k.Running? && 0 <= k.s.meta.version
    requires ClientOk(init, inst, saved, k)
    ensures StoreOk(init, inst.(meta := Some(NextMeta(k.s))), saved) <==>
            (saved.Some? ==> |init(k.s.engineHash)| <= |saved.value|)
  {
    var inst', own, x := inst.(meta := Some(NextMeta(k.s))), init(k.s.engineHash), init(k.s.meta.wasmHash);
    SameData(own, inst, inst');
    if NothingSaved(inst) {
      NothingSavedIsStored(own, inst');
    } else {
      hide Stored, Restored;
      OtherModuleRestoresTheSame(x, own, inst);
    }
  }

  lemma SwapperIsOk(init: Fresh, inst: Inst, saved: Option<seq<byte>>, k: Client)
    requires FreshOk(init) && StoreOk(init, inst, saved) && k.Running? && SaneClient(inst, k)
    requires ClientOk(init, inst, saved, k) && 0 <= k.s.meta.version == Version(inst)
    requires inst.meta.Some? ==> inst.meta.value.version >= 1
    ensures ClientOk(init, inst.(meta := Some(NextMeta(k.s))), saved, Saving(k.s, k.tabled, 1))
  {
    var x, before := init(k.s.meta.wasmHash), Rewound(inst, k.s);
    ClientStored(init, inst, saved, k.s.meta);
    SameData(x, inst, before);
    if k.s.meta.version == 0 {
      NothingSavedIsStored(x, before);
    }
    hide Stored, Restored;
  }

  lemma SwapLinearIff(init: Fresh, sys: System, e: Event)
    requires FreshOk(init) && Linear(init, sys) && Sane(sys) && Enabled(sys, e) && e.Swap?
    ensures Linear(init, Next(init, sys, e)) <==> Safe(init, sys, e)
  {
    NextNumbered(init, sys, e);
    LosingIsBeingBehind(sys, e.c);
    var sys', k := Next(init, sys, e), sys.clients[e.c];
    if Holds(sys, e.c) {
      assert ClientNumbered(sys, e.c) && SaneClient(sys.inst, k);
      SwapStoreOk(init, sys.inst, sys.saved, k);
      SwapperIsOk(init, sys.inst, sys.saved, k);
      hide StoreOk, Restored, BeforeOk, ClientOk;
      forall c | Holds(sys', c)
        ensures c == e.c
      {
        assert c != e.c ==> ClientNumbered(sys, c);
      }
    }
  }

  lemma UpToDateTransfers(x: seq<byte>, inst: Inst, y: seq<byte>, inst': Inst, s: Sess, tabled: seq<byte>)
    requires UpToDate(x, inst, s, tabled) && Version(inst') == Version(inst)
    requires |Restored(y, inst')| == |Restored(x, inst)| && (NothingSaved(inst') ==> NothingSaved(inst))
    ensures UpToDate(y, inst', s, tabled)
  {
  }

  /** The first data write of a checkpoint that has only one. */
  lemma OnlyWriteIsOk(init: Fresh, inst: Inst, k: Client)
    requires FreshOk(init) && k.Saving? && 0 <= k.s.meta.version && k.done == 1 && Writes(k.s) == 2
    requires ClientOk(init, inst, None, k) && ExactWrite(init, inst, k)
    requires StoreOk(init, WriteOnce(inst, k.s, 1), Some(k.s.mem))
    ensures ClientOk(init, WriteOnce(inst, k.s, 1), Some(k.s.mem), Advanced(k))
  {
    var inst', before := WriteOnce(inst, k.s, 1), Rewound(inst, k.s);
    var own, x, after := init(k.s.engineHash), init(k.s.meta.wasmHash), Checkpointed(before, k.s);
    WriteKeepsMeta(inst, k.s, 1);
    AfterWritesMeta(before, k.s, 4);
    assert StopIsSafe(before, k.tabled, Restored(x, before), k.s, 4);
    hide Stored, Restored, WriteOnce, AfterWrites, StopIsSafe, HashTable;
    StaysUpToDate(x, before, k.s, k.tabled, 4);
    UpToDateTransfers(x, after, own, inst', NextSess(k.s), NextTabled(k.s, k.tabled));
  }

  lemma WriterIsOk(init: Fresh, inst: Inst, saved: Option<seq<byte>>, k: Client)
    requires FreshOk(init) && StoreOk(init, inst, saved) && k.Saving? && 0 <= k.s.meta.version
    requires SaneClient(inst, k) && ClientOk(init, inst, saved, k)
    requires SafeForStore(init, inst, saved, k, true)
    ensures var inst' := WriteOnce(inst, k.s, k.done);
            ClientOk(init, inst', if k.done == 1 then Some(k.s.mem) else saved, Advanced(k))
  {
    var inst', own := WriteOnce(inst, k.s, k.done), init(k.s.engineHash);
    WriteStoreOk(init, inst, saved, k, true);
    WriteKeepsMeta(inst, k.s, k.done);
    if k.done == 1 {
      if Writes(k.s) == 2 {
        OnlyWriteIsOk(init, inst, k);
      } else {
        FullWriteIsOk(init, inst, k);
      }
    } else {
      hide Stored, Restored, HashTable, WriteOnce;
      UpToDateTransfers(own, inst, own, inst', NextSess(k.s), k.tabled);
    }
  }

  /** The snapshot of a checkpoint that goes on to truncate. */
  lemma FullWriteIsOk(init: Fresh, inst: Inst, k: Client)
    requires FreshOk(init) && k.Saving? && 0 <= k.s.meta.version && k.done == 1 && Writes(k.s) == 4
    requires ClientOk(init, inst, None, k) && inst.meta.value.version >= 1
    requires StoreOk(init, WriteOnce(inst, k.s, 1), Some(k.s.mem))
    ensures ClientOk(init, WriteOnce(inst, k.s, 1), Some(k.s.mem), Advanced(k))
  {
    hide Stored, Restored, HashTable;
  }

  /** Other holders of the newest version, after a write that leaves the store in order. */
  lemma OtherStaysOk(init: Fresh, inst: Inst, saved: Option<seq<byte>>,
                     inst': Inst, saved': Option<seq<byte>>, k: Client)
    requires FreshOk(init) && StoreOk(init, inst, saved) && StoreOk(init, inst', saved')
    requires ClientOk(init, inst, saved, k)
    requires inst.meta.Some? && inst'.meta == inst.meta && (saved' == saved || (saved'.Some? && !k.Saving?))
    ensures ClientOk(init, inst', saved', k) <==> (k.Running? && saved' != saved ==> Some(k.base) == saved')
  {
    if k.Running? {
      RunnerStaysOk(init, inst, saved, inst', saved', k);
    } else if k.Saving? {
      SaverStaysOk(init, inst, inst', saved, k);
    }
  }

  lemma RunnerStaysOk(init: Fresh, inst: Inst, saved: Option<seq<byte>>,
                      inst': Inst, saved': Option<seq<byte>>, k: Client)
    requires FreshOk(init) && StoreOk(init, inst, saved) && StoreOk(init, inst', saved')
    requires ClientOk(init, inst, saved, k)
    requires inst.meta.Some? && inst'.meta == inst.meta && (saved' == saved || saved'.Some?) && k.Running?
    ensures ClientOk(init, inst', saved', k) <==> (saved' != saved ==> Some(k.base) == saved')
  {
    var x := init(k.s.meta.wasmHash);
    if saved'.None? {
      NothingSavedIsStored(x, inst);
      NothingSavedIsStored(x, inst');
    }
    hide Stored, Restored, HashTable;
    if Restored(x, inst') == k.base {
      UpToDateTransfers(x, inst, x, inst', k.s, k.tabled);
    }
  }

  lemma SaverStaysOk(init: Fresh, inst: Inst, inst': Inst, saved: Option<seq<byte>>, k: Client)
    requires FreshOk(init) && StoreOk(init, inst, saved) && StoreOk(init, inst', saved)
    requires ClientOk(init, inst, saved, k)
    requires inst.meta.Some? && inst'.meta == inst.meta && k.Saving?
    ensures ClientOk(init, inst', saved, k)
  {
    var own := init(k.s.engineHash);
    if k.done == 1 {
      if saved.None? {
        assert Rewound(inst', k.s).(oplog := []) == Rewound(inst, k.s).(oplog := []);
        SameData(init(k.s.meta.wasmHash), Rewound(inst, k.s), Rewound(inst', k.s));
      } else {
        BeforeStaysOk(init, inst, inst', saved.value, k);
      }
    }
    if k.done >= 2 {
      hide Stored, Restored, HashTable;
      UpToDateTransfers(own, inst, own, inst', NextSess(k.s), k.tabled);
    }
  }

  /** The session's own module and the one that the store names restore the same. */
  lemma BothModulesRestore(init: Fresh, inst: Inst, r: seq<byte>, x: seq<byte>, own: seq<byte>)
    requires IsMemory(x) && IsMemory(own) && !NothingSaved(inst)
    requires Stored(own, inst) && Restored(own, inst) == r && Stored(x, inst)
    ensures Restored(x, inst) == r && |x| <= |r|
  {
    hide Restored;
    OtherModuleRestoresTheSame(own, x, inst);
    OtherModuleRestoresTheSame(x, own, inst);
    RestoredIsMemory(x, inst);
    RestoredIsMemory(own, inst);
  }

  lemma BeforeStaysOk(init: Fresh, inst: Inst, inst': Inst, r: seq<byte>, k: Client)
    requires FreshOk(init) && StoreOk(init, inst, Some(r)) && StoreOk(init, inst', Some(r))
    requires inst.meta.Some? && inst'.meta == inst.meta && k.Saving? && k.done == 1
    requires ClientOk(init, inst, Some(r), k)
    ensures ClientOk(init, inst', Some(r), k)
  {
    var x, own := init(k.s.meta.wasmHash), init(k.s.engineHash);
    var before, before' := Rewound(inst, k.s), Rewound(inst', k.s);
    SameData(x, before, inst);
    SameData(x, inst', before');
    BothModulesRestore(init, inst, r, x, own);
    OtherModuleRestoresTheSame(own, x, inst');
    hide Restored, HashTable;
    UpToDateTransfers(x, before, x, before', k.s, k.tabled);
  }

  lemma WriterNumbers(sys: System, c: nat)
    requires Numbered(sys) && c in sys.clients && sys.clients[c].Saving?
    ensures 0 <= sys.clients[c].s.meta.version && sys.inst.meta.Some? && sys.inst.meta.value.version >= 1
    ensures Holds(sys, c) ==> forall b | b != c && Holds(sys, b) :: !sys.clients[b].Saving?
  {
    assert ClientNumbered(sys, c);
    forall b | b != c && Holds(sys, b) ensures Holds(sys, c) ==> !sys.clients[b].Saving? {
      assert ClientNumbered(sys, b);
    }
  }

  lemma HoldersAfterWrite(init: Fresh, sys: System, e: Event)
    requires Enabled(sys, e) && e.Write?
    ensures forall c :: Holds(Next(init, sys, e), c) <==> Holds(sys, c)
  {
    var k := sys.clients[e.c];
    WriteKeepsMeta(sys.inst, k.s, k.done);
  }

  lemma OthersAfterWrite(init: Fresh, sys: System, e: Event, b: nat)
    requires FreshOk(init) && Linear(init, sys) && Enabled(sys, e) && e.Write?
    requires b != e.c && Holds(sys, b)
    requires StoreOk(init, Next(init, sys, e).inst, Next(init, sys, e).saved)
    ensures var sys', k := Next(init, sys, e), sys.clients[e.c];
            ClientOk(init, sys'.inst, sys'.saved, sys'.clients[b]) <==>
              (Holds(sys, e.c) && k.done == 1 && sys.clients[b].Running? ==> sys.clients[b].base == k.s.mem)
  {
    hide Restored, Stored, UpToDate, BeforeOk, WriteOnce, Numbered;
    var sys', k := Next(init, sys, e), sys.clients[e.c];
    WriterNumbers(sys, e.c);
    WriteKeepsMeta(sys.inst, k.s, k.done);
    assert ClientOk(init, sys.inst, sys.saved, sys.clients[b]);
    OtherStaysOk(init, sys.inst, sys.saved, sys'.inst, sys'.saved, sys.clients[b]);
  }

  lemma WriteLinearIff(init: Fresh, sys: System, e: Event)
    requires FreshOk(init) && Linear(init, sys) && Sane(sys) && Enabled(sys, e) && e.Write?
    ensures Linear(init, Next(init, sys, e)) <==> Safe(init, sys, e)
  {
    hide StoreOk, ClientOk, WriteOnce, SafeForStore, Numbered;
    NextNumbered(init, sys, e);
    HoldersAfterWrite(init, sys, e);
    var sys', k := Next(init, sys, e), sys.clients[e.c];
    WriterNumbers(sys, e.c);
    assert SaneClient(sys.inst, k);
    WriteStoreOk(init, sys.inst, sys.saved, k, Holds(sys, e.c));
    if StoreOk(init, sys'.inst, sys'.saved) {
      forall b | b != e.c && Holds(sys, b)
        ensures ClientOk(init, sys'.inst, sys'.saved, sys'.clients[b]) <==>
                  (Holds(sys, e.c) && k.done == 1 && sys.clients[b].Running? ==> sys.clients[b].base == k.s.mem)
      {
        OthersAfterWrite(init, sys, e, b);
      }
      if Holds(sys, e.c) {
        WriterIsOk(init, sys.inst, sys.saved, k);
      }
    }
  }

  /** One event keeps the history linear if and only if it is safe. */
  lemma NextLinearIff(init: Fresh, sys: System, e: Event)
    requires FreshOk(init) && Linear(init, sys) && Sane(sys) && Enabled(sys, e)
    ensures Linear(init, Next(init, sys, e)) <==> Safe(init, sys, e)
  {
    hide Linear, Sane;
    match e
    case ReadDeltas(_) => ReadDeltasLinearIff(init, sys, e);
    case Work(_, _, _) => WorkKeepsLinear(init, sys, e);
    case Swap(_) => SwapLinearIff(init, sys, e);
    case Write(_) => WriteLinearIff(init, sys, e);
    case Drop(_) => DropKeepsLinear(init, sys, e);
    case _ => QuietKeepsLinear(init, sys, e);
  }

  // ---------------------------------------------------------------- whole runs

  ghost predicate AlwaysLinear(init: Fresh, events: seq<Event>)
    requires Exec(init, events).Some?
  {
    && Linear(init, Exec(init, events).value)
    && (events == [] || AlwaysLinear(init, events[..|events| - 1]))
  }

  ghost predicate SafeRun(init: Fresh, events: seq<Event>)
    requires Exec(init, events).Some?
  {
    events == [] ||
    (var before := events[..|events| - 1];
     SafeRun(init, before) && Safe(init, Exec(init, before).value, events[|events| - 1]))
  }

  /**
   One linear history. Under every interleaving of the single reads and writes of any number of
   sessions, the history is linear at every moment if and only if every event is safe.
   */
  lemma {:induction false} LinearIffSafe(init: Fresh, events: seq<Event>)
    requires FreshOk(init) && Exec(init, events).Some?
    ensures AlwaysLinear(init, events) <==> SafeRun(init, events)
  {
    if events == [] {
      assert Linear(init, START);
    } else {
      var before, e := events[..|events| - 1], events[|events| - 1];
      LinearIffSafe(init, before);
      RunIsSane(init, before);
      hide Linear, Safe, Next, Sane;
      if AlwaysLinear(init, before) {
        NextLinearIff(init, Exec(init, before).value, e);
      }
    }
  }

  /** What a linear history means: whoever can win next works from what the last winner to write has saved. */
  lemma LinearMeansOneMemory(init: Fresh, sys: System, c: nat)
    requires Linear(init, sys) && Holds(sys, c) && sys.clients[c].Running?
    ensures sys.clients[c].base == if sys.saved.Some? then sys.saved.value else init(sys.clients[c].s.meta.wasmHash)
  {
  }

  // ---------------------------------------------------------------- checkpoints that nobody opens into

  /** No session is in the middle of its checkpoint with the newest version. */
  ghost predicate NobodySaves(sys: System) {
    forall b | Holds(sys, b) :: !sys.clients[b].Saving?
  }

  /** Sessions are opened only while nobody saves. */
  ghost predicate Considerate(init: Fresh, events: seq<Event>)
    requires Exec(init, events).Some?
  {
    events == [] ||
    (var before := events[..|events| - 1];
     Considerate(init, before) && (events[|events| - 1].Open? ==> NobodySaves(Exec(init, before).value)))
  }

  /** A session that is saving is alone with the newest version, and its snapshot is the stored one. */
  ghost predicate Alone(sys: System, c: nat)
    requires c in sys.clients && sys.clients[c].Saving?
  {
    && Holds(sys, c)
    && (forall b | Holds(sys, b) :: b == c)
    && (sys.clients[c].done >= 2 ==> sys.inst.snapshot == Some(sys.clients[c].s.mem))
  }

  ghost predicate SaversAlone(sys: System) {
    forall c | c in sys.clients && sys.clients[c].Saving? :: Alone(sys, c)
  }

  /** A session with the newest version that has read the snapshot has read the stored one. */
  ghost predicate ReadersCurrent(sys: System) {
    forall c | Holds(sys, c) && sys.clients[c].Loading? :: sys.clients[c].snapshot == sys.inst.snapshot
  }

  lemma SwapLeavesOneHolder(init: Fresh, sys: System, c: nat, b: nat)
    requires Numbered(sys) && Enabled(sys, Swap(c)) && Holds(sys, c)
    ensures Holds(Next(init, sys, Swap(c)), b) <==> b == c
  {
    LosingIsBeingBehind(sys, c);
    assert b in sys.clients ==> ClientNumbered(sys, b);
  }

  lemma HoldersElsewise(init: Fresh, sys: System, e: Event, b: nat)
    requires Numbered(sys) && Enabled(sys, e) && !e.Open? && !(e.Swap? && Holds(sys, e.c))
    ensures Holds(Next(init, sys, e), b) ==> Holds(sys, b)
    ensures e.Write? ==> (Holds(Next(init, sys, e), b) <==> Holds(sys, b))
    ensures b != e.c ==> (Holds(Next(init, sys, e), b) <==> Holds(sys, b))
  {
    if e.Write? {
      HoldersAfterWrite(init, sys, e);
    } else if e.Swap? {
      LosingIsBeingBehind(sys, e.c);
    }
  }

  lemma NextAlone(init: Fresh, sys: System, e: Event)
    requires Numbered(sys) && Sane(sys) && SaversAlone(sys) && Enabled(sys, e) && (e.Open? ==> NobodySaves(sys))
    ensures SaversAlone(Next(init, sys, e))
  {
    hide Numbered, Sane, Holds;
    var sys' := Next(init, sys, e);
    if e.Open? {
      forall c | c in sys.clients ensures !sys.clients[c].Saving? {
        assert sys.clients[c].Saving? ==> Alone(sys, c);
      }
    } else {
      forall c | c in sys'.clients && sys'.clients[c].Saving? ensures Alone(sys', c) {
        StaysAlone(init, sys, e, c);
      }
    }
  }

  lemma StaysAlone(init: Fresh, sys: System, e: Event, c: nat)
    requires Numbered(sys) && Sane(sys) && SaversAlone(sys) && Enabled(sys, e) && !e.Open?
    requires c in sys.clients && Next(init, sys, e).clients[c].Saving?
    ensures Alone(Next(init, sys, e), c)
  {
    hide Numbered, Restored, OpenTable, OpenTabled, Dirty, Truncated;
    var sys' := Next(init, sys, e);
    if e.Swap? {
      LosingIsBeingBehind(sys, e.c);
    }
    assert sys.clients[c].Saving? ==> Alone(sys, c) && SaneClient(sys.inst, sys.clients[c]);
    if e.Swap? && Holds(sys, e.c) {
      forall b ensures Holds(sys', b) <==> b == e.c {
        SwapLeavesOneHolder(init, sys, e.c, b);
      }
    } else {
      forall b
        ensures Holds(sys', b) ==> Holds(sys, b)
        ensures b != e.c || e.Write? ==> (Holds(sys', b) <==> Holds(sys, b))
      {
        HoldersElsewise(init, sys, e, b);
      }
    }
  }

  /** The conditions that are left: room for what is saved, and exact data. */
  ghost predicate ExactEvent(init: Fresh, sys: System, e: Event)
    requires Enabled(sys, e)
  {
    match e
    case Swap(c) =>
      Holds(sys, c) && sys.saved.Some? ==> |init(sys.clients[c].s.engineHash)| <= |sys.saved.value|
    case Write(c) => sys.clients[c].done == 1 ==> ExactWrite(init, sys.inst, sys.clients[c])
    case _ => true
  }

  ghost predicate ExactRun(init: Fresh, events: seq<Event>)
    requires Exec(init, events).Some?
  {
    events == [] ||
    (var before := events[..|events| - 1];
     ExactRun(init, before) && ExactEvent(init, Exec(init, before).value, events[|events| - 1]))
  }

  lemma NextReadersCurrent(init: Fresh, sys: System, e: Event)
    requires Numbered(sys) && Sane(sys) && SaversAlone(sys) && ReadersCurrent(sys) && Enabled(sys, e)
    ensures ReadersCurrent(Next(init, sys, e))
  {
    hide Numbered, Sane, Restored, OpenTable, OpenTabled, Dirty, Truncated;
    var sys' := Next(init, sys, e);
    assert e.Write? ==> Alone(sys, e.c);
    forall c | Holds(sys', c) && sys'.clients[c].Loading? ensures sys'.clients[c].snapshot == sys'.inst.snapshot {
      if e.Swap? && Holds(sys, e.c) {
        SwapLeavesOneHolder(init, sys, e.c, c);
        LosingIsBeingBehind(sys, e.c);
      } else if !e.Open? {
        HoldersElsewise(init, sys, e, c);
      }
    }
  }

  /** A session that has read the stored snapshot and now reads the stored blocks has what fits. */
  lemma CurrentReadFits(init: Fresh, inst: Inst, saved: Option<seq<byte>>, k: Client)
    requires FreshOk(init) && StoreOk(init, inst, saved) && k.Loading? && SameModule(inst, k.meta)
    requires k.snapshot == inst.snapshot
    ensures var x := init(k.meta.wasmHash); ReadFits(x, k.snapshot, inst.deltas, Restored(x, inst))
  {
    var x := init(k.meta.wasmHash);
    ClientStored(init, inst, saved, k.meta);
    OpenTableMatches(x, inst);
    ReadFitsIff(x, inst, inst);
  }

  /** After the data write of a session that is alone, the left-over blocks are the snapshot's. */
  lemma AloneTruncates(init: Fresh, sys: System, c: nat)
    requires FreshOk(init) && Linear(init, sys) && c in sys.clients && sys.clients[c].Saving? && Alone(sys, c)
    requires sys.clients[c].done >= 2
    ensures LeftoverAgrees(sys.inst.deltas, sys.inst.snapshot.value)
  {
    var inst, k := sys.inst, sys.clients[c];
    var own := init(k.s.engineHash);
    assert ClientOk(init, inst, sys.saved, k);
    RestoredIsMemory(own, inst);
    DeltaIndicesInside(own, inst, k.s.mem);
    LeftoverRestore(own, inst.deltas, k.s.mem);
  }

  /** While savers are alone and readers current, an event is safe if and only if its data is exact. */
  lemma AloneSafeIff(init: Fresh, sys: System, e: Event)
    requires FreshOk(init) && Linear(init, sys) && Sane(sys) && Enabled(sys, e)
    requires SaversAlone(sys) && ReadersCurrent(sys)
    ensures Safe(init, sys, e) <==> ExactEvent(init, sys, e)
  {
    hide StoreOk, Restored, ReadFits, ExactWrite, LeftoverAgrees, Numbered;
    if e.ReadDeltas? && Holds(sys, e.c) {
      CurrentReadFits(init, sys.inst, sys.saved, sys.clients[e.c]);
    }
    if e.Write? {
      assert Alone(sys, e.c);
      if sys.clients[e.c].done >= 2 {
        AloneTruncates(init, sys, e.c);
      }
    }
  }

  lemma {:induction false} ConsiderateIsAlone(init: Fresh, events: seq<Event>)
    requires FreshOk(init) && Exec(init, events).Some? && Considerate(init, events)
    ensures SaversAlone(Exec(init, events).value) && ReadersCurrent(Exec(init, events).value)
  {
    if events != [] {
      var before, e := events[..|events| - 1], events[|events| - 1];
      var sys := Exec(init, before).value;
      ConsiderateIsAlone(init, before);
      RunIsSane(init, before);
      VersionsAreNumbered(init, before);
      hide Numbered, Sane, SaversAlone, ReadersCurrent, NobodySaves, Next;
      NextAlone(init, sys, e);
      NextReadersCurrent(init, sys, e);
    }
  }

  /**
   In every run in which nobody opens while a session with the newest version is saving, the history
   is linear at every moment, also in the middle of a checkpoint, if and only if every winner's module
   has room for what is saved and every data write is exact as it stands.
   */
  lemma {:induction false} ConsiderateLinearIff(init: Fresh, events: seq<Event>)
    requires FreshOk(init) && Exec(init, events).Some? && Considerate(init, events)
    ensures AlwaysLinear(init, events) <==> ExactRun(init, events)
  {
    if events == [] {
      assert Linear(init, START);
    } else {
      var before, e := events[..|events| - 1], events[|events| - 1];
      var sys := Exec(init, before).value;
      ConsiderateLinearIff(init, before);
      RunIsSane(init, before);
      ConsiderateIsAlone(init, before);
      hide Linear, Safe, Next, Sane, SaversAlone, ReadersCurrent, ExactEvent;
      if AlwaysLinear(init, before) {
        NextLinearIff(init, sys, e);
        AloneSafeIff(init, sys, e);
      }
    }
  }

  /**
   A later full checkpoint is not exact as it stands, unless the blocks saved before are the snapshot's:
   until they are truncated the store restores neither memory.
   */
  lemma WindowIsNotLinear(init: Fresh, sys: System, c: nat)
    requires FreshOk(init) && Linear(init, sys) && Sane(sys) && Holds(sys, c) && sys.clients[c].Saving?
    requires var k := sys.clients[c];
             && k.done == 1 && IsFull(k.s.meta.version + 1) && k.s.meta.version > 0
             && !LeftoverAgrees(sys.inst.deltas, k.s.mem)
    ensures !Linear(init, Next(init, sys, Write(c)))
  {
    hide Stored, Restored, HashTable, LeftoverAgrees, StoreOk, Sane, Numbered;
    assert ClientOk(init, sys.inst, sys.saved, sys.clients[c]);
    NextLinearIff(init, sys, Write(c));
  }

  // ---------------------------------------------------------------- a session that opens in the middle

  /** Client 1 opens and reads between the two writes of client 0's first checkpoint. */
  function Intrusion(id: string, hash: string, m: seq<byte>): seq<Event> {
    [Open(0, id, hash), ReadSnapshot(0), ReadDeltas(0), Work(0, m, 0), Swap(0),
     Open(1, id, hash), ReadSnapshot(1), ReadDeltas(1),
     Write(0)]
  }

  lemma ExecStep(init: Fresh, events: seq<Event>, k: nat)
    requires k < |events|
    ensures var r := Exec(init, events[..k]);
            r.Some? && Enabled(r.value, events[k]) ==>
              Exec(init, events[..k + 1]) == Some(Next(init, r.value, events[k]))
    ensures Exec(init, events[..0]) == Some(START)
  {
    assert events[..k + 1][..k] == events[..k];
  }

  /** A session on an instance of which nothing is saved. */
  lemma FreshReader(x: seq<byte>, meta: InstanceMeta, hash: string)
    ensures Reader(x, Loading(meta, hash, None), map[]) == Running(Sess(meta, hash, map[], 0, x), [], x)
  {
    assert Hashes(map[]) == map[];
  }

  /** Client 0 as far as its swap. */
  lemma FirstHalf(init: Fresh, id: string, hash: string, m: seq<byte>)
    requires IsMemory(m) && |init(hash)| <= |m|
    ensures var meta := InstanceMeta(id, hash, 0, "", NO_PROCESS);
            var s := Sess(meta, hash, map[], 0, m);
            Exec(init, Intrusion(id, hash, m)[..5]) ==
              Some(System(EMPTY.(meta := Some(meta.(version := 1))), map[0 := Saving(s, [], 1)], [Win(0, 1)], None))
  {
    hide Exec, Restored, OpenTable, OpenTabled, Reader;
    var events, x := Intrusion(id, hash, m), init(hash);
    var meta := InstanceMeta(id, hash, 0, "", NO_PROCESS);
    var s := Sess(meta, hash, map[], 0, x);
    FreshReader(x, meta, hash);
    var s1 := START.(clients := map[0 := Opening(meta, hash)]);
    var s2 := START.(clients := map[0 := Loading(meta, hash, None)]);
    var s3 := START.(clients := map[0 := Running(s, [], x)]);
    var s4 := START.(clients := map[0 := Running(s.(mem := m), [], x)]);
    assert Next(init, START, events[0]) == s1;
    assert Next(init, s1, events[1]).clients == s2.clients;
    assert Next(init, s2, events[2]).clients == s3.clients;
    assert Next(init, s3, events[3]).clients == s4.clients;
    var s5 := Next(init, s4, events[4]);
    assert s5.clients == map[0 := Saving(s.(mem := m), [], 1)];
    assert s5.wins == [Win(0, 1)];
    assert s5.inst == EMPTY.(meta := Some(meta.(version := 1)));
    assert Next(init, s1, events[1]) == s2 && Next(init, s2, events[2]) == s3 && Next(init, s3, events[3]) == s4;
    hide Next, Intrusion;
    ExecStep(init, events, 0);
    ExecStep(init, events, 1);
    ExecStep(init, events, 2);
    ExecStep(init, events, 3);
    ExecStep(init, events, 4);
  }

  /** The system when client 1 has read everything. */
  function Halfway(id: string, hash: string, m: seq<byte>, x: seq<byte>): System {
    var meta := InstanceMeta(id, hash, 0, "", NO_PROCESS);
    var meta1 := meta.(version := 1);
    System(EMPTY.(meta := Some(meta1)),
           map[0 := Saving(Sess(meta, hash, map[], 0, m), [], 1), 1 := Running(Sess(meta1, hash, map[], 0, x), [], x)],
           [Win(0, 1)], None)
  }

  lemma IntruderReads(init: Fresh, id: string, hash: string, m: seq<byte>)
    requires IsMemory(m) && |init(hash)| <= |m|
    ensures Exec(init, Intrusion(id, hash, m)[..8]) == Some(Halfway(id, hash, m, init(hash)))
  {
    hide Exec, Restored, OpenTable, OpenTabled, Reader;
    var events, x := Intrusion(id, hash, m), init(hash);
    var s8 := Halfway(id, hash, m, x);
    var k, meta1 := s8.clients[0], s8.inst.meta.value;
    FirstHalf(init, id, hash, m);
    FreshReader(x, meta1, hash);
    var s5 := s8.(clients := map[0 := k]);
    var s6 := s8.(clients := map[0 := k, 1 := Opening(meta1, hash)]);
    var s7 := s8.(clients := map[0 := k, 1 := Loading(meta1, hash, None)]);
    assert Next(init, s5, events[5]).clients == s6.clients;
    assert Next(init, s6, events[6]).clients == s7.clients;
    assert Next(init, s7, events[7]).clients == s8.clients;
    hide Next, Intrusion;
    ExecStep(init, events, 5);
    ExecStep(init, events, 6);
    ExecStep(init, events, 7);
  }

  /**
   Opening in the middle is what goes wrong. Client 1 then holds the newest version and will win the
   next swap, but works from the fresh memory, and no longer from what is saved.
   */
  lemma OpeningInsideACheckpointIsUnsound(init: Fresh, id: string, hash: string, m: seq<byte>)
    requires IsMemory(m) && |init(hash)| <= |m| && m != init(hash)
    ensures Exec(init, Intrusion(id, hash, m)).Some?
    ensures var sys := Exec(init, Intrusion(id, hash, m)).value;
            && Holds(sys, 1) && sys.clients[1].Running?
            && CasAllowed(sys.inst.meta, sys.clients[1].s.meta.version)
            && sys.clients[1].base == init(hash) && sys.saved == Some(m)
            && !Linear(init, sys)
  {
    hide Exec, Restored, OpenTable, OpenTabled, Reader, UpToDate, StoreOk;
    var events, s8 := Intrusion(id, hash, m), Halfway(id, hash, m, init(hash));
    IntruderReads(init, id, hash, m);
    var s9 := Next(init, s8, events[8]);
    assert Holds(s9, 1) && s9.clients[1] == s8.clients[1] && s9.saved == Some(m);
    assert !Linear(init, s9) by {
      if Linear(init, s9) {
        LinearMeansOneMemory(init, s9, 1);
      }
    }
    assert |events| == 9;
    hide Next, Intrusion, Linear;
    ExecStep(init, events, 8);
    assert events[..9] == events;
  }
}
