/**
 Checkpoints as if they were atomic. In a run in which nobody opens while a session with the newest
 version is saving, only the moments at which nobody saves can be seen by a session; at those, the
 history is linear whatever the store looked like in between.
 */
module Quiescence {
  import opened Bytes
  import opened Blocks
  import opened Protocol
  import opened Exactness
  import opened Concurrency

  /** Whenever nobody saves, the history is linear. */
  ghost predicate LinearWhenQuiet(init: Fresh, events: seq<Event>)
    requires Exec(init, events).Some?
  {
    && (NobodySaves(Exec(init, events).value) ==> Linear(init, Exec(init, events).value))
    && (events == [] || LinearWhenQuiet(init, events[..|events| - 1]))
  }

  /** The winner's own module, which the next session instantiates, has room for its memory. */
  predicate Room(init: Fresh, s: Sess) {
    |init(s.engineHash)| <= |s.mem|
  }

  /** The last write of a checkpoint: there is room, and an incremental one detects every change. */
  ghost predicate EndsWell(init: Fresh, inst: Inst, k: Client)
    requires k.Saving?
  {
    var r := Restored(init(k.s.meta.wasmHash), inst);
    && Room(init, k.s)
    && (!IsFull(k.s.meta.version + 1) && |k.tabled| <= |r| <= |k.s.mem| ==> Detects(k.tabled, r, k.s.mem))
  }

  /** The checkpoint stops for good here: before its data, or with blocks that its snapshot has. */
  predicate StopsWell(init: Fresh, inst: Inst, saved: Option<seq<byte>>, k: Client)
    requires k.Saving?
  {
    if k.done == 1 then saved.Some? ==> |init(k.s.engineHash)| <= |saved.value|
    else Room(init, k.s) && LeftoverAgrees(inst.deltas, k.s.mem)
  }

  /** The conditions on a run: how its checkpoints end, and where they stop. */
  ghost predicate GoodEvent(init: Fresh, sys: System, e: Event)
    requires Enabled(sys, e)
  {
    match e
    case Write(c) => sys.clients[c].done + 1 == Writes(sys.clients[c].s) ==> EndsWell(init, sys.inst, sys.clients[c])
    case Drop(c) => sys.clients[c].done == 3 ==> StopsWell(init, sys.inst, sys.saved, sys.clients[c])
    case Die(c) => Holds(sys, c) && sys.clients[c].Saving? ==> StopsWell(init, sys.inst, sys.saved, sys.clients[c])
    case _ => true
  }

  ghost predicate GoodRun(init: Fresh, events: seq<Event>)
    requires Exec(init, events).Some?
  {
    events == [] ||
    (var before := events[..|events| - 1];
     GoodRun(init, before) && GoodEvent(init, Exec(init, before).value, events[|events| - 1]))
  }

  // ---------------------------------------------------------------- a session that is saving

  /** The stored blocks lie inside the snapshot that was just written over them. */
  ghost predicate Covered(inst: Inst, s: Sess, tabled: seq<byte>) {
    && inst.snapshot == Some(s.mem) && IsMemory(s.mem) && 0 < |s.mem|
    && FullBlocks(inst.deltas)
    && (forall i | i in inst.deltas :: 0 <= i < NumBlocks(s.mem))
    && (inst.deltas != map[] ==> Span(inst.deltas) <= |s.mem|)
    && IsMemory(tabled) && |tabled| <= |s.mem| && s.table == HashTable(tabled)
  }

  /** Before its data write a session is up to date with what is stored; after it, its snapshot is there. */
  ghost predicate SaverOk(init: Fresh, inst: Inst, saved: Option<seq<byte>>, k: Client)
    requires k.Saving?
  {
    && inst.meta == Some(NextMeta(k.s)) && 0 <= k.s.meta.version
    && (k.done == 1 ==>
          BeforeOk(init, Rewound(inst, k.s), k.s, k.tabled) && StoreOk(init, Rewound(inst, k.s), saved))
    && (k.done >= 2 ==> saved == Some(k.s.mem) && IsFull(k.s.meta.version + 1) && Covered(inst, k.s, k.tabled))
  }

  /** The invariant: linear while nobody saves, and otherwise in the middle of one checkpoint. */
  ghost predicate Calm(init: Fresh, sys: System) {
    && Numbered(sys)
    && (NobodySaves(sys) ==> Linear(init, sys))
    && forall c | Holds(sys, c) && sys.clients[c].Saving? :: SaverOk(init, sys.inst, sys.saved, sys.clients[c])
  }

  /** A snapshot over blocks that lie inside it: the store is in order if and only if they agree and there is room. */
  lemma CoveredStoreOk(init: Fresh, inst: Inst, s: Sess, tabled: seq<byte>)
    requires FreshOk(init) && Covered(inst, s, tabled) && inst.meta == Some(NextMeta(s)) && 0 <= s.meta.version
    ensures StoreOk(init, inst, Some(s.mem)) <==> Room(init, s) && LeftoverAgrees(inst.deltas, s.mem)
  {
    var own, m := init(s.engineHash), s.mem;
    if |own| <= |m| {
      LeftoverRestore(own, inst.deltas, m);
      if LeftoverAgrees(inst.deltas, m) {
        assert Stored(own, inst);
      }
    } else if Stored(own, inst) {
      RestoredIsMemory(own, inst);
    }
  }

  lemma CoveredUpToDate(init: Fresh, inst: Inst, s: Sess, tabled: seq<byte>)
    requires Covered(inst, s, tabled) && inst.meta == Some(NextMeta(s)) && IsFull(s.meta.version + 1)
    requires Restored(init(s.engineHash), inst) == s.mem
    ensures UpToDate(init(s.engineHash), inst, NextSess(s), NextTabled(s, tabled))
  {
    hide Restored, HashTable;
  }

  /** The snapshot of a later full checkpoint, written over whatever blocks there are. */
  lemma SnapshotCovers(init: Fresh, inst: Inst, saved: Option<seq<byte>>, k: Client)
    requires k.Saving? && SaverOk(init, inst, saved, k) && k.done == 1 && IsFull(k.s.meta.version + 1)
    ensures Covered(WriteOnce(inst, k.s, 1), k.s, k.tabled)
  {
    var x, before := init(k.s.meta.wasmHash), Rewound(inst, k.s);
    DeltaIndicesInside(x, before, k.s.mem);
  }

  /** A later full checkpoint that ends: its snapshot alone is stored. */
  lemma FullEnds(init: Fresh, inst: Inst, saved: Option<seq<byte>>, k: Client)
    requires FreshOk(init) && k.Saving? && SaverOk(init, inst, saved, k) && k.done == 3
    ensures var inst' := WriteOnce(inst, k.s, 3);
            && (StoreOk(init, inst', saved) <==> Room(init, k.s))
            && (Room(init, k.s) ==>
                  ClientOk(init, inst', saved, Running(NextSess(k.s), NextTabled(k.s, k.tabled), k.s.mem)))
  {
    var inst' := WriteOnce(inst, k.s, 3);
    assert Covered(inst', k.s, k.tabled);
    CoveredStoreOk(init, inst', k.s, k.tabled);
    if Room(init, k.s) {
      CoveredUpToDate(init, inst', k.s, k.tabled);
    }
  }

  /** A later full checkpoint whose truncation is dropped. */
  lemma FullEndsUntruncated(init: Fresh, inst: Inst, saved: Option<seq<byte>>, k: Client)
    requires FreshOk(init) && k.Saving? && SaverOk(init, inst, saved, k) && k.done >= 2
    ensures StoreOk(init, inst, saved) <==> StopsWell(init, inst, saved, k)
    ensures StopsWell(init, inst, saved, k) ==>
              ClientOk(init, inst, saved, Running(NextSess(k.s), NextTabled(k.s, k.tabled), k.s.mem))
  {
    CoveredStoreOk(init, inst, k.s, k.tabled);
    if StopsWell(init, inst, saved, k) {
      CoveredUpToDate(init, inst, k.s, k.tabled);
    }
  }

  /** A checkpoint with one data write that ends. */
  lemma OnlyWriteEnds(init: Fresh, inst: Inst, saved: Option<seq<byte>>, k: Client)
    requires FreshOk(init) && k.Saving? && SaverOk(init, inst, saved, k) && k.done == 1 && Writes(k.s) == 2
    ensures var inst' := WriteOnce(inst, k.s, 1);
            && (StoreOk(init, inst', Some(k.s.mem)) <==> EndsWell(init, inst, k))
            && (EndsWell(init, inst, k) ==> ClientOk(init, inst', Some(k.s.mem), Advanced(k)))
  {
    hide Stored, AfterWrites, Detects, StoreOk, WriteOnce, Restore;
    var inst', before := WriteOnce(inst, k.s, 1), Rewound(inst, k.s);
    WritesAddUp(inst, k.s);
    WriteKeepsMeta(inst, k.s, 1);
    DataStoreOk(init, inst', k.s, k.tabled, before);
    assert ExactWrite(init, inst, k) <==> EndsWell(init, inst, k);
    if EndsWell(init, inst, k) {
      OnlyWriteIsOk(init, inst, k);
    }
  }

  /** A host that dies before its data write. */
  lemma DeathBeforeData(init: Fresh, inst: Inst, saved: Option<seq<byte>>, k: Client)
    requires FreshOk(init) && k.Saving? && SaverOk(init, inst, saved, k) && k.done == 1
    ensures StoreOk(init, inst, saved) <==> StopsWell(init, inst, saved, k)
  {
    var before := Rewound(inst, k.s);
    var base := Restored(init(k.s.meta.wasmHash), before);
    SwapStoreOk(init, before, saved, Running(k.s, k.tabled, base));
  }

  // ---------------------------------------------------------------- one event at a time

  lemma SwapStartsSaving(init: Fresh, inst: Inst, saved: Option<seq<byte>>, k: Client)
    requires FreshOk(init) && StoreOk(init, inst, saved) && k.Running? && SaneClient(inst, k)
    requires ClientOk(init, inst, saved, k) && 0 <= k.s.meta.version == Version(inst)
    requires inst.meta.Some? ==> inst.meta.value.version >= 1
    ensures SaverOk(init, inst.(meta := Some(NextMeta(k.s))), saved, Saving(k.s, k.tabled, 1))
  {
    SwapperIsOk(init, inst, saved, k);
    var before := Rewound(inst, k.s);
    if inst.meta.Some? {
      SameData(init(k.s.meta.wasmHash), inst, before);
    }
  }

  /** While nobody saves, nothing but a swap can leave that state, and a swap starts a checkpoint. */
  lemma QuietStep(init: Fresh, sys: System, e: Event)
    requires FreshOk(init) && Calm(init, sys) && Sane(sys) && SaversAlone(sys) && ReadersCurrent(sys)
    requires Enabled(sys, e) && NobodySaves(sys)
    ensures GoodEvent(init, sys, e) && Calm(init, Next(init, sys, e))
  {
    hide ReadersCurrent, StoreOk, Sane;
    NextNumbered(init, sys, e);
    forall c | c in sys.clients ensures !sys.clients[c].Saving? {
      assert sys.clients[c].Saving? ==> Alone(sys, c);
    }
    if e.Swap? {
      LosingIsBeingBehind(sys, e.c);
    }
    if e.Swap? && Holds(sys, e.c) {
      QuietSwap(init, sys, e.c);
    } else {
      hide Linear, Next;
      NextLinearIff(init, sys, e);
      AloneSafeIff(init, sys, e);
      NobodyStartsSaving(init, sys, e);
    }
  }

  lemma NobodyStartsSaving(init: Fresh, sys: System, e: Event)
    requires Enabled(sys, e) && !(e.Swap? && CasAllowed(sys.inst.meta, sys.clients[e.c].s.meta.version))
    requires forall c | c in sys.clients :: !sys.clients[c].Saving?
    ensures forall c | c in Next(init, sys, e).clients :: !Next(init, sys, e).clients[c].Saving?
  {
  }

  lemma QuietSwap(init: Fresh, sys: System, c: nat)
    requires FreshOk(init) && Linear(init, sys) && Sane(sys) && Enabled(sys, Swap(c)) && Holds(sys, c)
    requires Numbered(Next(init, sys, Swap(c)))
    ensures Calm(init, Next(init, sys, Swap(c)))
  {
    var sys', k := Next(init, sys, Swap(c)), sys.clients[c];
    LosingIsBeingBehind(sys, c);
    assert ClientNumbered(sys, c) && SaneClient(sys.inst, k) && ClientOk(init, sys.inst, sys.saved, k);
    SwapStartsSaving(init, sys.inst, sys.saved, k);
    forall b ensures Holds(sys', b) <==> b == c {
      SwapLeavesOneHolder(init, sys, c, b);
    }
    hide StoreOk, ClientOk, SaverOk, Sane, Linear;
    assert sys'.clients[c].Saving? && Holds(sys', c);
  }

  /** The one session that is saving. */
  ghost predicate Saver(sys: System, c: nat) {
    Holds(sys, c) && sys.clients[c].Saving? && forall b | Holds(sys, b) :: b == c
  }

  lemma SavingIsHolding(sys: System, b: nat)
    requires SaversAlone(sys) && b in sys.clients && sys.clients[b].Saving?
    ensures Holds(sys, b)
  {
    assert Alone(sys, b);
  }

  lemma NoOtherSaves(sys: System, c: nat, b: nat)
    requires SaversAlone(sys) && Saver(sys, c) && b in sys.clients && b != c
    ensures !sys.clients[b].Saving?
  {
    hide SaversAlone;
    if sys.clients[b].Saving? {
      SavingIsHolding(sys, b);
    }
  }

  /** Whatever sessions do that have been overtaken, the checkpoint goes on. */
  lemma BystanderStep(init: Fresh, sys: System, e: Event, c: nat)
    requires Calm(init, sys) && SaversAlone(sys) && Saver(sys, c) && Enabled(sys, e) && !e.Open? && e.c != c
    ensures GoodEvent(init, sys, e) && Calm(init, Next(init, sys, e))
  {
    hide Restored, OpenTable, OpenTabled, SaverOk, Linear, Dirty, Truncated;
    NextNumbered(init, sys, e);
    var sys' := Next(init, sys, e);
    NoOtherSaves(sys, c, e.c);
    if e.Swap? {
      LosingIsBeingBehind(sys, e.c);
    }
    forall b ensures Holds(sys', b) <==> b == c {
      HoldersElsewise(init, sys, e, b);
    }
    assert sys'.clients[c] == sys.clients[c] && sys'.inst == sys.inst && sys'.saved == sys.saved;
  }

  /** The checkpoint is over: the history is linear if and only if the store and its session are in order. */
  lemma Over(init: Fresh, sys: System, sys': System, c: nat)
    requires Saver(sys, c) && Numbered(sys') && c in sys'.clients && !sys'.clients[c].Saving?
    requires forall b | b != c :: Holds(sys', b) <==> Holds(sys, b)
    ensures Calm(init, sys') <==> Linear(init, sys')
    ensures NobodySaves(sys')
    ensures Linear(init, sys') <==>
            && StoreOk(init, sys'.inst, sys'.saved)
            && (Holds(sys', c) ==> ClientOk(init, sys'.inst, sys'.saved, sys'.clients[c]))
  {
    hide StoreOk, ClientOk, SaverOk, Numbered;
  }

  lemma SaverDies(init: Fresh, sys: System, c: nat)
    requires FreshOk(init) && Calm(init, sys) && Saver(sys, c) && Sane(sys)
    ensures var sys' := Next(init, sys, Die(c));
            && (Calm(init, sys') <==> GoodEvent(init, sys, Die(c)))
            && (!Calm(init, sys') ==> NobodySaves(sys') && !Linear(init, sys'))
  {
    var sys', k := Next(init, sys, Die(c)), sys.clients[c];
    NextNumbered(init, sys, Die(c));
    assert SaneClient(sys.inst, k) && SaverOk(init, sys.inst, sys.saved, k);
    Over(init, sys, sys', c);
    hide StoreOk, SaverOk, Linear, Numbered, Sane, StopsWell;
    if k.done == 1 {
      DeathBeforeData(init, sys.inst, sys.saved, k);
    } else {
      FullEndsUntruncated(init, sys.inst, sys.saved, k);
    }
  }

  /** A dropped truncation: of the oplog, which nobody sees, or of the blocks, which ends the checkpoint. */
  lemma SaverDrops(init: Fresh, sys: System, c: nat)
    requires FreshOk(init) && Calm(init, sys) && Saver(sys, c) && Sane(sys) && Enabled(sys, Drop(c))
    ensures var sys' := Next(init, sys, Drop(c));
            && (Calm(init, sys') <==> GoodEvent(init, sys, Drop(c)))
            && (!Calm(init, sys') ==> NobodySaves(sys') && !Linear(init, sys'))
  {
    var sys', k := Next(init, sys, Drop(c)), sys.clients[c];
    NextNumbered(init, sys, Drop(c));
    assert SaneClient(sys.inst, k) && SaverOk(init, sys.inst, sys.saved, k);
    if k.done == 3 {
      Over(init, sys, sys', c);
      hide StoreOk, SaverOk, Linear, Numbered, Sane, StopsWell, ClientOk;
      FullEndsUntruncated(init, sys.inst, sys.saved, k);
    } else {
      forall b ensures Holds(sys', b) <==> Holds(sys, b) {
        HoldersElsewise(init, sys, Drop(c), b);
      }
      hide Linear, Numbered, Sane, Covered;
      assert SaverOk(init, sys'.inst, sys'.saved, sys'.clients[c]);
    }
  }

  /** A write of the checkpoint: its last, or one more. */
  lemma SaverWrites(init: Fresh, sys: System, c: nat)
    requires FreshOk(init) && Calm(init, sys) && Saver(sys, c) && Sane(sys)
    ensures var sys' := Next(init, sys, Write(c));
            && (Calm(init, sys') <==> GoodEvent(init, sys, Write(c)))
            && (!Calm(init, sys') ==> NobodySaves(sys') && !Linear(init, sys'))
  {
    var sys', k := Next(init, sys, Write(c)), sys.clients[c];
    NextNumbered(init, sys, Write(c));
    HoldersAfterWrite(init, sys, Write(c));
    WriteKeepsMeta(sys.inst, k.s, k.done);
    assert SaneClient(sys.inst, k) && SaverOk(init, sys.inst, sys.saved, k);
    if k.done + 1 == Writes(k.s) {
      Over(init, sys, sys', c);
      hide StoreOk, SaverOk, Linear, Numbered, Sane, ClientOk, WriteOnce, Restored, Detects;
      if k.done == 1 {
        OnlyWriteEnds(init, sys.inst, sys.saved, k);
      } else {
        FullEnds(init, sys.inst, sys.saved, k);
        assert EndsWell(init, sys.inst, k) <==> Room(init, k.s);
      }
    } else {
      hide Linear, Numbered, Sane;
      if k.done == 1 {
        SnapshotCovers(init, sys.inst, sys.saved, k);
      }
      assert SaverOk(init, sys'.inst, sys'.saved, sys'.clients[c]);
      assert forall b :: Holds(sys', b) <==> b == c;
    }
  }

  /** One event of a run in which nobody opens into a checkpoint. */
  lemma NextCalmIff(init: Fresh, sys: System, e: Event)
    requires FreshOk(init) && Calm(init, sys) && Sane(sys) && SaversAlone(sys) && ReadersCurrent(sys)
    requires Enabled(sys, e) && (e.Open? ==> NobodySaves(sys))
    ensures var sys' := Next(init, sys, e);
            && (GoodEvent(init, sys, e) ==> Calm(init, sys'))
            && (!GoodEvent(init, sys, e) ==> NobodySaves(sys') && !Linear(init, sys'))
  {
    hide Calm, GoodEvent, Linear, Next, Sane, ReadersCurrent;
    if NobodySaves(sys) {
      QuietStep(init, sys, e);
    } else {
      var c :| Holds(sys, c) && sys.clients[c].Saving?;
      assert Alone(sys, c);
      if e.c != c {
        BystanderStep(init, sys, e, c);
      } else {
        match e
        case Write(_) => SaverWrites(init, sys, c);
        case Drop(_) => SaverDrops(init, sys, c);
        case Die(_) => SaverDies(init, sys, c);
      }
    }
  }

  // ---------------------------------------------------------------- whole runs

  /**
   One linear history with checkpoints as if they were atomic. In every run in which nobody opens
   while a session with the newest version is saving, the history is linear whenever nobody saves, if
   and only if
   - every checkpoint that ends leaves room for its memory, and if incremental detects every change;
   - every checkpoint that stops for good, because its host dies or its truncation fails, stops before
     its data, with room for what is saved, or with room and only blocks that its snapshot has.
   */
  lemma {:induction false} LinearWhenQuietIff(init: Fresh, events: seq<Event>)
    requires FreshOk(init) && Exec(init, events).Some? && Considerate(init, events)
    ensures LinearWhenQuiet(init, events) <==> GoodRun(init, events)
    ensures GoodRun(init, events) ==> Calm(init, Exec(init, events).value)
  {
    if events == [] {
      assert Linear(init, START);
    } else {
      var before, e := events[..|events| - 1], events[|events| - 1];
      var sys := Exec(init, before).value;
      LinearWhenQuietIff(init, before);
      RunIsSane(init, before);
      ConsiderateIsAlone(init, before);
      CalmMeans(init, Exec(init, events).value);
      hide Calm, Linear, Next, Sane, SaversAlone, ReadersCurrent, GoodEvent, NobodySaves;
      if GoodRun(init, before) {
        NextCalmIff(init, sys, e);
      }
    }
  }

  lemma CalmMeans(init: Fresh, sys: System)
    ensures Calm(init, sys) && NobodySaves(sys) ==> Linear(init, sys)
  {
  }
}
