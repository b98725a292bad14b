/** Whole sessions: every checkpoint of a session against the history of its live memory. */
module History {
  import opened Bytes
  import opened Fnv
  import opened Blocks
  import opened Protocol
  import opened Exactness

  /** Linear memory never shrinks and is never empty when it is saved. */
  predicate Growing(size: nat, mems: seq<seq<byte>>)
    decreases |mems|
  {
    mems == [] ||
    (&& IsMemory(mems[0]) && size <= |mems[0]| && 0 < |mems[0]|
     && Growing(|mems[0]|, mems[1..]))
  }

  /** The store after a session took a checkpoint at each memory of `mems`. */
  function Play(inst: Inst, s: Sess, mems: seq<seq<byte>>): Inst
    decreases |mems|
  {
    if mems == [] then inst
    else
      var s0 := s.(mem := mems[0]);
      Play(Checkpointed(inst, s0), NextSess(s0), mems[1..])
  }

  /** After every single checkpoint the store restores the memory that was live at it. */
  ghost predicate AllExact(init: seq<byte>, inst: Inst, s: Sess, mems: seq<seq<byte>>)
    decreases |mems|
  {
    mems == [] ||
    (var s0 := s.(mem := mems[0]);
     && Restored(init, Checkpointed(inst, s0)) == mems[0]
     && AllExact(init, Checkpointed(inst, s0), NextSess(s0), mems[1..]))
  }

  /**
   The condition on the memory history alone. `tabled` is the memory of the last incremental
   checkpoint (or of the restore), `saved` that of the last checkpoint: they differ exactly when
   the last checkpoint was a full one.
   */
  predicate HistoryDetects(version: int, tabled: seq<byte>, saved: seq<byte>, mems: seq<seq<byte>>)
    requires |tabled| <= |saved| && Growing(|saved|, mems)
    decreases |mems|
  {
    mems == [] ||
    (var full := IsFull(version + 1);
     && (full || Detects(tabled, saved, mems[0]))
     && HistoryDetects(version + 1, if full then tabled else mems[0], mems[0], mems[1..]))
  }

  /** The first checkpoint of a session, and the rest. */
  lemma SessionUnfolds(init: seq<byte>, inst: Inst, s: Sess, version: int, tabled: seq<byte>, saved: seq<byte>,
                       mems: seq<seq<byte>>)
    requires mems != [] && |tabled| <= |saved| && Growing(|saved|, mems)
    ensures IsMemory(mems[0]) && |saved| <= |mems[0]| && 0 < |mems[0]| && Growing(|mems[0]|, mems[1..])
    ensures var s0, full := s.(mem := mems[0]), IsFull(version + 1);
            var inst', s' := Checkpointed(inst, s0), NextSess(s0);
            && (AllExact(init, inst, s, mems) <==>
                  Restored(init, inst') == mems[0] && AllExact(init, inst', s', mems[1..]))
            && (HistoryDetects(version, tabled, saved, mems) <==>
                  && (full || Detects(tabled, saved, mems[0]))
                  && HistoryDetects(version + 1, if full then tabled else mems[0], mems[0], mems[1..]))
  {
    hide Restored, AfterWrites, IsFull, Detects, HashTable;
  }

  lemma NoCheckpoints(init: seq<byte>, inst: Inst, s: Sess, version: int, tabled: seq<byte>, saved: seq<byte>)
    requires |tabled| <= |saved|
    ensures Growing(|saved|, []) && AllExact(init, inst, s, []) && HistoryDetects(version, tabled, saved, [])
  {
  }

  /** A session restores exactly after every one of its checkpoints iff its history is free of misses. */
  lemma {:induction false} SessionExactIff(init: seq<byte>, inst: Inst, s: Sess, tabled: seq<byte>,
                                           mems: seq<seq<byte>>)
    requires Stored(init, inst) && UpToDate(init, inst, s, tabled)
    requires Growing(|Restored(init, inst)|, mems)
    ensures AllExact(init, inst, s, mems) <==> HistoryDetects(Version(inst), tabled, Restored(init, inst), mems)
    decreases |mems|
  {
    hide AfterWrites, Restored, Stored, AllExact, HistoryDetects, Growing, Detects, LeftoverAgrees, HashTable;
    if mems == [] {
      NoCheckpoints(init, inst, s, Version(inst), tabled, Restored(init, inst));
    } else {
      var s0 := s.(mem := mems[0]);
      SessionUnfolds(init, inst, s, Version(inst), tabled, Restored(init, inst), mems);
      CheckpointStep(init, inst, s0, tabled);
      if Restored(init, Checkpointed(inst, s0)) == mems[0] {
        SessionExactIff(init, Checkpointed(inst, s0), NextSess(s0), NextTabled(s0, tabled), mems[1..]);
      }
    }
  }

  /** The store that a session leaves is in order for the next one, exact or not, and counts its checkpoints. */
  lemma {:induction false} SessionEnds(init: seq<byte>, inst: Inst, s: Sess, tabled: seq<byte>, mems: seq<seq<byte>>)
    requires Stored(init, inst) && UpToDate(init, inst, s, tabled)
    requires Growing(|Restored(init, inst)|, mems)
    ensures Stored(init, Play(inst, s, mems))
    ensures Version(Play(inst, s, mems)) == Version(inst) + |mems|
    ensures mems != [] ==> !NothingSaved(Play(inst, s, mems))
    ensures !NothingSaved(inst) ==> !NothingSaved(Play(inst, s, mems))
    ensures inst.snapshot.Some? || (mems != [] && Version(inst) == 0) ==> Play(inst, s, mems).snapshot.Some?
    decreases |mems|
  {
    if mems != [] {
      hide AfterWrites, Restore;
      var s0 := s.(mem := mems[0]);
      CheckpointStep(init, inst, s0, tabled);
      SessionEnds(init, Checkpointed(inst, s0), NextSess(s0), NextTabled(s0, tabled), mems[1..]);
    }
  }

  function Last(saved: seq<byte>, mems: seq<seq<byte>>): seq<byte> {
    if mems == [] then saved else mems[|mems| - 1]
  }

  /** A session without misses leaves its last memory stored. */
  lemma {:induction false} SessionExactEnds(init: seq<byte>, inst: Inst, s: Sess, tabled: seq<byte>,
                                            mems: seq<seq<byte>>)
    requires Stored(init, inst) && UpToDate(init, inst, s, tabled)
    requires Growing(|Restored(init, inst)|, mems)
    requires HistoryDetects(Version(inst), tabled, Restored(init, inst), mems)
    ensures Restored(init, Play(inst, s, mems)) == Last(Restored(init, inst), mems)
    decreases |mems|
  {
    if mems != [] {
      hide AfterWrites, Restore;
      var s0 := s.(mem := mems[0]);
      CheckpointStep(init, inst, s0, tabled);
      SessionExactEnds(init, Checkpointed(inst, s0), NextSess(s0), NextTabled(s0, tabled), mems[1..]);
    }
  }

  // ---------------------------------------------------------------- the lifetime of an instance

  /** The store after session upon session, each opened on what the one before left. */
  ghost function Lifetime(init: seq<byte>, inst: Inst, id: string, hash: string, sessions: seq<seq<seq<byte>>>): Inst
    decreases |sessions|
  {
    if sessions == [] then inst
    else Lifetime(init, Play(inst, Opened(init, inst, id, hash), sessions[0]), id, hash, sessions[1..])
  }

  /** Every checkpoint of every session restores the memory that was live at it. */
  ghost predicate LifetimeExact(init: seq<byte>, inst: Inst, id: string, hash: string, sessions: seq<seq<seq<byte>>>)
    decreases |sessions|
  {
    sessions == [] ||
    (var s := Opened(init, inst, id, hash);
     && AllExact(init, inst, s, sessions[0])
     && LifetimeExact(init, Play(inst, s, sessions[0]), id, hash, sessions[1..]))
  }

  /** Every session goes on from the last memory of the one before, and memory never shrinks. */
  predicate LifetimeGrowing(saved: seq<byte>, sessions: seq<seq<seq<byte>>>)
    decreases |sessions|
  {
    sessions == [] ||
    (Growing(|saved|, sessions[0]) && LifetimeGrowing(Last(saved, sessions[0]), sessions[1..]))
  }

  /** No session has a miss; a session's table starts with the memory that it restores, if one was ever saved. */
  predicate LifetimeDetects(version: int, unsaved: bool, saved: seq<byte>, sessions: seq<seq<seq<byte>>>)
    requires LifetimeGrowing(saved, sessions)
    decreases |sessions|
  {
    sessions == [] ||
    (&& HistoryDetects(version, if unsaved then [] else saved, saved, sessions[0])
     && LifetimeDetects(version + |sessions[0]|, unsaved && sessions[0] == [], Last(saved, sessions[0]), sessions[1..]))
  }

  /**
   Over the whole lifetime of an instance, any number of sessions, every checkpoint is exact if and
   only if the history of memories is free of misses.
   */
  lemma {:induction false} LifetimeExactIff(init: seq<byte>, inst: Inst, id: string, hash: string,
                                            sessions: seq<seq<seq<byte>>>)
    requires Stored(init, inst) && LifetimeGrowing(Restored(init, inst), sessions)
    ensures LifetimeExact(init, inst, id, hash, sessions) <==>
            LifetimeDetects(Version(inst), NothingSaved(inst), Restored(init, inst), sessions)
    decreases |sessions|
  {
    hide Opened, Growing, HistoryDetects, AllExact, Play, Stored, Restored, NothingSaved, Last, Version, IsMemory;
    hide LifetimeExact, LifetimeDetects, LifetimeGrowing;
    if sessions == [] {
      NoSessions(init, inst, id, hash);
    } else {
      var s, mems := Opened(init, inst, id, hash), sessions[0];
      LifetimeUnfolds(init, inst, id, hash, sessions);
      OneSession(init, inst, id, hash, mems);
      if AllExact(init, inst, s, mems) {
        LifetimeExactIff(init, Play(inst, s, mems), id, hash, sessions[1..]);
      }
    }
  }

  lemma NoSessions(init: seq<byte>, inst: Inst, id: string, hash: string)
    ensures LifetimeExact(init, inst, id, hash, [])
    ensures LifetimeGrowing(Restored(init, inst), [])
    ensures LifetimeDetects(Version(inst), NothingSaved(inst), Restored(init, inst), [])
  {
    hide Restored;
  }

  /** The first session of a lifetime, and the rest. */
  lemma LifetimeUnfolds(init: seq<byte>, inst: Inst, id: string, hash: string, sessions: seq<seq<seq<byte>>>)
    requires sessions != [] && LifetimeGrowing(Restored(init, inst), sessions)
    ensures var s, mems, saved := Opened(init, inst, id, hash), sessions[0], Restored(init, inst);
            var unsaved := NothingSaved(inst);
            && Growing(|saved|, mems) && LifetimeGrowing(Last(saved, mems), sessions[1..])
            && (LifetimeExact(init, inst, id, hash, sessions) <==>
                  AllExact(init, inst, s, mems) && LifetimeExact(init, Play(inst, s, mems), id, hash, sessions[1..]))
            && (LifetimeDetects(Version(inst), unsaved, saved, sessions) <==>
                  && HistoryDetects(Version(inst), if unsaved then [] else saved, saved, mems)
                  && LifetimeDetects(Version(inst) + |mems|, unsaved && mems == [], Last(saved, mems), sessions[1..]))
  {
    hide Opened, Growing, HistoryDetects, AllExact, Play, Restored, NothingSaved, Last;
  }

  /** One session of that lifetime. */
  lemma OneSession(init: seq<byte>, inst: Inst, id: string, hash: string, mems: seq<seq<byte>>)
    requires Stored(init, inst) && Growing(|Restored(init, inst)|, mems)
    ensures var s, saved := Opened(init, inst, id, hash), Restored(init, inst);
            var inst' := Play(inst, s, mems);
            && (AllExact(init, inst, s, mems) <==>
                  HistoryDetects(Version(inst), if NothingSaved(inst) then [] else saved, saved, mems))
            && Stored(init, inst') && Version(inst') == Version(inst) + |mems|
            && (NothingSaved(inst') <==> NothingSaved(inst) && mems == [])
            && (AllExact(init, inst, s, mems) ==> Restored(init, inst') == Last(saved, mems))
  {
    hide AfterWrites, Restore, OpenTable, Growing, HistoryDetects, AllExact, Play, Stored, UpToDate;
    var s, tabled := Opened(init, inst, id, hash), OpenTabled(init, inst);
    OpenedIsUpToDate(init, inst, id, hash);
    UpToDateLength(init, inst, s, tabled);
    SessionExactIff(init, inst, s, tabled, mems);
    SessionEnds(init, inst, s, tabled, mems);
    PlayNothing(inst, s);
    if HistoryDetects(Version(inst), tabled, Restored(init, inst), mems) {
      SessionExactEnds(init, inst, s, tabled, mems);
    }
  }

  lemma UpToDateLength(init: seq<byte>, inst: Inst, s: Sess, tabled: seq<byte>)
    requires UpToDate(init, inst, s, tabled)
    ensures |tabled| <= |Restored(init, inst)|
  {
  }

  lemma PlayNothing(inst: Inst, s: Sess)
    ensures Play(inst, s, []) == inst
  {
  }

  // ---------------------------------------------------------------- the stale table

  /** One byte changed per block, at most, is always detected. */
  lemma OneBytePerBlockIsDetected(a: seq<byte>, m: seq<byte>)
    requires |a| <= |m|
    requires forall i | 0 <= i < NumBlocks(a) ::
               Block(a, i) == Block(m, i) || exists p :: DifferOnlyAt(Block(a, i), Block(m, i), p)
    ensures NoCollision(a, m)
  {
    forall i | 0 <= i < NumBlocks(a) && Block(a, i) != Block(m, i)
      ensures Sum64(Block(a, i)) != Sum64(Block(m, i))
    {
      var p :| DifferOnlyAt(Block(a, i), Block(m, i), p);
      OneByteChangeIsDetected(Block(a, i), Block(m, i), p);
    }
  }

  /** The first of the two checkpoints: the full one saves `b` and leaves the table as it was. */
  lemma FullLeavesTable(init: seq<byte>, inst: Inst, s: Sess, a: seq<byte>, b: seq<byte>)
    requires Stored(init, inst) && UpToDate(init, inst, s, a)
    requires |Restored(init, inst)| <= |b| && 0 < |b| && IsMemory(b)
    requires IsFull(Version(inst) + 1)
    ensures var sb := s.(mem := b);
            && Restored(init, Checkpointed(inst, sb)) == b
            && NextSess(sb).table == HashTable(a)
            && NextSess(sb).meta.version == Version(inst) + 1
  {
    hide HashTable, Restore, AfterWrites, Stored, StopIsSafe;
    var sb := s.(mem := b);
    FullCheckpointExact(init, inst, sb, a);
  }

  /** The second: against that table nothing of `a` is dirty, so the incremental one saves nothing. */
  lemma NothingIsSaved(inst: Inst, s: Sess, a: seq<byte>)
    requires s.mem == a && s.table == HashTable(a) && !IsFull(s.meta.version + 1)
    ensures Checkpointed(inst, s).deltas == inst.deltas && Checkpointed(inst, s).snapshot == inst.snapshot
  {
    NothingIsDirty(a);
    assert inst.deltas + map[] == inst.deltas;
  }

  lemma NothingIsDirty(a: seq<byte>)
    ensures Dirty(HashTable(a), a) == map[]
  {
  }

  lemma PlayTwo(init: seq<byte>, inst: Inst, s: Sess, b: seq<byte>, a: seq<byte>)
    ensures var inst1, s1 := Checkpointed(inst, s.(mem := b)), NextSess(s.(mem := b));
            var inst2 := Checkpointed(inst1, s1.(mem := a));
            && Play(inst, s, [b, a]) == inst2
            && (AllExact(init, inst, s, [b, a]) ==> Restored(init, inst2) == a)
  {
    hide Restore, AfterWrites;
    var inst1, s1 := Checkpointed(inst, s.(mem := b)), NextSess(s.(mem := b));
    assert [b, a][1..] == [a] && [a][1..] == [];
    assert Play(inst1, s1, [a]) == Checkpointed(inst1, s1.(mem := a));
    assert AllExact(init, inst1, s1, [a]) ==> Restored(init, Checkpointed(inst1, s1.(mem := a))) == a;
  }

  /**
   A change undone across a full snapshot is lost. Whenever a session whose table describes the
   saved memory `a` takes a full checkpoint at `b` and then an incremental one back at `a`,
   the store goes on restoring `b`.
   */
  lemma StaleTableLosesChange(init: seq<byte>, inst: Inst, s: Sess, a: seq<byte>, b: seq<byte>)
    requires Stored(init, inst) && UpToDate(init, inst, s, a) && Restored(init, inst) == a
    requires |a| == |b| > 0 && IsMemory(b) && a != b
    requires Version(inst) > 0 && IsFull(Version(inst) + 1)
    ensures Restored(init, Play(inst, s, [b, a])) == b
    ensures !AllExact(init, inst, s, [b, a])
  {
    hide Stored, UpToDate, Restore, AfterWrites, HashTable, Play, AllExact;
    var sb := s.(mem := b);
    FullLeavesTable(init, inst, s, a, b);
    NothingIsSaved(Checkpointed(inst, sb), NextSess(sb).(mem := a), a);
    PlayTwo(init, inst, s, b, a);
  }

  lemma {:induction false} QuietHistory(version: int, tabled: seq<byte>, a: seq<byte>, mems: seq<seq<byte>>)
    requires forall k | 0 <= k < |mems| :: mems[k] == a
    requires IsMemory(a) && 0 < |a| && (tabled == [] || tabled == a)
    ensures Growing(|a|, mems) && HistoryDetects(version, tabled, a, mems)
    decreases |mems|
  {
    if mems != [] {
      QuietHistory(version + 1, if IsFull(version + 1) then tabled else a, a, mems[1..]);
    }
  }

  lemma QuietSession(init: seq<byte>, id: string, hash: string, a: seq<byte>, mems: seq<seq<byte>>)
    requires IsMemory(init) && IsMemory(a) && |init| <= |a| && 0 < |a|
    requires mems != [] && forall k | 0 <= k < |mems| :: mems[k] == a
    ensures var inst := Play(EMPTY, Opened(init, EMPTY, id, hash), mems);
            Stored(init, inst) && Restored(init, inst) == a && Version(inst) == |mems| && inst.snapshot.Some?
  {
    OpenedIsUpToDate(init, EMPTY, id, hash);
    QuietHistory(1, [], a, mems[1..]);
    SessionEnds(init, EMPTY, Opened(init, EMPTY, id, hash), [], mems);
    SessionExactEnds(init, EMPTY, Opened(init, EMPTY, id, hash), [], mems);
  }

  lemma RestartThenStale(init: seq<byte>, inst: Inst, id: string, hash: string, a: seq<byte>, b: seq<byte>)
    requires Stored(init, inst) && Restored(init, inst) == a && Version(inst) == 4 && inst.snapshot.Some?
    requires |a| == |b| > 0 && IsMemory(b) && a != b
    ensures Restored(init, Play(inst, Opened(init, inst, id, hash), [b, a])) == b
  {
    hide Stored, UpToDate, Restore, AllExact, Play, OpenTable, HashTable;
    var s := Opened(init, inst, id, hash);
    OpenedIsUpToDate(init, inst, id, hash);
    assert OpenTabled(init, inst) == a;
    StaleTableLosesChange(init, inst, s, a, b);
  }

  /** Such a session exists for every pair of memories: four quiet checkpoints, a restart, two more. */
  lemma StaleTableIsReachable(init: seq<byte>, id: string, hash: string, a: seq<byte>, b: seq<byte>,
                              quiet: seq<seq<byte>>)
    requires IsMemory(init) && IsMemory(a) && IsMemory(b)
    requires |init| <= |a| == |b| && 0 < |a| && a != b
    requires |quiet| == 4 && forall k | 0 <= k < 4 :: quiet[k] == a
    ensures var inst := Play(EMPTY, Opened(init, EMPTY, id, hash), quiet);
            && Restored(init, inst) == a
            && Restored(init, Play(inst, Opened(init, inst, id, hash), [b, a])) == b
  {
    QuietSession(init, id, hash, a, quiet);
    RestartThenStale(init, Play(EMPTY, Opened(init, EMPTY, id, hash), quiet), id, hash, a, b);
  }
}
