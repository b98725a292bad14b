/** Checkpoints against "save all the memory": when a checkpoint restores exactly, for every crash point. */
module Exactness {
  import opened Bytes
  import opened Fnv
  import opened Blocks
  import opened Protocol

  // ---------------------------------------------------------------- restoring block by block

  lemma GrownByte(m: seq<byte>, n: nat, k: nat)
    requires k < |Grown(m, n)|
    ensures Grown(m, n)[k] == if k < |m| then m[k] else 0
  {
  }

  lemma MaxOfUnion(s: set<int>, t: set<int>)
    ensures MaxIndex(s + t) == if MaxIndex(s) > MaxIndex(t) then MaxIndex(s) else MaxIndex(t)
  {
  }

  /** Length and bytes of a restored memory, in terms of its base. */
  lemma RestoreLength(base: seq<byte>, init: seq<byte>, snapshot: Option<seq<byte>>, d: BlockMap)
    requires base == Rebase(init, snapshot)
    ensures |Restore(init, snapshot, d)| == if d == map[] then |base| else |Grown(base, Span(d))|
  {
  }

  lemma RestoreByte(base: seq<byte>, init: seq<byte>, snapshot: Option<seq<byte>>, d: BlockMap, k: nat)
    requires base == Rebase(init, snapshot) && FullBlocks(d)
    requires k < |Restore(init, snapshot, d)|
    ensures Restore(init, snapshot, d)[k] ==
            var i := k / 4096;
            if i in d then d[i][k - i * 4096] else if k < |base| then base[k] else 0
  {
    if d != map[] {
      GrownByte(base, Span(d), k);
    }
  }

  lemma SpanOfMore(d: BlockMap, e: BlockMap)
    ensures Span(d + e) == if Span(d) > Span(e) then Span(d) else Span(e)
  {
    assert (d + e).Keys == d.Keys + e.Keys;
    MaxOfUnion(d.Keys, e.Keys);
  }

  lemma MoreIsNonempty(d: BlockMap, e: BlockMap)
    requires e != map[]
    ensures d + e != map[]
  {
    assert (d + e).Keys == d.Keys + e.Keys;
    assert e.Keys != {};
  }

  lemma MoreBlocksLength(init: seq<byte>, snapshot: Option<seq<byte>>, d: BlockMap, e: BlockMap)
    requires e != map[]
    ensures |Restore(init, snapshot, d + e)| == |Grown(Restore(init, snapshot, d), Span(e))|
  {
    var base := Rebase(init, snapshot);
    SpanOfMore(d, e);
    MoreIsNonempty(d, e);
    RestoreLength(base, init, snapshot, d);
    RestoreLength(base, init, snapshot, d + e);
    if d != map[] {
      GrowingTwice(base, Span(d), Span(e));
    } else {
      assert d + e == e;
    }
  }

  lemma GrowingTwice(m: seq<byte>, a: nat, b: nat)
    ensures |Grown(m, if a > b then a else b)| ==
            if |Grown(m, a)| > Pages(b) * 65536 then |Grown(m, a)| else Pages(b) * 65536
  {
    PagesMonotone(a, b);
    PagesMonotone(b, a);
  }

  lemma PagesMonotone(a: nat, b: nat)
    ensures a <= b ==> Pages(a) <= Pages(b)
  {
  }

  /** Saving more blocks is the same as restoring and then overlaying them. */
  lemma RestoreAfterMoreBlocks(init: seq<byte>, snapshot: Option<seq<byte>>, d: BlockMap, e: BlockMap)
    requires FullBlocks(d) && FullBlocks(e) && e != map[]
    ensures Restore(init, snapshot, d + e) == Overlay(Grown(Restore(init, snapshot, d), Span(e)), e)
  {
    var base := Rebase(init, snapshot);
    var r := Restore(init, snapshot, d);
    var left := Restore(init, snapshot, d + e);
    var right := Overlay(Grown(r, Span(e)), e);
    MoreBlocksLength(init, snapshot, d, e);
    forall k | 0 <= k < |left| ensures left[k] == right[k] {
      MoreBlocksByte(init, snapshot, d, e, k);
    }
  }

  lemma MoreBlocksByte(init: seq<byte>, snapshot: Option<seq<byte>>, d: BlockMap, e: BlockMap, k: nat)
    requires FullBlocks(d) && FullBlocks(e) && e != map[]
    requires k < |Restore(init, snapshot, d + e)|
    requires k < |Grown(Restore(init, snapshot, d), Span(e))|
    ensures Restore(init, snapshot, d + e)[k] == OverlaidByte(Grown(Restore(init, snapshot, d), Span(e)), e, k)
  {
    var base := Rebase(init, snapshot);
    var r := Restore(init, snapshot, d);
    var i := k / 4096;
    RestoreByte(base, init, snapshot, d + e, k);
    GrownByte(r, Span(e), k);
    RestoreLength(base, init, snapshot, d);
    if i !in e {
      if k < |r| {
        RestoreByte(base, init, snapshot, d, k);
      } else if i in d {
        SpanCovers(d, i);
      }
    }
  }

  // ---------------------------------------------------------------- what every stored instance satisfies

  function SnapshotBlocks(inst: Inst): nat {
    if inst.snapshot.Some? then NumBlocks(inst.snapshot.value) else 0
  }

  /**
   The invariant of the store. `init` is the memory of a freshly instantiated module. Memory never
   shrinks, so a snapshot alone is at least that long, and if there are saved blocks then every
   block beyond the snapshot is one of them.
   */
  ghost predicate Stored(init: seq<byte>, inst: Inst) {
    && IsMemory(init)
    && FullBlocks(inst.deltas)
    && (inst.snapshot.Some? ==>
          && 0 < |inst.snapshot.value|
          && (inst.deltas == map[] ==> |init| <= |inst.snapshot.value|)
          && IsMemory(inst.snapshot.value))
    && (inst.meta.None? ==> inst.snapshot.None? && inst.deltas == map[])
    && (inst.meta.Some? ==> inst.meta.value.version >= 1)
    && (inst.deltas != map[] ==>
          forall i | SnapshotBlocks(inst) <= i < NumBlocks(Restored(init, inst)) :: i in inst.deltas)
  }

  lemma RestoredIsMemory(init: seq<byte>, inst: Inst)
    requires Stored(init, inst)
    ensures IsMemory(Restored(init, inst))
    ensures |init| <= |Restored(init, inst)|
    ensures inst.snapshot.Some? && inst.deltas == map[] ==> Rebase(init, inst.snapshot) == inst.snapshot.value
  {
    if inst.snapshot.Some? && inst.deltas == map[] {
      var s := inst.snapshot.value;
      assert Grown(init, |s|)[|s|..] == [];
    }
  }

  /** On a stored instance the compare-and-swap succeeds exactly for the current version. */
  lemma CasIsVersionMatch(init: seq<byte>, inst: Inst, version: nat)
    requires Stored(init, inst)
    ensures CasAllowed(inst.meta, version) <==> version == Version(inst)
  {
  }

  predicate NothingSaved(inst: Inst) {
    inst.snapshot.None? && inst.deltas == map[]
  }

  /** Once something is saved, the length of what is restored comes from the store alone. */
  lemma SavedLength(a: seq<byte>, b: seq<byte>, inst: Inst)
    requires Stored(a, inst) && !NothingSaved(inst) && |b| <= |Restored(a, inst)| && IsMemory(b)
    ensures |Restored(b, inst)| == |Restored(a, inst)|
  {
    RestoredIsMemory(a, inst);
    var d, r := inst.deltas, Restored(a, inst);
    RebaseLength(a, inst.snapshot);
    RebaseLength(b, inst.snapshot);
    if d != map[] {
      WholeBlocks(r);
      PageRounding(Span(d), |r|);
      if |r| > SnapshotBlocks(inst) * 4096 {
        SpanCovers(d, NumBlocks(r) - 1);
      }
    }
  }

  lemma RebaseLength(init: seq<byte>, snapshot: Option<seq<byte>>)
    requires IsMemory(init) && (snapshot.Some? ==> IsMemory(snapshot.value))
    ensures var size := if snapshot.Some? then |snapshot.value| else 0;
            |Rebase(init, snapshot)| == if |init| > size then |init| else size
    ensures snapshot.Some? ==> snapshot.value <= Rebase(init, snapshot)
  {
  }

  /**
   Another module restores the same memory from what is stored if and only if its own fresh memory
   is no longer than that.
   */
  lemma OtherModuleRestoresTheSame(a: seq<byte>, b: seq<byte>, inst: Inst)
    requires Stored(a, inst) && !NothingSaved(inst) && IsMemory(b)
    ensures Restored(b, inst) == Restored(a, inst) <==> |b| <= |Restored(a, inst)|
    ensures |b| <= |Restored(a, inst)| ==> Stored(b, inst)
  {
    RestoredIsMemory(a, inst);
    RebaseLength(b, inst.snapshot);
    if |b| <= |Restored(a, inst)| {
      SavedLength(a, b, inst);
      RebaseLength(a, inst.snapshot);
      if inst.deltas == map[] {
        RestoredIsMemory(b, inst);
      } else {
        assert Stored(b, inst);
        WholeBlocks(Restored(a, inst));
        RestoredIsMemory(b, inst);
        forall i | 0 <= i < NumBlocks(Restored(a, inst))
          ensures Block(Restored(a, inst), i) == Block(Restored(b, inst), i)
        {
          SameBlockRestored(a, b, inst, i);
        }
        BlocksDetermineMemory(Restored(a, inst), Restored(b, inst));
      }
    }
  }

  lemma SameBlockRestored(a: seq<byte>, b: seq<byte>, inst: Inst, i: int)
    requires Stored(a, inst) && Stored(b, inst) && inst.deltas != map[]
    requires |Restored(a, inst)| == |Restored(b, inst)| && 0 <= i < NumBlocks(Restored(a, inst))
    ensures Block(Restored(a, inst), i) == Block(Restored(b, inst), i)
  {
    RestoredBlock(a, inst, i);
    RestoredBlock(b, inst, i);
    if i !in inst.deltas {
      var s := inst.snapshot.value;
      BlockOfPrefix(s, Rebase(a, inst.snapshot), i);
      BlockOfPrefix(s, Rebase(b, inst.snapshot), i);
    }
  }

  /** The memory whose blocks the restored table describes: nothing for an instance never saved. */
  ghost function OpenTabled(init: seq<byte>, inst: Inst): seq<byte> {
    if NothingSaved(inst) then [] else Restored(init, inst)
  }

  lemma RestoredBlock(init: seq<byte>, inst: Inst, i: int)
    requires Stored(init, inst) && 0 <= i < NumBlocks(Restored(init, inst))
    ensures i in inst.deltas ==> Block(Restored(init, inst), i) == inst.deltas[i]
    ensures i !in inst.deltas && i < NumBlocks(Rebase(init, inst.snapshot)) ==>
              Block(Restored(init, inst), i) == Block(Rebase(init, inst.snapshot), i)
    ensures i !in inst.deltas && i >= NumBlocks(Rebase(init, inst.snapshot)) ==>
              Block(Restored(init, inst), i) == Zeros(4096)
  {
    RestoredIsMemory(init, inst);
    var base := Rebase(init, inst.snapshot);
    if inst.deltas != map[] {
      var g := Grown(base, Span(inst.deltas));
      BlockOfOverlay(g, inst.deltas, i);
      if i < NumBlocks(base) {
        BlockOfPrefix(base, g, i);
      }
    }
  }

  /** Every entry of the table is the hash of that block of `m`. */
  predicate Describes(table: map<int, nat>, m: seq<byte>) {
    forall i | i in table :: 0 <= i < NumBlocks(m) && table[i] == Sum64(Block(m, i))
  }

  /** Overlaying any full-size blocks and entering their hashes keeps a table right. */
  lemma OverlayKeepsTable(table: map<int, nat>, m: seq<byte>, d: BlockMap)
    requires Describes(table, m) && FullBlocks(d) && forall i | i in d :: i < NumBlocks(m)
    ensures Describes(table + Hashes(d), Overlay(m, d))
  {
    forall i | i in table + Hashes(d)
      ensures 0 <= i < NumBlocks(m) && (table + Hashes(d))[i] == Sum64(Block(Overlay(m, d), i))
    {
      BlockOfOverlay(m, d, i);
    }
  }

  lemma CompleteTable(table: map<int, nat>, m: seq<byte>)
    requires Describes(table, m) && forall i | 0 <= i < NumBlocks(m) :: i in table
    ensures table == HashTable(m)
  {
  }

  lemma PrefixKeepsTable(a: seq<byte>, b: seq<byte>)
    requires |a| <= |b| && b[..|a|] == a
    ensures Describes(HashTable(a), b)
  {
    forall i | 0 <= i < NumBlocks(a) ensures Block(b, i) == Block(a, i) {
      BlockOfPrefix(a, b, i);
    }
  }

  /** A table whose snapshot part and blocks cover everything is complete. */
  lemma ReadTable(x: seq<byte>, read: Inst)
    requires read.deltas != map[] && FullBlocks(read.deltas)
    requires read.snapshot.Some? ==> 0 < |read.snapshot.value|
    requires forall i | 0 <= i < NumBlocks(Restored(x, read)) && i !in read.deltas ::
               read.snapshot.Some? && i < NumBlocks(Rebase(x, read.snapshot))
    ensures OpenTable(x, read) == HashTable(OpenTabled(x, read))
  {
    hide Sum64;
    var base, d := Rebase(x, read.snapshot), read.deltas;
    var m := Grown(base, Span(d));
    var table := if read.snapshot.Some? then HashTable(base) else map[];
    PrefixKeepsTable(base, m);
    forall i | i in d ensures i < NumBlocks(m) {
      SpanCovers(d, i);
    }
    OverlayKeepsTable(table, m, d);
    CompleteTable(table + Hashes(d), Overlay(m, d));
  }

  /** A restored session's table describes exactly the memory it restored. */
  lemma OpenTableMatches(init: seq<byte>, inst: Inst)
    requires Stored(init, inst)
    ensures OpenTable(init, inst) == HashTable(OpenTabled(init, inst))
  {
    if inst.deltas == map[] {
      assert Hashes(inst.deltas) == map[];
    } else {
      RebaseLength(init, inst.snapshot);
      ReadTable(init, inst);
    }
  }

  // ---------------------------------------------------------------- one incremental checkpoint

  /**
   Every block whose hash still matches the table of `tabled` is what the store restores:
   no block is wrongly taken to be clean.
   */
  predicate Detects(tabled: seq<byte>, restored: seq<byte>, m: seq<byte>)
    requires |tabled| <= |restored| <= |m|
  {
    forall i | 0 <= i < NumBlocks(tabled) ::
      Sum64(Block(tabled, i)) == Sum64(Block(m, i)) ==> Block(restored, i) == Block(m, i)
  }

  lemma DirtyIsFull(table: map<int, nat>, m: seq<byte>)
    ensures FullBlocks(Dirty(table, m))
  {
  }

  /** A block the table does not know is always saved, so new memory is always covered. */
  lemma DirtySpan(tabled: seq<byte>, r: seq<byte>, m: seq<byte>)
    requires IsMemory(m) && IsMemory(r)
    requires |tabled| <= |r| <= |m|
    requires Dirty(HashTable(tabled), m) != map[]
    ensures |Grown(r, Span(Dirty(HashTable(tabled), m)))| == |m|
  {
    var e := Dirty(HashTable(tabled), m);
    var last := NumBlocks(m) - 1;
    LastBlock(r, m);
    assert Span(e) <= |m| by {
      if MaxIndex(e.Keys) !in e {
        NonemptyHasMember(e.Keys);
      }
    }
    PageRounding(Span(e), |m|);
    if |r| < |m| {
      CleanMeansSameHash(tabled, m, last);
      SpanCovers(e, last);
    }
  }

  lemma LastBlock(r: seq<byte>, m: seq<byte>)
    requires IsMemory(m) && IsMemory(r) && |r| <= |m|
    ensures NumBlocks(m) * 4096 == |m|
    ensures |r| < |m| <==> NumBlocks(r) < NumBlocks(m)
  {
    WholeBlocks(r);
    WholeBlocks(m);
  }

  lemma WholeBlocks(m: seq<byte>)
    requires IsMemory(m)
    ensures NumBlocks(m) * 4096 == |m|
    ensures |m| % 4096 == 0
  {
    var p := |m| / 65536;
    assert |m| == (16 * p) * 4096;
    assert |m| / 4096 == 16 * p;
  }

  lemma PageRounding(n: nat, m: nat)
    requires n <= m && m % 65536 == 0
    ensures Pages(n) * 65536 <= m
  {
  }

  lemma NothingDirty(tabled: seq<byte>, r: seq<byte>, m: seq<byte>)
    requires IsMemory(m) && IsMemory(r)
    requires |tabled| <= |r| <= |m|
    requires Dirty(HashTable(tabled), m) == map[]
    ensures |r| == |m|
  {
    LastBlock(r, m);
    if |m| > 0 {
      CleanMeansSameHash(tabled, m, NumBlocks(m) - 1);
    }
  }

  /** The blocks saved on top of what restores to `r` restore a memory of the right length. */
  lemma DeltaLength(init: seq<byte>, snapshot: Option<seq<byte>>, d: BlockMap,
                    tabled: seq<byte>, r: seq<byte>, m: seq<byte>)
    requires r == Restore(init, snapshot, d)
    requires IsMemory(m) && IsMemory(r)
    requires |tabled| <= |r| <= |m|
    ensures |Restore(init, snapshot, d + Dirty(HashTable(tabled), m))| == |m|
  {
    var e := Dirty(HashTable(tabled), m);
    if e == map[] {
      assert d + e == d;
      NothingDirty(tabled, r, m);
    } else {
      MoreBlocksLength(init, snapshot, d, e);
      DirtySpan(tabled, r, m);
    }
  }

  lemma DeltaBlock(init: seq<byte>, snapshot: Option<seq<byte>>, d: BlockMap, table: map<int, nat>,
                   r: seq<byte>, m: seq<byte>, i: int)
    requires FullBlocks(d) && r == Restore(init, snapshot, d)
    requires |Restore(init, snapshot, d + Dirty(table, m))| == |m|
    requires 0 <= i < NumBlocks(m)
    requires i !in Dirty(table, m) ==> i < NumBlocks(r)
    ensures Block(Restore(init, snapshot, d + Dirty(table, m)), i) ==
            if i in Dirty(table, m) then Block(m, i) else Block(r, i)
  {
    var e := Dirty(table, m);
    if e == map[] {
      assert d + e == d;
    } else {
      DirtyIsFull(table, m);
      RestoreAfterMoreBlocks(init, snapshot, d, e);
      BlockOfOverlay(Grown(r, Span(e)), e, i);
      if i !in e {
        BlockOfPrefix(r, Grown(r, Span(e)), i);
      }
    }
  }

  lemma CleanMeansSameHash(tabled: seq<byte>, m: seq<byte>, i: int)
    requires |tabled| <= |m| && 0 <= i < NumBlocks(m)
    ensures i !in Dirty(HashTable(tabled), m)
            <==> i < NumBlocks(tabled) && Sum64(Block(tabled, i)) == Sum64(Block(m, i))
  {
  }

  /** An incremental checkpoint restores live memory exactly if and only if it detects every change. */
  lemma DeltaExactIffDetects(init: seq<byte>, snapshot: Option<seq<byte>>, d: BlockMap, tabled: seq<byte>, m: seq<byte>)
    requires FullBlocks(d) && IsMemory(m) && IsMemory(Restore(init, snapshot, d))
    requires |tabled| <= |Restore(init, snapshot, d)| <= |m|
    ensures Restore(init, snapshot, d + Dirty(HashTable(tabled), m)) == m
            <==> Detects(tabled, Restore(init, snapshot, d), m)
  {
    var table := HashTable(tabled);
    var r := Restore(init, snapshot, d);
    var r' := Restore(init, snapshot, d + Dirty(table, m));
    DeltaLength(init, snapshot, d, tabled, r, m);
    WholeBlocks(m);
    WholeBlocks(r);
    assert NumBlocks(tabled) <= NumBlocks(r) <= NumBlocks(m);
    BlocksDetermineMemory(r', m);
    hide Restore;
    hide HashTable;
    forall i | 0 <= i < NumBlocks(m)
      ensures Block(r', i) == Block(m, i) <==>
        (i < NumBlocks(tabled) && Sum64(Block(tabled, i)) == Sum64(Block(m, i)) ==> Block(r, i) == Block(m, i))
    {
      CleanMeansSameHash(tabled, m, i);
      DeltaBlock(init, snapshot, d, table, r, m, i);
    }
  }

  // ---------------------------------------------------------------- one checkpoint, every crash point

  /** A session that is up to date with the store; `tabled` is the memory its hash table describes. */
  ghost predicate UpToDate(init: seq<byte>, inst: Inst, s: Sess, tabled: seq<byte>) {
    && s.meta.version == Version(inst)
    && s.table == HashTable(tabled)
    && IsMemory(tabled) && IsMemory(s.mem)
    && |tabled| <= |Restored(init, inst)| <= |s.mem|
    && (NothingSaved(inst) ==> tabled == [])
  }

  lemma UpToDateWhileRunning(init: seq<byte>, inst: Inst, s: Sess, tabled: seq<byte>, m: seq<byte>)
    requires UpToDate(init, inst, s, tabled) && IsMemory(m) && |s.mem| <= |m|
    ensures UpToDate(init, inst, s.(mem := m), tabled)
  {
  }

  /** The blocks saved before a full snapshot are the snapshot's own blocks. */
  predicate LeftoverAgrees(d: BlockMap, m: seq<byte>) {
    forall i | i in d :: 0 <= i < NumBlocks(m) && d[i] == Block(m, i)
  }

  lemma RebaseOnWhole(init: seq<byte>, m: seq<byte>)
    requires IsMemory(m) && 0 < |m| && |init| <= |m|
    ensures Rebase(init, Some(m)) == m
  {
    assert Grown(init, |m|)[|m|..] == [];
  }

  lemma DeltaIndicesInside(init: seq<byte>, inst: Inst, m: seq<byte>)
    requires Stored(init, inst) && |Restored(init, inst)| <= |m|
    ensures forall i | i in inst.deltas :: 0 <= i < NumBlocks(m)
    ensures inst.deltas != map[] ==> Span(inst.deltas) <= |m|
  {
    if inst.deltas != map[] {
      var r := Restored(init, inst);
      assert |r| == |Grown(Rebase(init, inst.snapshot), Span(inst.deltas))| >= Span(inst.deltas);
      forall i | i in inst.deltas ensures 0 <= i < NumBlocks(m) {
        SpanCovers(inst.deltas, i);
      }
    }
  }

  lemma SavedInside(x: seq<byte>, inst: Inst, i: int)
    requires Stored(x, inst) && i in inst.deltas
    ensures 0 <= i < NumBlocks(Restored(x, inst))
  {
    DeltaIndicesInside(x, inst, Restored(x, inst));
  }

  lemma OverlayAgrees(d: BlockMap, m: seq<byte>)
    requires FullBlocks(d) && |m| % 4096 == 0
    requires forall i | i in d :: 0 <= i < NumBlocks(m)
    ensures Overlay(m, d) == m <==> LeftoverAgrees(d, m)
  {
    var r := Overlay(m, d);
    BlocksDetermineMemory(r, m);
    forall i | 0 <= i < NumBlocks(m)
      ensures Block(r, i) == Block(m, i) <==> (i in d ==> d[i] == Block(m, i))
    {
      BlockOfOverlay(m, d, i);
    }
    assert r == m <==> forall i | i in d :: d[i] == Block(m, i);
  }

  /** A snapshot of `m` under blocks `d` left over from before restores `m` exactly when they agree. */
  lemma LeftoverRestore(init: seq<byte>, d: BlockMap, m: seq<byte>)
    requires FullBlocks(d) && IsMemory(m) && 0 < |m| && |init| <= |m|
    requires forall i | i in d :: 0 <= i < NumBlocks(m)
    requires d != map[] ==> Span(d) <= |m|
    ensures |Restore(init, Some(m), d)| == |m|
    ensures Restore(init, Some(m), d) == m <==> LeftoverAgrees(d, m)
  {
    RebaseOnWhole(init, m);
    if d != map[] {
      PageRounding(Span(d), |m|);
      WholeBlocks(m);
      assert Restore(init, Some(m), d) == Overlay(m, d);
      hide IsMemory;
      OverlayAgrees(d, m);
    }
  }

  /** A completed full checkpoint always restores live memory. */
  lemma FullCheckpointExact(init: seq<byte>, inst: Inst, s: Sess, tabled: seq<byte>)
    requires Stored(init, inst) && UpToDate(init, inst, s, tabled) && 0 < |s.mem|
    requires IsFull(Version(inst) + 1)
    ensures Restored(init, Checkpointed(inst, s)) == s.mem
  {
    RestoredIsMemory(init, inst);
    RebaseOnWhole(init, s.mem);
  }

  /** A completed incremental checkpoint restores live memory if and only if it detects every change. */
  lemma DeltaCheckpointExact(init: seq<byte>, inst: Inst, s: Sess, tabled: seq<byte>)
    requires Stored(init, inst) && UpToDate(init, inst, s, tabled) && 0 < |s.mem|
    requires !IsFull(Version(inst) + 1)
    ensures Restored(init, Checkpointed(inst, s)) == s.mem <==> Detects(tabled, Restored(init, inst), s.mem)
  {
    RestoredIsMemory(init, inst);
    DeltaExactIffDetects(init, inst.snapshot, inst.deltas, tabled, s.mem);
  }

  /** The condition, checkable before the call, under which stopping after `n >= 2` writes restores `s.mem`. */
  predicate StopIsSafe(inst: Inst, tabled: seq<byte>, restored: seq<byte>, s: Sess, n: nat)
    requires |tabled| <= |restored| <= |s.mem|
  {
    var v := s.meta.version + 1;
    if IsFull(v) then (v > 1 && n < 4 ==> LeftoverAgrees(inst.deltas, s.mem))
    else Detects(tabled, restored, s.mem)
  }

  lemma DeltaKeepsStored(init: seq<byte>, inst: Inst, s: Sess, tabled: seq<byte>, inst': Inst)
    requires Stored(init, inst) && UpToDate(init, inst, s, tabled) && 0 < |s.mem|
    requires inst'.meta == Some(NextMeta(s)) && inst'.snapshot == inst.snapshot
    requires inst'.deltas == inst.deltas + Dirty(s.table, s.mem)
    ensures Stored(init, inst') && |Restored(init, inst')| == |s.mem|
  {
    RestoredIsMemory(init, inst);
    DirtyIsFull(s.table, s.mem);
    DeltaLength(init, inst.snapshot, inst.deltas, tabled, Restored(init, inst), s.mem);
    forall i | SnapshotBlocks(inst) <= i < NumBlocks(s.mem) ensures i in inst'.deltas {
      CleanMeansSameHash(tabled, s.mem, i);
    }
  }

  lemma FullKeepsStored(init: seq<byte>, inst: Inst, s: Sess, tabled: seq<byte>, inst': Inst)
    requires Stored(init, inst) && UpToDate(init, inst, s, tabled) && 0 < |s.mem|
    requires inst'.meta == Some(NextMeta(s)) && inst'.snapshot == Some(s.mem)
    requires inst'.deltas == inst.deltas || inst'.deltas == map[]
    ensures Stored(init, inst') && |Restored(init, inst')| == |s.mem|
    ensures Restored(init, inst') == s.mem <==> LeftoverAgrees(inst'.deltas, s.mem)
  {
    RestoredIsMemory(init, inst);
    DeltaIndicesInside(init, inst, s.mem);
    LeftoverRestore(init, inst'.deltas, s.mem);
  }

  /**
   Crash-point safety. Whatever the number of writes a stopped checkpoint got to, the store keeps
   its invariant; before the data write it restores the previous checkpoint, and after it the new
   one if and only if the stop is safe.
   */
  lemma CrashPoint(init: seq<byte>, inst: Inst, s: Sess, tabled: seq<byte>, n: nat)
    requires Stored(init, inst) && UpToDate(init, inst, s, tabled) && 0 < |s.mem|
    ensures Stored(init, AfterWrites(inst, s, n))
    ensures n < 2 ==> Restored(init, AfterWrites(inst, s, n)) == Restored(init, inst)
    ensures n >= 2 ==> |Restored(init, AfterWrites(inst, s, n))| == |s.mem|
    ensures n >= 2 ==> (Restored(init, AfterWrites(inst, s, n)) == s.mem
                        <==> StopIsSafe(inst, tabled, Restored(init, inst), s, n))
  {
    hide Restore, Dirty, Truncated, Detects, HashTable, FullBlocks;
    var inst' := AfterWrites(inst, s, n);
    if n >= 2 {
      if IsFull(s.meta.version + 1) {
        FullKeepsStored(init, inst, s, tabled, inst');
      } else {
        DeltaKeepsStored(init, inst, s, tabled, inst');
        DeltaCheckpointExact(init, inst, s, tabled);
      }
    }
  }

  // ---------------------------------------------------------------- from one checkpoint to the next

  /** A session as the engine opens it on what is stored. */
  ghost function Opened(init: seq<byte>, inst: Inst, id: string, engineHash: string): Sess {
    Sess(OpenMeta(id, engineHash, inst), engineHash, OpenTable(init, inst), 0, Restored(init, inst))
  }

  lemma OpenedIsUpToDate(init: seq<byte>, inst: Inst, id: string, engineHash: string)
    requires Stored(init, inst)
    ensures UpToDate(init, inst, Opened(init, inst, id, engineHash), OpenTabled(init, inst))
  {
    RestoredIsMemory(init, inst);
    OpenTableMatches(init, inst);
  }

  /** No block of `m` hashes like a different block of `a` at the same place. */
  predicate NoCollision(a: seq<byte>, m: seq<byte>)
    requires |a| <= |m|
  {
    forall i | 0 <= i < NumBlocks(a) :: Sum64(Block(a, i)) == Sum64(Block(m, i)) ==> Block(a, i) == Block(m, i)
  }

  /** The first checkpoint after a restart is exact unless two compared blocks collide. */
  lemma FirstCheckpointDetects(init: seq<byte>, inst: Inst, m: seq<byte>)
    requires Stored(init, inst) && |Restored(init, inst)| <= |m|
    ensures |OpenTabled(init, inst)| <= |Restored(init, inst)|
    ensures NoCollision(OpenTabled(init, inst), m) <==> Detects(OpenTabled(init, inst), Restored(init, inst), m)
  {
  }

  /** What the table describes after a completed checkpoint: a full one leaves it behind. */
  function NextTabled(s: Sess, tabled: seq<byte>): seq<byte> {
    if IsFull(s.meta.version + 1) then tabled else s.mem
  }

  lemma TableRefreshed(tabled: seq<byte>, m: seq<byte>)
    requires |tabled| <= |m|
    ensures HashTable(tabled) + HashTable(m) == HashTable(m)
  {
    var g, h := HashTable(tabled), HashTable(m);
    assert NumBlocks(tabled) <= NumBlocks(m);
    forall i | i in g ensures i in h {
    }
    MergeSmaller(g, h);
  }

  lemma MergeSmaller(g: map<int, nat>, h: map<int, nat>)
    requires g.Keys <= h.Keys
    ensures g + h == h
  {
  }

  lemma FirstSaveSavesSomething(x: seq<byte>, before: Inst, s: Sess, tabled: seq<byte>, n: nat)
    requires UpToDate(x, before, s, tabled) && 0 < |s.mem| && n >= 2
    ensures !NothingSaved(AfterWrites(before, s, n))
  {
    if NothingSaved(before) && !IsFull(s.meta.version + 1) {
      CleanMeansSameHash(tabled, s.mem, 0);
      assert 0 in Dirty(s.table, s.mem);
    }
  }

  /**
   A checkpoint that ran to its end, with the delta truncation (4) or with its error dropped (3),
   leaves the session fit for the next one, whether or not it was exact.
   */
  lemma StaysUpToDate(init: seq<byte>, inst: Inst, s: Sess, tabled: seq<byte>, n: nat)
    requires Stored(init, inst) && UpToDate(init, inst, s, tabled) && 0 < |s.mem| && 3 <= n <= 4
    ensures UpToDate(init, AfterWrites(inst, s, n), NextSess(s), NextTabled(s, tabled))
    ensures StopIsSafe(inst, tabled, Restored(init, inst), s, n) ==> Restored(init, AfterWrites(inst, s, n)) == s.mem
  {
    CrashPoint(init, inst, s, tabled, n);
    TableRefreshed(tabled, s.mem);
    FirstSaveSavesSomething(init, inst, s, tabled, n);
    AfterWritesVersion(inst, s, n);
    hide Stored, Restored, AfterWrites, HashTable, StopIsSafe;
  }

  lemma AfterWritesVersion(inst: Inst, s: Sess, n: nat)
    requires n >= 1
    ensures Version(AfterWrites(inst, s, n)) == s.meta.version + 1
  {
  }

  /** One completed checkpoint, in one place. */
  lemma CheckpointStep(init: seq<byte>, inst: Inst, s: Sess, tabled: seq<byte>)
    requires Stored(init, inst) && UpToDate(init, inst, s, tabled) && 0 < |s.mem|
    ensures var inst' := Checkpointed(inst, s);
            && Stored(init, inst') && !NothingSaved(inst')
            && Version(inst') == Version(inst) + 1
            && (inst.snapshot.Some? || Version(inst) == 0 ==> inst'.snapshot.Some?)
            && |Restored(init, inst')| == |s.mem|
            && (Restored(init, inst') == s.mem <==> StopIsSafe(inst, tabled, Restored(init, inst), s, 4))
            && UpToDate(init, inst', NextSess(s), NextTabled(s, tabled))
  {
    CrashPoint(init, inst, s, tabled, 4);
    StaysUpToDate(init, inst, s, tabled, 4);
    FirstSaveSavesSomething(init, inst, s, tabled, 4);
    hide Stored, Restored, StopIsSafe, UpToDate, Dirty, Truncated;
  }
}
