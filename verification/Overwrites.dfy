/**
 Writes of a session that something else has overtaken, and reads that straddle a write: exactly when
 the store goes on restoring what it did, and exactly when a reader restores what the store does.
 */
module Overwrites {
  import opened Bytes
  import opened Fnv
  import opened Blocks
  import opened Protocol
  import opened Exactness

  /** The store is still in order and restores what it did. */
  ghost predicate Keeps(x: seq<byte>, inst: Inst, inst': Inst) {
    Stored(x, inst') && Restored(x, inst') == Restored(x, inst)
  }

  lemma RestoredLength(x: seq<byte>, inst: Inst)
    requires IsMemory(x) && (inst.snapshot.Some? ==> IsMemory(inst.snapshot.value))
    ensures var base := |Rebase(x, inst.snapshot)|;
            var span := if inst.deltas == map[] then 0 else Pages(Span(inst.deltas)) * 65536;
            |Restored(x, inst)| == if span > base then span else base
  {
  }

  // ---------------------------------------------------------------- a snapshot over the stored one

  /** The snapshot is no longer than what is restored, and has every block of it that is not saved separately. */
  predicate SnapshotFits(m: seq<byte>, deltas: BlockMap, r: seq<byte>) {
    && |m| <= |r|
    && forall i | 0 <= i < NumBlocks(r) && i !in deltas :: i < NumBlocks(m) && Block(m, i) == Block(r, i)
  }

  lemma FittingLength(x: seq<byte>, inst: Inst, m: seq<byte>)
    requires Stored(x, inst) && IsMemory(m) && 0 < |m| && SnapshotFits(m, inst.deltas, Restored(x, inst))
    ensures |Restored(x, inst.(snapshot := Some(m)))| == |Restored(x, inst)|
  {
    var r := Restored(x, inst);
    RestoredIsMemory(x, inst);
    RestoredLength(x, inst);
    RestoredLength(x, inst.(snapshot := Some(m)));
    RebaseLength(x, inst.snapshot);
    RebaseLength(x, Some(m));
    LastBlock(m, r);
    if |m| < |r| {
      assert NumBlocks(r) - 1 in inst.deltas;
      SpanCovers(inst.deltas, NumBlocks(r) - 1);
    }
  }

  lemma FittingSnapshotKeeps(x: seq<byte>, inst: Inst, m: seq<byte>)
    requires Stored(x, inst) && !NothingSaved(inst) && IsMemory(m) && 0 < |m|
    requires SnapshotFits(m, inst.deltas, Restored(x, inst))
    ensures Keeps(x, inst, inst.(snapshot := Some(m)))
  {
    var r, inst' := Restored(x, inst), inst.(snapshot := Some(m));
    RestoredIsMemory(x, inst);
    FittingLength(x, inst, m);
    LastBlock(m, r);
    assert inst.deltas == map[] ==> NumBlocks(r) - 1 !in inst.deltas;
    assert Stored(x, inst');
    forall i | 0 <= i < NumBlocks(r) ensures Block(Restored(x, inst'), i) == Block(r, i) {
      RestoredBlock(x, inst, i);
      RestoredBlock(x, inst', i);
      if i !in inst.deltas {
        RebaseLength(x, Some(m));
        BlockOfPrefix(m, Rebase(x, Some(m)), i);
      }
    }
    WholeBlocks(r);
    BlocksDetermineMemory(r, Restored(x, inst'));
  }

  lemma KeptSnapshotFits(x: seq<byte>, inst: Inst, m: seq<byte>)
    requires Stored(x, inst) && !NothingSaved(inst) && IsMemory(m) && 0 < |m|
    requires Keeps(x, inst, inst.(snapshot := Some(m)))
    ensures SnapshotFits(m, inst.deltas, Restored(x, inst))
  {
    var r, inst' := Restored(x, inst), inst.(snapshot := Some(m));
    RestoredIsMemory(x, inst');
    RestoredLength(x, inst');
    RebaseLength(x, Some(m));
    forall i | 0 <= i < NumBlocks(r) && i !in inst.deltas
      ensures i < NumBlocks(m) && Block(m, i) == Block(r, i)
    {
      RestoredBlock(x, inst', i);
      BlockOfPrefix(m, Rebase(x, Some(m)), i);
    }
  }

  /** A snapshot written over the stored one keeps what is restored if and only if it fits. */
  lemma SnapshotKeepsIff(x: seq<byte>, inst: Inst, m: seq<byte>)
    requires Stored(x, inst) && !NothingSaved(inst) && IsMemory(m) && 0 < |m|
    ensures Keeps(x, inst, inst.(snapshot := Some(m))) <==> SnapshotFits(m, inst.deltas, Restored(x, inst))
  {
    hide Keeps, SnapshotFits, Stored, Restored;
    if SnapshotFits(m, inst.deltas, Restored(x, inst)) {
      FittingSnapshotKeeps(x, inst, m);
    }
    if Keeps(x, inst, inst.(snapshot := Some(m))) {
      KeptSnapshotFits(x, inst, m);
    }
  }

  // ---------------------------------------------------------------- blocks over the stored ones

  lemma AgreeingBlocksKeep(x: seq<byte>, inst: Inst, e: BlockMap)
    requires Stored(x, inst) && !NothingSaved(inst) && FullBlocks(e) && LeftoverAgrees(e, Restored(x, inst))
    ensures Keeps(x, inst, inst.(deltas := inst.deltas + e))
  {
    var r, inst' := Restored(x, inst), inst.(deltas := inst.deltas + e);
    RestoredIsMemory(x, inst);
    if e == map[] {
      assert inst.deltas + e == inst.deltas;
    } else {
      RestoreAfterMoreBlocks(x, inst.snapshot, inst.deltas, e);
      WholeBlocks(r);
      SpanInside(e, r);
      OverlayAgrees(e, r);
      assert Restored(x, inst') == r;
      MoreIsNonempty(inst.deltas, e);
    }
  }

  lemma SpanInside(e: BlockMap, r: seq<byte>)
    requires e != map[] && IsMemory(r) && forall i | i in e :: 0 <= i < NumBlocks(r)
    ensures Grown(r, Span(e)) == r
  {
    WholeBlocks(r);
    NonemptyHasMember(e.Keys);
    assert Span(e) <= |r|;
    PageRounding(Span(e), |r|);
  }

  lemma KeptBlocksAgree(x: seq<byte>, inst: Inst, e: BlockMap)
    requires Stored(x, inst) && FullBlocks(e) && Keeps(x, inst, inst.(deltas := inst.deltas + e))
    ensures LeftoverAgrees(e, Restored(x, inst))
  {
    var inst' := inst.(deltas := inst.deltas + e);
    forall i | i in e ensures 0 <= i < NumBlocks(Restored(x, inst)) && e[i] == Block(Restored(x, inst), i) {
      SavedInside(x, inst', i);
      RestoredBlock(x, inst', i);
    }
  }

  /** Blocks merged into the stored ones keep what is restored if and only if they are its own blocks. */
  lemma BlocksKeepIff(x: seq<byte>, inst: Inst, e: BlockMap)
    requires Stored(x, inst) && !NothingSaved(inst) && FullBlocks(e)
    ensures Keeps(x, inst, inst.(deltas := inst.deltas + e)) <==> LeftoverAgrees(e, Restored(x, inst))
  {
    hide Keeps, Stored, Restored, LeftoverAgrees;
    if LeftoverAgrees(e, Restored(x, inst)) {
      AgreeingBlocksKeep(x, inst, e);
    }
    if Keeps(x, inst, inst.(deltas := inst.deltas + e)) {
      KeptBlocksAgree(x, inst, e);
    }
  }

  // ---------------------------------------------------------------- truncation of the stored blocks

  /** Dropping the blocks keeps what is restored if and only if they are the snapshot's own. */
  lemma TruncationKeepsIff(x: seq<byte>, inst: Inst)
    requires Stored(x, inst) && inst.snapshot.Some?
    ensures Keeps(x, inst, inst.(deltas := map[])) <==> LeftoverAgrees(inst.deltas, inst.snapshot.value)
  {
    var s, r, inst' := inst.snapshot.value, Restored(x, inst), inst.(deltas := map[]);
    RestoredIsMemory(x, inst);
    RebaseLength(x, inst.snapshot);
    RestoredLength(x, inst);
    if LeftoverAgrees(inst.deltas, s) {
      LastBlock(s, r);
      var last := NumBlocks(r) - 1;
      assert inst.deltas != map[] && NumBlocks(s) <= last ==> last in inst.deltas;
      assert |x| <= |s|;
      RebaseOnWhole(x, s);
      if inst.deltas != map[] {
        SpanInside(inst.deltas, s);
        WholeBlocks(s);
        OverlayAgrees(inst.deltas, s);
      }
    }
    if Keeps(x, inst, inst') {
      RestoredIsMemory(x, inst');
      forall i | i in inst.deltas ensures 0 <= i < NumBlocks(s) && inst.deltas[i] == Block(s, i) {
        SavedInside(x, inst, i);
        RestoredBlock(x, inst, i);
      }
    }
  }

  // ---------------------------------------------------------------- a snapshot read before, blocks read after

  /** What was read restores `r` and gives a complete table of it. */
  predicate ReadFits(x: seq<byte>, snapshot: Option<seq<byte>>, deltas: BlockMap, r: seq<byte>) {
    var b := Rebase(x, snapshot);
    if deltas == map[] then b == r
    else
      && |b| <= |r|
      && forall i | 0 <= i < NumBlocks(r) && i !in deltas ::
           snapshot.Some? && i < NumBlocks(b) && Block(b, i) == Block(r, i)
  }

  /** The table that a reader builds while it restores describes what it restores. */
  ghost predicate ReadsRight(x: seq<byte>, read: Inst, r: seq<byte>) {
    Restored(x, read) == r && OpenTable(x, read) == HashTable(OpenTabled(x, read))
  }

  lemma FittingReadLength(x: seq<byte>, inst: Inst, read: Inst)
    requires Stored(x, inst) && read.deltas == inst.deltas != map[]
    requires read.snapshot.Some? ==> IsMemory(read.snapshot.value)
    requires ReadFits(x, read.snapshot, inst.deltas, Restored(x, inst))
    ensures |Restored(x, read)| == |Restored(x, inst)|
  {
    var r, b := Restored(x, inst), Rebase(x, read.snapshot);
    RestoredIsMemory(x, inst);
    RestoredLength(x, inst);
    RestoredLength(x, read);
    RebaseLength(x, read.snapshot);
    LastBlock(b, r);
    if |b| < |r| {
      assert NumBlocks(r) - 1 in inst.deltas;
      SpanCovers(inst.deltas, NumBlocks(r) - 1);
    }
  }

  lemma FittingReadIsRight(x: seq<byte>, inst: Inst, read: Inst)
    requires Stored(x, inst) && read.deltas == inst.deltas != map[]
    requires read.snapshot.Some? ==> IsMemory(read.snapshot.value) && 0 < |read.snapshot.value|
    requires ReadFits(x, read.snapshot, inst.deltas, Restored(x, inst))
    ensures ReadsRight(x, read, Restored(x, inst))
  {
    var r, d, base := Restored(x, inst), inst.deltas, Rebase(x, read.snapshot);
    var m := Grown(base, Span(d));
    FittingReadLength(x, inst, read);
    RestoredIsMemory(x, inst);
    WholeBlocks(r);
    forall i | 0 <= i < NumBlocks(r) ensures Block(Restored(x, read), i) == Block(r, i) {
      RestoredBlock(x, inst, i);
      BlockOfOverlay(m, d, i);
      if i !in d {
        BlockOfPrefix(base, m, i);
      }
    }
    BlocksDetermineMemory(r, Restored(x, read));
    ReadTable(x, read);
  }

  lemma RightReadFits(x: seq<byte>, inst: Inst, read: Inst)
    requires Stored(x, inst) && read.deltas == inst.deltas != map[]
    requires read.snapshot.Some? ==> IsMemory(read.snapshot.value) && 0 < |read.snapshot.value|
    requires ReadsRight(x, read, Restored(x, inst))
    ensures ReadFits(x, read.snapshot, inst.deltas, Restored(x, inst))
  {
    hide Sum64;
    var r, d, base := Restored(x, inst), inst.deltas, Rebase(x, read.snapshot);
    RestoredLength(x, read);
    forall i | 0 <= i < NumBlocks(r) && i !in d
      ensures read.snapshot.Some? && i < NumBlocks(base) && Block(base, i) == Block(r, i)
    {
      assert i in HashTable(r);
      assert i in OpenTable(x, read);
      BlockOfOverlay(Grown(base, Span(d)), d, i);
      BlockOfPrefix(base, Grown(base, Span(d)), i);
    }
  }

  /** A snapshot read before and blocks read after some writes are right if and only if they fit. */
  lemma ReadFitsIff(x: seq<byte>, inst: Inst, read: Inst)
    requires Stored(x, inst) && read.deltas == inst.deltas
    requires read.snapshot.Some? ==> IsMemory(read.snapshot.value) && 0 < |read.snapshot.value|
    ensures ReadsRight(x, read, Restored(x, inst)) <==> ReadFits(x, read.snapshot, inst.deltas, Restored(x, inst))
  {
    if inst.deltas == map[] {
      assert Hashes(read.deltas) == map[];
    } else {
      hide Stored, Restored, ReadsRight, ReadFits;
      if ReadFits(x, read.snapshot, inst.deltas, Restored(x, inst)) {
        FittingReadIsRight(x, inst, read);
      }
      if ReadsRight(x, read, Restored(x, inst)) {
        RightReadFits(x, inst, read);
      }
    }
  }
}
