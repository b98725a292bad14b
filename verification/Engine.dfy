/**
 The engine's side of a session: restoring linear memory from the store, and the `checkpoint` host
 function, as the loops that the engine runs. Each is proved against the functions of Protocol.
 */
module Engine {
  import opened Bytes
  import opened Fnv
  import opened Blocks
  import opened Protocol
  import opened MemoryStore

  function Splice(m: seq<byte>, start: nat, x: seq<byte>): seq<byte>
    requires start + |x| <= |m|
  {
    m[..start] + x + m[start + |x|..]
  }

  /** Copies the bytes as they are before the first is written, as for a source that may overlap. */
  method WriteBytes(a: array<byte>, at: nat, s: seq<byte>)
    requires at + |s| <= a.Length
    modifies a
    ensures a[..] == Splice(old(a[..]), at, s)
  {
    for i := 0 to |s|
      invariant a[..at] == old(a[..at])
      invariant a[at..at + i] == s[..i]
      invariant a[at + i..] == old(a[at + i..])
    {
      a[at + i] := s[i];
    }
  }

  /** Copying one more block in, at any point of the iteration, is one more block overlaid. */
  lemma OverlayOneMore(m: seq<byte>, d: BlockMap, i: nat, x: seq<byte>)
    requires |x| <= 4096 && i * 4096 + |x| <= |m| && i !in d
    ensures Splice(Overlay(m, d), i * 4096, x) == Overlay(m, d[i := x])
  {
    var a, b := Splice(Overlay(m, d), i * 4096, x), Overlay(m, d[i := x]);
    forall k | 0 <= k < |m| ensures a[k] == b[k] {
      if i * 4096 <= k < i * 4096 + |x| {
        assert k / 4096 == i;
      } else {
        assert a[k] == OverlaidByte(m, d, k);
      }
    }
  }

  lemma OverlayNothing(m: seq<byte>)
    ensures Overlay(m, map[]) == m
  {
  }

  lemma OnlyNoneOrAll(d: BlockMap, h: map<int, nat>)
    ensures Only(d, {}) == map[] && h + Hashes(Only(d, {})) == h
    ensures Only(d, d.Keys) == d
  {
  }

  lemma OnlyOneMore(d: BlockMap, keys: set<int>, i: int)
    requires keys <= d.Keys && i in d && i !in keys
    ensures i !in Only(d, keys) && Only(d, keys)[i := d[i]] == Only(d, keys + {i})
    ensures Hashes(Only(d, keys + {i})) == Hashes(Only(d, keys))[i := Sum64(d[i])]
  {
  }

  ghost function HashesBelow(m: seq<byte>, n: nat): map<int, nat>
    requires n <= NumBlocks(m)
  {
    map k | 0 <= k < n :: Sum64(Block(m, k))
  }

  lemma OneMoreHash(g: map<int, nat>, m: seq<byte>, i: nat)
    requires i < NumBlocks(m)
    ensures (g + HashesBelow(m, i))[i := Sum64(Block(m, i))] == g + HashesBelow(m, i + 1)
  {
  }

  ghost function DirtyBelow(table: map<int, nat>, m: seq<byte>, n: nat): BlockMap
    requires n <= NumBlocks(m)
  {
    map k | 0 <= k < n && !(k in table && table[k] == Sum64(Block(m, k))) :: Block(m, k)
  }

  lemma OneMoreDirty(table: map<int, nat>, m: seq<byte>, i: nat)
    requires i < NumBlocks(m)
    ensures DirtyBelow(table, m, i + 1) == if i in table && table[i] == Sum64(Block(m, i)) then DirtyBelow(table, m, i)
                                           else DirtyBelow(table, m, i)[i := Block(m, i)]
    ensures i in table + HashesBelow(m, i) <==> i in table
    ensures i in table ==> (table + HashesBelow(m, i))[i] == table[i]
  {
  }

  method ArrayOf(s: seq<byte>) returns (a: array<byte>)
    ensures fresh(a) && a[..] == s
  {
    a := new byte[|s|](k requires 0 <= k < |s| => s[k]);
  }

  ghost predicate Holds(d: map<int, array<byte>>, b: BlockMap)
    reads BlockSlices(d)
  {
    d.Keys == b.Keys && forall k | k in d :: d[k][..] == b[k]
  }

  lemma HoldsOneMore(d: map<int, array<byte>>, b: BlockMap, i: int, a: array<byte>)
    requires Holds(d, b)
    ensures Holds(d[i := a], b[i := a[..]])
  {
  }

  lemma HoldsAll(d: map<int, array<byte>>, b: BlockMap)
    requires Holds(d, b)
    ensures BlocksOf(d) == b
  {
    assert BlocksOf(d).Keys == b.Keys;
    forall k | k in d ensures BlocksOf(d)[k] == b[k] {
    }
  }

  /** Collects a copy of one more block if its hash is new. */
  method CheckBlock(i: nat, block: seq<byte>, table: map<int, nat>, dirty: map<int, array<byte>>,
                    ghost g: map<int, nat>, ghost m: seq<byte>)
    returns (table': map<int, nat>, dirty': map<int, array<byte>>)
    requires i < NumBlocks(m) && block == Block(m, i)
    requires table == g + HashesBelow(m, i) && Holds(dirty, DirtyBelow(g, m, i))
    ensures table' == g + HashesBelow(m, i + 1) && Holds(dirty', DirtyBelow(g, m, i + 1))
    ensures forall k | k in dirty' :: (k in dirty && dirty'[k] == dirty[k]) || fresh(dirty'[k])
  {
    hide Sum64, HashesBelow, DirtyBelow;
    OneMoreHash(g, m, i);
    OneMoreDirty(g, m, i);
    var h := Sum64(block);
    table', dirty' := table, dirty;
    if !(i in table && table[i] == h) {
      var copied := ArrayOf(block);
      HoldsOneMore(dirty, DirtyBelow(g, m, i), i, copied);
      dirty' := dirty[i := copied];
      table' := table[i := h];
    }
  }

  lemma EmptyOrNot(d: map<int, array<byte>>)
    ensures |d| > 0 <==> d != map[]
    ensures d == map[] <==> BlocksOf(d) == map[]
  {
    assert BlocksOf(d).Keys == d.Keys;
  }

  // ---------------------------------------------------------------- page counts of 32 bits

  /** Memory grown until `n` bytes fit, as the engine does it: the number of pages is cut to 32 bits. */
  function Grown32(m: seq<byte>, n: nat): (g: seq<byte>)
    ensures |g| >= |m| && (IsMemory(m) ==> IsMemory(g))
  {
    GrownTo(m, Pages(n) % 0x1_0000_0000)
  }

  /** The growth makes room for `n` bytes if and only if the count fits 32 bits or the room was there. */
  lemma GrowthCoversIff(m: seq<byte>, n: nat)
    ensures |Grown32(m, n)| >= n <==> Pages(n) < 0x1_0000_0000 || n <= |m|
    ensures Pages(n) < 0x1_0000_0000 ==> Grown32(m, n) == Grown(m, n)
  {
  }

  predicate AllInside(d: BlockMap, size: nat) {
    forall k | k in d :: k * 4096 + |d[k]| <= size
  }

  /** So every slice is in bounds as long as the count fits, for every map of blocks. */
  lemma GrowthMakesSlicesLegal(m: seq<byte>, d: BlockMap)
    requires FitBlocks(d) && Pages(Span(d)) < 0x1_0000_0000
    ensures AllInside(d, |Grown32(m, Span(d))|)
  {
    hide Span, Grown32;
    GrowthCoversIff(m, Span(d));
    forall k | k in d ensures k * 4096 + |d[k]| <= |Grown32(m, Span(d))| {
      SpanCovers(d, k);
    }
  }

  /** And beyond that it is not: at this index the count is 0, and a memory of any size that there is stays as it is. */
  lemma WrappedCountGrowsNothing(m: seq<byte>, block: seq<byte>)
    requires |m| <= 65536 * 65536
    ensures var d := map[0xF_FFFF_FFFF := block];
            Grown32(m, Span(d)) == m && !AllInside(d, |m|)
  {
    var d := map[0xF_FFFF_FFFF := block];
    assert 0xF_FFFF_FFFF in d.Keys;
    assert MaxIndex(d.Keys) == 0xF_FFFF_FFFF;
    assert Span(d) == 0x1_0000_0000_0000;
  }

  /** A snapshot copied over the start of memory, as much of it as there is room for. */
  function CopiedOver(m: seq<byte>, s: seq<byte>): (r: seq<byte>)
    ensures |r| == |m|
  {
    if |s| <= |m| then s + m[|s|..] else s[..|m|]
  }

  lemma CopiedOverByte(m: seq<byte>, s: seq<byte>, k: nat)
    requires k < |m|
    ensures CopiedOver(m, s)[k] == if k < |s| then s[k] else m[k]
  {
  }

  function Rebase32(init: seq<byte>, snapshot: Option<seq<byte>>): seq<byte> {
    if snapshot.Some? && |snapshot.value| > 0 then CopiedOver(Grown32(init, |snapshot.value|), snapshot.value) else init
  }

  lemma Rebase32IsRebase(init: seq<byte>, snapshot: Option<seq<byte>>)
    requires snapshot.Some? ==> Pages(|snapshot.value|) < 0x1_0000_0000
    ensures Rebase32(init, snapshot) == Rebase(init, snapshot)
  {
    if snapshot.Some? {
      GrowthCoversIff(init, |snapshot.value|);
    }
  }

  /** How restoring ends: done, without room within the memory's limit, or with a slice out of range. */
  datatype Restoring = Ready | NoRoom | OutOfRange

  /** The outcome of putting blocks over a memory that has been grown to `g`. */
  function LoadedBlocks(d: BlockMap, limit: nat, g: seq<byte>): Restoring {
    if d == map[] then Ready
    else if |g| > limit then NoRoom
    else if AllInside(d, |g|) then Ready
    else OutOfRange
  }

  lemma LoadedBlocksMeans(d: BlockMap, limit: nat, g: seq<byte>)
    ensures LoadedBlocks(d, limit, g).NoRoom? <==> d != map[] && |g| > limit
    ensures LoadedBlocks(d, limit, g).OutOfRange? <==> |g| <= limit && exists k | k in d :: k * 4096 + |d[k]| > |g|
  {
  }

  datatype Outcome = Saved | Conflict | EmptyMemory | Stopped

  class Session {
    var mem: array<byte>           // the module's linear memory
    const maxPages: nat            // its limit
    const instanceId: string
    const engineHash: string
    var meta: InstanceMeta
    var pageHashes: map<int, nat>
    var callIndex: int

    constructor (id: string, hash: string, meta: InstanceMeta, mem: array<byte>, maxPages: nat)
      ensures this.instanceId == id && this.engineHash == hash && this.meta == meta
      ensures this.mem == mem && this.maxPages == maxPages
      ensures pageHashes == map[] && callIndex == 0
    {
      instanceId, engineHash, this.meta := id, hash, meta;
      this.mem, this.maxPages := mem, maxPages;
      pageHashes, callIndex := map[], 0;
    }

    /** Memory is whole pages, within its limit. */
    ghost predicate Fits()
      reads this
    {
      mem.Length % 65536 == 0 && mem.Length <= maxPages * 65536
    }

    /** Grows by whole pages of zeros; growing may move the memory. */
    method Grow(pages: nat) returns (ok: bool)
      requires mem.Length % 65536 == 0
      modifies this`mem
      ensures ok <==> old(mem.Length) / 65536 + pages <= maxPages
      ensures ok ==> mem[..] == old(mem[..]) + Zeros(pages * 65536) && (mem == old(mem) || fresh(mem))
      ensures !ok ==> mem == old(mem)
    {
      if mem.Length / 65536 + pages > maxPages {
        return false;
      }
      if pages > 0 {
        var m := mem;
        var bigger := new byte[m.Length + pages * 65536](_ => 0);
        for i := 0 to m.Length
          invariant bigger[..i] == m[..i]
          invariant forall k | i <= k < bigger.Length :: bigger[k] == 0
        {
          bigger[i] := m[i];
        }
        assert bigger[m.Length..] == Zeros(pages * 65536);
        assert bigger[..] == bigger[..m.Length] + bigger[m.Length..];
        mem := bigger;
      }
      ok := true;
    }

    method CopyIn(start: nat, data: array<byte>)
      requires start + data.Length <= mem.Length && data != mem
      modifies mem
      ensures mem[..] == Splice(old(mem[..]), start, data[..])
    {
      WriteBytes(mem, start, data[..]);
    }

    /** Grows until `n` bytes fit, by a page count of 32 bits. */
    method GrowTo(n: nat) returns (ok: bool)
      requires Fits()
      modifies this`mem
      ensures Fits() && (mem == old(mem) || fresh(mem))
      ensures ok <==> |Grown32(old(mem[..]), n)| <= maxPages * 65536
      ensures mem[..] == if ok then Grown32(old(mem[..]), n) else old(mem[..])
    {
      var current := mem.Length / 65536;
      var needed := (n + 65535) / 65536 % 0x1_0000_0000;
      ok := true;
      if needed > current {
        ok := Grow(needed - current);
      }
    }

    /** Adds the hash of every block of memory to the table. */
    method HashBlocks()
      modifies this`pageHashes
      ensures pageHashes == old(pageHashes) + HashTable(mem[..])
    {
      ghost var m := mem[..];
      var n := mem.Length / 4096;
      var table := pageHashes;
      for i := 0 to n
        invariant table == old(pageHashes) + HashesBelow(m, i)
      {
        hide Sum64, HashesBelow;
        var block := mem[i * 4096..i * 4096 + 4096];
        assert block == Block(m, i);
        OneMoreHash(old(pageHashes), m, i);
        table := table[i := Sum64(block)];
      }
      assert HashesBelow(m, n) == HashTable(m);
      pageHashes := table;
    }

    /** Copies one more block of `d` in and hashes it. */
    method OverlayBlock(i: int, data: array<byte>, ghost m: seq<byte>, ghost h: map<int, nat>,
                        ghost d: BlockMap, ghost done: set<int>)
      requires done <= d.Keys && i in d && i !in done && 0 <= i
      requires data != mem && data[..] == d[i] && |d[i]| <= 4096 && i * 4096 + |d[i]| <= |m|
      requires mem[..] == Overlay(m, Only(d, done)) && pageHashes == h + Hashes(Only(d, done))
      modifies mem, this`pageHashes
      ensures mem[..] == Overlay(m, Only(d, done + {i})) && pageHashes == h + Hashes(Only(d, done + {i}))
    {
      hide Overlay, Sum64, Hashes, Only;
      OnlyOneMore(d, done, i);
      OverlayOneMore(m, Only(d, done), i, d[i]);
      CopyIn(i * 4096, data);
      pageHashes := pageHashes[i := Sum64(data[..])];
    }

    /** Copies every block in and hashes it, in whatever order the map yields them; fails iff one is out of range. */
    method OverlayBlocks(blocks: map<int, array<byte>>) returns (ok: bool)
      requires FitBlocks(BlocksOf(blocks)) && mem !in BlockSlices(blocks)
      modifies mem, this`pageHashes
      ensures ok <==> AllInside(old(BlocksOf(blocks)), mem.Length)
      ensures ok ==> mem[..] == Overlay(old(mem[..]), old(BlocksOf(blocks)))
      ensures ok ==> pageHashes == old(pageHashes) + Hashes(old(BlocksOf(blocks)))
    {
      hide Overlay, Only, Hashes;
      ghost var d := BlocksOf(blocks);
      ghost var done: set<int> := {};
      var rest := blocks.Keys;
      OverlayNothing(mem[..]);
      OnlyNoneOrAll(d, pageHashes);
      while rest != {}
        invariant rest <= blocks.Keys && done == blocks.Keys - rest
        invariant forall k | k in blocks :: blocks[k][..] == d[k]
        invariant forall k | k in done :: k * 4096 + |d[k]| <= mem.Length
        invariant mem[..] == Overlay(old(mem[..]), Only(d, done))
        invariant pageHashes == old(pageHashes) + Hashes(Only(d, done))
        decreases |rest|
      {
        NonemptyHasMember(rest);
        var idx :| idx in rest;
        assert blocks[idx] in BlockSlices(blocks);
        if idx * 4096 + blocks[idx].Length > mem.Length {
          assert idx in d;
          return false;
        }
        OverlayBlock(idx, blocks[idx], old(mem[..]), old(pageHashes), d, done);
        done := done + {idx};
        rest := rest - {idx};
      }
      assert done == d.Keys;
      ok := true;
    }

    /** Puts a full snapshot under a table that has no entries yet. */
    method LoadSnapshot(snapshot: array<byte>) returns (ok: bool)
      requires Fits() && snapshot != mem && 0 < snapshot.Length
      modifies this`mem, this`pageHashes, mem
      ensures Fits() && (mem == old(mem) || fresh(mem))
      ensures var base := Rebase32(old(mem[..]), Some(snapshot[..]));
              && (ok <==> |base| <= maxPages * 65536)
              && (ok ==> mem[..] == base && pageHashes == old(pageHashes) + HashTable(base))
    {
      hide HashTable, Grown32;
      ok := GrowTo(snapshot.Length);
      if ok {
        var n := if snapshot.Length <= mem.Length then snapshot.Length else mem.Length;
        WriteBytes(mem, 0, snapshot[..n]);
        HashBlocks();
      }
    }

    /** Puts saved blocks over memory, growing it first. */
    method LoadBlocks(blocks: map<int, array<byte>>) returns (o: Restoring)
      requires Fits() && mem !in BlockSlices(blocks) && blocks != map[]
      requires FitBlocks(BlocksOf(blocks))
      modifies this`mem, this`pageHashes, mem
      ensures Fits() && (mem == old(mem) || fresh(mem))
      ensures var d := old(BlocksOf(blocks));
              var g := Grown32(old(mem[..]), Span(d));
              && o == LoadedBlocks(d, maxPages * 65536, g)
              && (o.Ready? ==> mem[..] == Overlay(g, d) && pageHashes == old(pageHashes) + Hashes(d))
    {
      hide Overlay, Sum64, Hashes, FitBlocks, Grown32, AllInside;
      ghost var d := BlocksOf(blocks);
      EmptyOrNot(blocks);
      assert d.Keys == blocks.Keys;
      var largest := LargestIndex(blocks.Keys);
      var ok := GrowTo((largest + 1) * 4096);
      if !ok {
        return NoRoom;
      }
      assert BlocksOf(blocks) == d;
      ok := OverlayBlocks(blocks);
      o := if ok then Ready else OutOfRange;
    }

    method RestoreSnapshot(store: MemorySnapshotStore) returns (ok: bool)
      requires Restorable(store)
      modifies this`mem, this`pageHashes, mem
      ensures Restorable(store) && (mem == old(mem) || fresh(mem))
      ensures forall j :: store.View(j) == old(store.View(j))
      ensures var base := Rebase32(old(mem[..]), store.View(instanceId).snapshot);
              && (ok <==> |base| <= maxPages * 65536)
              && (ok ==> mem[..] == base)
              && (ok ==> pageHashes == if HasSnapshot(store.View(instanceId)) then old(pageHashes) + HashTable(base)
                                       else old(pageHashes))
    {
      hide HashTable, FitBlocks, CopiedOver, Grown32;
      var snapshot := store.Load(instanceId);
      ok := true;
      if snapshot.Some? && snapshot.value.Length > 0 {
        ok := LoadSnapshot(snapshot.value);
      }
    }

    method RestoreDeltas(store: MemorySnapshotStore) returns (o: Restoring)
      requires Restorable(store)
      modifies this`mem, this`pageHashes, mem
      ensures Restorable(store) && (mem == old(mem) || fresh(mem))
      ensures forall j :: store.View(j) == old(store.View(j))
      ensures var d := store.View(instanceId).deltas;
              var g := Grown32(old(mem[..]), Span(d));
              && o == LoadedBlocks(d, maxPages * 65536, g)
              && (o.NoRoom? <==> d != map[] && |g| > maxPages * 65536)
              && (o.OutOfRange? <==> |g| <= maxPages * 65536 && exists k | k in d :: k * 4096 + |d[k]| > |g|)
              && (o.Ready? ==> mem[..] == if d == map[] then old(mem[..]) else Overlay(g, d))
              && (o.Ready? ==> pageHashes == old(pageHashes) + Hashes(d))
    {
      hide Overlay, HashTable, Hashes, Span, FitBlocks, Grown32, AllInside, BlocksOf, BlockSlices;
      hide MemorySnapshotStore.View, MemorySnapshotStore.Valid;
      var blocks := store.LoadDeltas(instanceId);
      OnlyNoneOrAll(map[], pageHashes);
      EmptyOrNot(blocks);
      ghost var d := store.View(instanceId).deltas;
      LoadedBlocksMeans(d, maxPages * 65536, Grown32(mem[..], Span(d)));
      o := Ready;
      if |blocks| > 0 {
        o := LoadBlocks(blocks);
      }
    }

    /**
     Restores memory and hash table. On what page counts of 32 bits can address, that is all of any
     real store, it fails exactly when the memory's limit is in the way.
     */
    method Restore(store: MemorySnapshotStore) returns (o: Restoring)
      requires Restorable(store) && pageHashes == map[]
      modifies this`mem, this`pageHashes, mem
      ensures Restorable(store) && (mem == old(mem) || fresh(mem))
      ensures forall j :: store.View(j) == old(store.View(j))
      ensures var inst, init := store.View(instanceId), old(mem[..]);
              Addressable(inst) ==>
                && o == (if |Restored(init, inst)| <= maxPages * 65536 then Ready else NoRoom)
                && (o.Ready? ==> mem[..] == Restored(init, inst) && pageHashes == OpenTable(init, inst))
    {
      hide Overlay, HashTable, Sum64, Span, FitBlocks, Grown32, Grown, Rebase, Rebase32, AllInside;
      hide MemorySnapshotStore.View, MemorySnapshotStore.Valid;
      ghost var inst, init := store.View(instanceId), mem[..];
      var ok := RestoreSnapshot(store);
      if ok {
        ghost var base := mem[..];
        o := RestoreDeltas(store);
        if Addressable(inst) {
          AddressableRestores(init, inst);
          GrowthCoversIff(base, Span(inst.deltas));
          GrowthMakesSlicesLegal(base, inst.deltas);
        }
      } else {
        o := NoRoom;
        if Addressable(inst) {
          AddressableRestores(init, inst);
        }
      }
    }

    /** Collects copies of the blocks whose hash is new, and refreshes the table. */
    method DirtyBlocks() returns (dirty: map<int, array<byte>>)
      modifies this`pageHashes
      ensures BlocksOf(dirty) == Dirty(old(pageHashes), mem[..])
      ensures fresh(BlockSlices(dirty))
      ensures pageHashes == old(pageHashes) + HashTable(mem[..])
    {
      ghost var m := mem[..];
      var n := mem.Length / 4096;
      var table := pageHashes;
      dirty := map[];
      for i := 0 to n
        invariant table == old(pageHashes) + HashesBelow(m, i)
        invariant Holds(dirty, DirtyBelow(old(pageHashes), m, i))
        invariant forall k | k in dirty :: fresh(dirty[k])
      {
        hide Sum64, HashesBelow, DirtyBelow, Holds;
        var block := mem[i * 4096..i * 4096 + 4096];
        assert block == Block(m, i);
        table, dirty := CheckBlock(i, block, table, dirty, old(pageHashes), m);
      }
      assert HashesBelow(m, n) == HashTable(m);
      assert DirtyBelow(old(pageHashes), m, n) == Dirty(old(pageHashes), m);
      pageHashes := table;
      HoldsAll(dirty, Dirty(old(pageHashes), m));
    }

    ghost function AsSess(): Sess
      reads this, mem
    {
      Sess(meta, engineHash, pageHashes, callIndex, mem[..])
    }

    /** The data half of a full checkpoint; `stopAfter` counts all writes, the metadata write included. */
    method SaveFull(store: MemorySnapshotStore, stopAfter: nat) returns (o: Outcome)
      requires store.Valid() && mem !in store.Repr && stopAfter >= 2
      modifies store
      ensures store.Valid() && fresh(store.Repr - old(store.Repr))
      ensures forall j | j != instanceId :: store.View(j) == old(store.View(j))
      ensures var v := old(store.View(instanceId)).(snapshot := Some(mem[..]));
              store.View(instanceId) ==
                if meta.version <= 1 || stopAfter == 2 then v
                else if stopAfter == 3 then v.(oplog := Truncated(v.oplog, callIndex))
                else v.(oplog := Truncated(v.oplog, callIndex), deltas := map[])
      ensures o == if meta.version <= 1 || stopAfter >= 4 then Saved else Stopped
    {
      hide Truncated, MemorySnapshotStore.View, MemorySnapshotStore.Valid;
      var copied := CopyOf(mem);
      store.Save(instanceId, copied);
      if meta.version > 1 {
        if stopAfter == 2 {
          return Stopped;
        }
        store.TruncateOplog(instanceId, callIndex);
        if stopAfter == 3 {
          return Stopped;
        }
        store.TruncateDeltas(instanceId);
      }
      o := Saved;
    }

    method SaveDirty(store: MemorySnapshotStore)
      requires store.Valid() && mem !in store.Repr
      modifies store, this`pageHashes
      ensures store.Valid() && fresh(store.Repr - old(store.Repr))
      ensures forall j | j != instanceId :: store.View(j) == old(store.View(j))
      ensures store.View(instanceId) == old(store.View(instanceId)).(
                deltas := old(store.View(instanceId)).deltas + Dirty(old(pageHashes), mem[..]))
      ensures pageHashes == old(pageHashes) + HashTable(mem[..])
    {
      hide Dirty, HashTable, BlocksOf, MemorySnapshotStore.View, MemorySnapshotStore.Valid;
      ghost var inst := store.View(instanceId);
      var dirty := DirtyBlocks();
      EmptyOrNot(dirty);
      if |dirty| > 0 {
        store.SaveDeltas(instanceId, dirty);
      } else {
        assert inst.deltas + map[] == inst.deltas;
      }
    }

    /** The `checkpoint` host function, on a host that may stop after any number of store writes. */
    method Checkpoint(store: MemorySnapshotStore, stopAfter: nat) returns (o: Outcome)
      requires store.Valid() && mem !in store.Repr && meta.instanceId == instanceId
      modifies store, this`meta, this`pageHashes
      ensures store.Valid() && fresh(store.Repr - old(store.Repr)) && mem !in store.Repr
      ensures forall j | j != instanceId :: store.View(j) == old(store.View(j))
      ensures stopAfter > 0 ==> (o.Conflict? <==> !CasAllowed(old(store.View(instanceId)).meta, old(meta).version))
      ensures store.View(instanceId) ==
              if o.Conflict? then old(store.View(instanceId))
              else AfterWrites(old(store.View(instanceId)), old(AsSess()), stopAfter)
      ensures var before, after, v := old(store.View(instanceId)), store.View(instanceId), old(meta).version + 1;
              var n, full := if o.Conflict? || mem.Length == 0 then 1 else stopAfter, v == 1 || (v > 1 && v % 5 == 0);
              !o.Conflict? && stopAfter > 0 ==>
                && after.meta == Some(old(meta).(wasmHash := engineHash, version := v))
                && after.snapshot == (if full && n >= 2 then Some(mem[..]) else before.snapshot)
                && after.oplog == (if full && v > 1 && n >= 3 then Truncated(before.oplog, callIndex) else before.oplog)
                && (full ==> after.deltas == if v > 1 && n >= 4 then map[] else before.deltas)
                && (!full && n < 2 ==> after.deltas == before.deltas)
      ensures o.Saved? ==> AsSess() == NextSess(old(AsSess()))
      ensures stopAfter > 0 ==> (o.EmptyMemory? <==> !o.Conflict? && mem.Length == 0)
      ensures stopAfter >= 4 ==> !o.Stopped?
      ensures meta.instanceId == instanceId
    {
      hide Dirty, HashTable, Truncated, MemorySnapshotStore.View, MemorySnapshotStore.Valid;
      if stopAfter == 0 {
        return Stopped;
      }
      meta := meta.(wasmHash := engineHash);
      var ok, next := store.SaveMetadata(meta);
      meta := next;
      if !ok {
        return Conflict;
      }
      if mem.Length == 0 {
        return EmptyMemory;
      }
      if stopAfter == 1 {
        return Stopped;
      }
      if IsFull(meta.version) {
        o := SaveFull(store, stopAfter);
      } else {
        SaveDirty(store);
        o := Saved;
      }
    }

    /** The live memory is whole pages within its limit and is not one of the store's slices. */
    ghost predicate Restorable(store: MemorySnapshotStore)
      reads this, store, store.Repr
    {
      && store.Valid() && mem !in store.Repr
      && Fits()
      && FitBlocks(store.View(instanceId).deltas)
    }
  }

  predicate HasSnapshot(inst: Inst) {
    inst.snapshot.Some? && |inst.snapshot.value| > 0
  }

  /** Page counts of 32 bits can express the sizes. */
  ghost predicate Addressable(inst: Inst) {
    && (inst.snapshot.Some? ==> Pages(|inst.snapshot.value|) < 0x1_0000_0000)
    && Pages(Span(inst.deltas)) < 0x1_0000_0000
  }

  lemma AddressableRestores(init: seq<byte>, inst: Inst)
    requires Addressable(inst)
    ensures Rebase32(init, inst.snapshot) == Rebase(init, inst.snapshot)
    ensures |Rebase(init, inst.snapshot)| <= |Restored(init, inst)|
  {
    Rebase32IsRebase(init, inst.snapshot);
  }

  /** The scan for the largest block index, in whatever order the map yields them. */
  method LargestIndex(keys: set<int>) returns (largest: int)
    ensures largest == MaxIndex(keys)
  {
    largest := 0;
    var rest := keys;
    while rest != {}
      invariant rest <= keys && largest >= 0
      invariant largest == 0 || largest in keys
      invariant forall k | k in keys && k !in rest :: k <= largest
      decreases |rest|
    {
      NonemptyHasMember(rest);
      var idx :| idx in rest;
      if idx > largest {
        largest := idx;
      }
      rest := rest - {idx};
    }
  }

}
