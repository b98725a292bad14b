/**
 The in-memory snapshot store, on the heap: every byte slice it keeps is its own copy, so that
 nothing the guest writes later can reach it.
 */
module MemoryStore {
  import opened Bytes
  import opened Blocks
  import opened Protocol

  /** An oplog entry with its payload slices. */
  datatype LogRef = LogRef(callIndex: int, apiName: seq<byte>, request: array<byte>, response: array<byte>)

  method CopyOf(a: array<byte>) returns (c: array<byte>)
    ensures fresh(c) && c[..] == a[..]
  {
    c := new byte[a.Length](_ => 0);
    for i := 0 to a.Length
      invariant c[..i] == a[..i]
    {
      c[i] := a[i];
    }
  }

  /** A part of an array, such as a range of guest memory. */
  datatype Slice = Slice(a: array<byte>, lo: nat, hi: nat)

  predicate Within(x: Slice) {
    x.lo <= x.hi <= x.a.Length
  }

  ghost function BytesOf(x: Slice): seq<byte>
    reads x.a
    requires Within(x)
  {
    x.a[x.lo..x.hi]
  }

  function Whole(a: array<byte>): (x: Slice)
    ensures Within(x)
  {
    Slice(a, 0, a.Length)
  }

  method CopySlice(x: Slice) returns (c: array<byte>)
    requires Within(x)
    ensures fresh(c) && c[..] == BytesOf(x)
  {
    c := new byte[x.hi - x.lo](_ => 0);
    for i := 0 to c.Length
      invariant c[..i] == x.a[x.lo..x.lo + i]
    {
      c[i] := x.a[x.lo + i];
    }
  }

  function BlockSlices(d: map<int, array<byte>>): set<array<byte>> {
    set k | k in d :: d[k]
  }

  ghost function BlocksOf(d: map<int, array<byte>>): BlockMap
    reads BlockSlices(d)
  {
    map k | k in d :: d[k][..]
  }

  method CopyBlocks(d: map<int, array<byte>>) returns (c: map<int, array<byte>>)
    ensures fresh(BlockSlices(c)) && BlocksOf(c) == BlocksOf(d)
  {
    c := map[];
    var rest := d.Keys;
    while rest != {}
      invariant rest <= d.Keys && c.Keys == d.Keys - rest
      invariant forall k | k in c :: fresh(c[k])
      invariant forall k | k in c :: c[k][..] == d[k][..]
      decreases |rest|
    {
      NonemptyHasMember(rest);
      var k :| k in rest;
      var copied := CopyOf(d[k]);
      c := c[k := copied];
      rest := rest - {k};
    }
    assert c.Keys == d.Keys;
    SameBlocks(c, d);
  }

  lemma SameBlocks(c: map<int, array<byte>>, d: map<int, array<byte>>)
    requires c.Keys == d.Keys && forall k | k in c :: c[k][..] == d[k][..]
    ensures BlocksOf(c) == BlocksOf(d)
  {
    assert BlocksOf(c).Keys == BlocksOf(d).Keys;
    forall k | k in c ensures BlocksOf(c)[k] == BlocksOf(d)[k] {
    }
  }

  lemma MergedBlocks(c: map<int, array<byte>>, d: map<int, array<byte>>)
    ensures BlocksOf(c + d) == BlocksOf(c) + BlocksOf(d)
    ensures BlockSlices(c + d) <= BlockSlices(c) + BlockSlices(d)
  {
  }

  method Merge(current: map<int, array<byte>>, blocks: map<int, array<byte>>) returns (merged: map<int, array<byte>>)
    ensures BlocksOf(merged) == old(BlocksOf(current)) + old(BlocksOf(blocks))
    ensures fresh(BlockSlices(merged) - BlockSlices(current))
  {
    var copies := CopyBlocks(blocks);
    MergedBlocks(current, copies);
    merged := current + copies;
  }

  function Slices(l: seq<LogRef>): set<array<byte>> {
    if l == [] then {} else Slices(l[..|l| - 1]) + {l[|l| - 1].request, l[|l| - 1].response}
  }

  ghost function EntriesOf(l: seq<LogRef>): seq<OplogEntry>
    reads Slices(l)
  {
    if l == [] then []
    else
      var e := l[|l| - 1];
      EntriesOf(l[..|l| - 1]) + [OplogEntry(e.callIndex, e.apiName, e.request[..], e.response[..])]
  }

  lemma NoSlices()
    ensures BlockSlices(map[]) == {} && Slices([]) == {}
    ensures BlocksOf(map[]) == map[] && EntriesOf([]) == []
  {
  }

  lemma EntriesAppended(l: seq<LogRef>, e: LogRef)
    ensures Slices(l + [e]) == Slices(l) + {e.request, e.response}
    ensures EntriesOf(l + [e]) == EntriesOf(l) + [OplogEntry(e.callIndex, e.apiName, e.request[..], e.response[..])]
  {
    assert (l + [e])[..|l|] == l;
  }

  /** Appends an entry with copies of the payloads. */
  method Append(l: seq<LogRef>, callIndex: int, apiName: seq<byte>, request: Slice, response: Slice)
    returns (r: seq<LogRef>)
    requires Within(request) && Within(response)
    ensures EntriesOf(r) == EntriesOf(l) + [OplogEntry(callIndex, apiName, BytesOf(request), BytesOf(response))]
    ensures fresh(Slices(r) - Slices(l))
  {
    var req := CopySlice(request);
    var resp := CopySlice(response);
    EntriesAppended(l, LogRef(callIndex, apiName, req, resp));
    r := l + [LogRef(callIndex, apiName, req, resp)];
  }

  lemma TruncatedAppended(l: seq<OplogEntry>, e: OplogEntry, before: int)
    ensures Truncated(l + [e], before) == Truncated(l, before) + if e.callIndex > before then [e] else []
  {
    assert (l + [e])[..|l|] == l;
  }

  method Filter(l: seq<LogRef>, before: int) returns (kept: seq<LogRef>)
    ensures Slices(kept) <= Slices(l)
    ensures EntriesOf(kept) == Truncated(EntriesOf(l), before)
  {
    kept := [];
    for i := 0 to |l|
      invariant Slices(kept) <= Slices(l[..i])
      invariant EntriesOf(kept) == Truncated(EntriesOf(l[..i]), before)
    {
      hide Slices, EntriesOf, Truncated;
      EntriesAppended(l[..i], l[i]);
      assert l[..i + 1] == l[..i] + [l[i]];
      ghost var e := OplogEntry(l[i].callIndex, l[i].apiName, l[i].request[..], l[i].response[..]);
      TruncatedAppended(EntriesOf(l[..i]), e, before);
      if l[i].callIndex > before {
        EntriesAppended(kept, l[i]);
        kept := kept + [l[i]];
      }
    }
    assert l[..|l|] == l;
  }

  class MemorySnapshotStore {
    var snapshots: map<string, array<byte>>
    var deltas: map<string, map<int, array<byte>>>
    var oplogs: map<string, seq<LogRef>>
    var meta: map<string, InstanceMeta>
    var wasm: map<string, array<byte>>

    ghost var Repr: set<array<byte>>  // every byte slice that the store holds

    ghost predicate Valid()
      reads this
    {
      && (forall id | id in snapshots :: snapshots[id] in Repr)
      && (forall id | id in deltas :: BlockSlices(deltas[id]) <= Repr)
      && (forall id | id in oplogs :: Slices(oplogs[id]) <= Repr)
      && (forall h | h in wasm :: wasm[h] in Repr)
    }

    ghost function MetaOf(id: string): Option<InstanceMeta>
      reads this`meta
    {
      if id in meta then Some(meta[id]) else None
    }

    ghost function SnapshotOf(id: string): Option<seq<byte>>
      reads this`snapshots, if id in snapshots then {snapshots[id]} else {}
    {
      if id in snapshots then Some(snapshots[id][..]) else None
    }

    ghost function DeltasOf(id: string): BlockMap
      reads this`deltas, if id in deltas then BlockSlices(deltas[id]) else {}
    {
      if id in deltas then BlocksOf(deltas[id]) else map[]
    }

    ghost function OplogOf(id: string): seq<OplogEntry>
      reads this`oplogs, if id in oplogs then Slices(oplogs[id]) else {}
    {
      if id in oplogs then EntriesOf(oplogs[id]) else []
    }

    /** What the store holds for an instance. */
    ghost function View(id: string): Inst
      reads this, Repr
      requires Valid()
    {
      Inst(MetaOf(id), SnapshotOf(id), DeltasOf(id), OplogOf(id))
    }

    ghost function Module(hash: string): Option<seq<byte>>
      reads this`wasm, if hash in wasm then {wasm[hash]} else {}
    {
      if hash in wasm then Some(wasm[hash][..]) else None
    }

    constructor ()
      ensures Valid() && Repr == {}
      ensures forall id :: View(id) == EMPTY
      ensures forall h :: Module(h) == None
    {
      snapshots, deltas, oplogs, meta, wasm := map[], map[], map[], map[], map[];
      Repr := {};
    }

    method Save(id: string, snapshot: array<byte>)
      requires Valid()
      modifies this`snapshots, this`Repr
      ensures Valid() && Repr >= old(Repr) && fresh(Repr - old(Repr))
      ensures View(id) == old(View(id)).(snapshot := Some(old(snapshot[..])))
      ensures forall j | j != id :: View(j) == old(View(j))
    {
      hide BlockSlices, Slices, EntriesOf, BlocksOf;
      var copied := CopyOf(snapshot);
      snapshots := snapshots[id := copied];
      Repr := Repr + {copied};
    }

    /** The store's own slice, not a copy: callers must not write to it. */
    method Load(id: string) returns (r: Option<array<byte>>)
      requires Valid()
      ensures r.Some? <==> View(id).snapshot.Some?
      ensures r.Some? ==> r.value in Repr && r.value[..] == View(id).snapshot.value
    {
      r := if id in snapshots then Some(snapshots[id]) else None;
    }

    method Delete(id: string)
      requires Valid()
      modifies this`snapshots, this`deltas, this`oplogs, this`meta
      ensures Valid()
      ensures View(id) == EMPTY
      ensures forall j | j != id :: View(j) == old(View(j))
    {
      hide BlockSlices, Slices, BlocksOf, EntriesOf;
      snapshots := snapshots - {id};
      deltas := deltas - {id};
      oplogs := oplogs - {id};
      meta := meta - {id};
    }

    /** Overlays the given blocks, copied, on those already held. */
    method SaveDeltas(id: string, blocks: map<int, array<byte>>)
      requires Valid()
      modifies this`deltas, this`Repr
      ensures Valid() && Repr >= old(Repr) && fresh(Repr - old(Repr))
      ensures View(id) == old(View(id)).(deltas := old(View(id)).deltas + old(BlocksOf(blocks)))
      ensures forall j | j != id :: View(j) == old(View(j))
    {
      hide Slices, EntriesOf, BlockSlices, BlocksOf;
      NoSlices();
      var current := if id in deltas then deltas[id] else map[];
      assert BlocksOf(current) == DeltasOf(id);
      var merged := Merge(current, blocks);
      deltas := deltas[id := merged];
      Repr := Repr + BlockSlices(merged);
    }

    method LoadDeltas(id: string) returns (r: map<int, array<byte>>)
      requires Valid()
      ensures BlockSlices(r) <= Repr
      ensures BlocksOf(r) == View(id).deltas
    {
      r := if id in deltas then deltas[id] else map[];
    }

    method TruncateDeltas(id: string)
      requires Valid()
      modifies this`deltas
      ensures Valid()
      ensures View(id) == old(View(id)).(deltas := map[])
      ensures forall j | j != id :: View(j) == old(View(j))
    {
      deltas := deltas - {id};
    }

    method SaveOplog(id: string, callIndex: int, apiName: seq<byte>, request: Slice, response: Slice)
      requires Valid() && Within(request) && Within(response)
      modifies this`oplogs, this`Repr
      ensures Valid() && Repr >= old(Repr) && fresh(Repr - old(Repr))
      ensures View(id) == old(View(id)).(oplog := old(View(id)).oplog
                            + [OplogEntry(callIndex, apiName, old(BytesOf(request)), old(BytesOf(response)))])
      ensures forall j | j != id :: View(j) == old(View(j))
    {
      hide BlockSlices, Slices, EntriesOf, BlocksOf;
      NoSlices();
      var list := if id in oplogs then oplogs[id] else [];
      assert EntriesOf(list) == OplogOf(id);
      var list' := Append(list, callIndex, apiName, request, response);
      oplogs := oplogs[id := list'];
      Repr := Repr + Slices(list');
    }

    method LoadOplog(id: string) returns (r: seq<LogRef>)
      requires Valid()
      ensures Slices(r) <= Repr
      ensures EntriesOf(r) == View(id).oplog
    {
      r := [];
      if id in oplogs {
        r := oplogs[id];
      }
    }

    method TruncateOplog(id: string, before: int)
      requires Valid()
      modifies this`oplogs
      ensures Valid()
      ensures View(id) == old(View(id)).(oplog := Truncated(old(View(id)).oplog, before))
      ensures forall j | j != id :: View(j) == old(View(j))
    {
      hide BlockSlices, Slices, EntriesOf, BlocksOf, Truncated;
      NoSlices();
      var list := if id in oplogs then oplogs[id] else [];
      var kept := Filter(list, before);
      oplogs := oplogs[id := kept];
    }

    /** Compare-and-swap: on success the stored record and the caller's advance to the next version. */
    method SaveMetadata(m: InstanceMeta) returns (ok: bool, m': InstanceMeta)
      requires Valid()
      modifies this`meta
      ensures Valid()
      ensures ok <==> CasAllowed(old(View(m.instanceId)).meta, m.version)
      ensures m' == if ok then m.(version := m.version + 1) else m
      ensures View(m.instanceId) == if ok then old(View(m.instanceId)).(meta := Some(m')) else old(View(m.instanceId))
      ensures forall j | j != m.instanceId :: View(j) == old(View(j))
    {
      m' := m;
      if m.instanceId in meta {
        if m.version == 0 {
          return false, m;
        }
        if meta[m.instanceId].version != m.version {
          return false, m;
        }
      } else if m.version > 0 {
        return false, m;
      }
      m' := m.(version := m.version + 1);
      meta := meta[m.instanceId := m'];
      ok := true;
    }

    method LoadMetadata(id: string) returns (r: Option<InstanceMeta>)
      requires Valid()
      ensures r == View(id).meta
    {
      r := if id in meta then Some(meta[id]) else None;
    }

    method SaveWasm(hash: string, bytes: array<byte>)
      requires Valid()
      modifies this`wasm, this`Repr
      ensures Valid() && Repr >= old(Repr) && fresh(Repr - old(Repr))
      ensures Module(hash) == Some(old(bytes[..]))
      ensures forall h | h != hash :: Module(h) == old(Module(h))
      ensures forall id :: View(id) == old(View(id))
    {
      var copied := CopyOf(bytes);
      wasm := wasm[hash := copied];
      Repr := Repr + {copied};
    }

    method LoadWasm(hash: string) returns (r: Option<array<byte>>)
      requires Valid()
      ensures r.Some? <==> Module(hash).Some?
      ensures r.Some? ==> r.value in Repr && r.value[..] == Module(hash).value
    {
      r := if hash in wasm then Some(wasm[hash]) else None;
    }
  }
}
