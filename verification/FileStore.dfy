/**
 The file-system snapshot store: one file per instance and kind of data. File contents are modelled
 as what they decode to, since the gzip and JSON codecs lose nothing.
 */
module FileStore {
  import opened Bytes
  import opened Blocks
  import opened Protocol

  datatype Kind = SnapshotFile | DeltasFile | OplogFile | MetaFile

  datatype Content =
    | Snapshot(bytes: seq<byte>)
    | Deltas(blocks: BlockMap)
    | Log(entries: seq<OplogEntry>)
    | Meta(meta: InstanceMeta)
    | Wasm(code: seq<byte>)

  function Suffix(kind: Kind): string {
    match kind
    case SnapshotFile => ".bin"
    case DeltasFile => "_deltas.json"
    case OplogFile => "_oplog.json"
    case MetaFile => "_meta.json"
  }

  function InDir(dir: string, name: string): string {
    if dir != "" then dir + "/" + name else name
  }

  function Path(dir: string, kind: Kind, id: string): string {
    InDir(dir, id + Suffix(kind))
  }

  function WasmPath(dir: string, hash: string): string {
    InDir(dir, "wasm_" + hash + ".wasm")
  }

  lemma InDirIsInjective(dir: string, a: string, b: string)
    requires InDir(dir, a) == InDir(dir, b)
    ensures a == b
  {
    if dir != "" {
      assert InDir(dir, a)[|dir| + 1..] == a;
      assert InDir(dir, b)[|dir| + 1..] == b;
    }
  }

  /** The last characters of a file name, which tell its kind. */
  function Mark(kind: Kind): (char, char) {
    match kind
    case SnapshotFile => ('i', '.')
    case DeltasFile => ('o', 's')
    case OplogFile => ('o', 'g')
    case MetaFile => ('o', 'a')
  }

  lemma SuffixMark(kind: Kind)
    ensures var s := Suffix(kind);
            && |s| >= 4 && s[|s| - 1] == 'n' && s[|s| - 2] == Mark(kind).0
            && (kind != SnapshotFile ==> |s| >= 6 && s[|s| - 6] == Mark(kind).1)
  {
    match kind
    case SnapshotFile => assert ".bin"[2] == 'i';
    case DeltasFile => assert "_deltas.json"[10] == 'o' && "_deltas.json"[6] == 's';
    case OplogFile => assert "_oplog.json"[9] == 'o' && "_oplog.json"[5] == 'g';
    case MetaFile => assert "_meta.json"[8] == 'o' && "_meta.json"[4] == 'a';
  }

  lemma CharFromTheEnd(a: string, s: string, i: nat)
    requires 1 <= i <= |s|
    ensures (a + s)[|a + s| - i] == s[|s| - i]
  {
  }

  lemma SuffixTellsKind(a: string, k: Kind, b: string, l: Kind)
    requires a + Suffix(k) == b + Suffix(l)
    ensures k == l && a == b
  {
    SuffixMark(k);
    SuffixMark(l);
    CharFromTheEnd(a, Suffix(k), 2);
    CharFromTheEnd(b, Suffix(l), 2);
    var n := a + Suffix(k);
    if k != SnapshotFile {
      CharFromTheEnd(a, Suffix(k), 6);
    }
    if l != SnapshotFile {
      CharFromTheEnd(b, Suffix(l), 6);
    }
    hide Suffix;
    assert Mark(k) == Mark(l) || k == SnapshotFile;
    assert a == n[..|n| - |Suffix(k)|] && b == n[..|n| - |Suffix(l)|];
  }

  /** File names are injective over kind and instance id. */
  lemma PathIsInjective(dir: string, k: Kind, id: string, l: Kind, id': string)
    requires Path(dir, k, id) == Path(dir, l, id')
    ensures k == l && id == id'
  {
    InDirIsInjective(dir, id + Suffix(k), id' + Suffix(l));
    SuffixTellsKind(id, k, id', l);
  }

  /** No module file is an instance file. */
  lemma WasmPathIsApart(dir: string, hash: string, k: Kind, id: string)
    ensures WasmPath(dir, hash) != Path(dir, k, id)
  {
    var a, b := "wasm_" + hash + ".wasm", id + Suffix(k);
    SuffixMark(k);
    CharFromTheEnd(id, Suffix(k), 1);
    CharFromTheEnd("wasm_" + hash, ".wasm", 1);
    if WasmPath(dir, hash) == Path(dir, k, id) {
      InDirIsInjective(dir, a, b);
    }
  }

  lemma WasmPathIsInjective(dir: string, h: string, h': string)
    requires WasmPath(dir, h) == WasmPath(dir, h')
    ensures h == h'
  {
    InDirIsInjective(dir, "wasm_" + h + ".wasm", "wasm_" + h' + ".wasm");
    var a, b := "wasm_" + h + ".wasm", "wasm_" + h' + ".wasm";
    assert a[5..|a| - 5] == h && b[5..|b| - 5] == h';
  }

  method Merged(current: BlockMap, blocks: BlockMap) returns (r: BlockMap)
    ensures r == current + blocks
  {
    hide Only;
    r := current;
    ghost var done: set<int> := {};
    var rest := blocks.Keys;
    MergeNoneOrAll(current, blocks);
    while rest != {}
      invariant rest <= blocks.Keys && done == blocks.Keys - rest
      invariant r == current + Only(blocks, done)
      decreases |rest|
    {
      NonemptyHasMember(rest);
      var k :| k in rest;
      MergeOneMore(current, blocks, done, k);
      r := r[k := blocks[k]];
      done := done + {k};
      rest := rest - {k};
    }
    assert done == blocks.Keys;
  }

  lemma MergeNoneOrAll(current: BlockMap, blocks: BlockMap)
    ensures current + Only(blocks, {}) == current && Only(blocks, blocks.Keys) == blocks
  {
  }

  lemma MergeOneMore(current: BlockMap, blocks: BlockMap, done: set<int>, k: int)
    requires done <= blocks.Keys && k in blocks
    ensures (current + Only(blocks, done))[k := blocks[k]] == current + Only(blocks, done + {k})
  {
  }

  class FileSnapshotStore {
    const dir: string
    var files: map<string, Content>

    function FileOf(kind: Kind, id: string): Option<Content>
      reads this
    {
      var path := Path(dir, kind, id);
      if path in files then Some(files[path]) else None
    }

    /** Every file holds the kind of data that its name says. */
    ghost predicate Valid()
      reads this
    {
      && (forall id :: FileOf(SnapshotFile, id).Some? ==> FileOf(SnapshotFile, id).value.Snapshot?)
      && (forall id :: FileOf(DeltasFile, id).Some? ==> FileOf(DeltasFile, id).value.Deltas?)
      && (forall id :: FileOf(OplogFile, id).Some? ==> FileOf(OplogFile, id).value.Log?)
      && (forall id :: FileOf(MetaFile, id).Some? ==> FileOf(MetaFile, id).value.Meta?)
      && (forall h :: WasmPath(dir, h) in files ==> files[WasmPath(dir, h)].Wasm?)
    }

    /** What the store holds for an instance. */
    ghost function View(id: string): Inst
      reads this
      requires Valid()
    {
      Inst(match FileOf(MetaFile, id) case Some(f) => Some(f.meta) case None => None,
           match FileOf(SnapshotFile, id) case Some(f) => Some(f.bytes) case None => None,
           match FileOf(DeltasFile, id) case Some(f) => f.blocks case None => map[],
           match FileOf(OplogFile, id) case Some(f) => f.entries case None => [])
    }

    ghost function Module(hash: string): Option<seq<byte>>
      reads this
      requires Valid()
    {
      if WasmPath(dir, hash) in files then Some(files[WasmPath(dir, hash)].code) else None
    }

    constructor (dir: string)
      ensures Valid() && this.dir == dir
      ensures forall id :: View(id) == EMPTY
      ensures forall h :: Module(h) == None
    {
      this.dir := dir;
      files := map[];
    }

    /** Writing one file leaves every other instance, kind and module as it was. */
    method Write(kind: Kind, id: string, c: Content)
      modifies this`files
      ensures FileOf(kind, id) == Some(c)
      ensures forall k, j | k != kind || j != id :: FileOf(k, j) == old(FileOf(k, j))
      ensures forall h :: WasmPath(dir, h) in files <==> WasmPath(dir, h) in old(files)
      ensures forall h | WasmPath(dir, h) in files :: files[WasmPath(dir, h)] == old(files)[WasmPath(dir, h)]
    {
      var path := Path(dir, kind, id);
      files := files[path := c];
      OthersAreApart(kind, id);
    }

    method Remove(kind: Kind, id: string)
      modifies this`files
      ensures FileOf(kind, id) == None
      ensures forall k, j | k != kind || j != id :: FileOf(k, j) == old(FileOf(k, j))
      ensures forall h :: WasmPath(dir, h) in files <==> WasmPath(dir, h) in old(files)
      ensures forall h | WasmPath(dir, h) in files :: files[WasmPath(dir, h)] == old(files)[WasmPath(dir, h)]
    {
      var path := Path(dir, kind, id);
      files := files - {path};
      OthersAreApart(kind, id);
    }

    lemma OthersAreApart(kind: Kind, id: string)
      ensures forall k, j | k != kind || j != id :: Path(dir, k, j) != Path(dir, kind, id)
      ensures forall h :: WasmPath(dir, h) != Path(dir, kind, id)
    {
      forall k, j | k != kind || j != id ensures Path(dir, k, j) != Path(dir, kind, id) {
        if Path(dir, k, j) == Path(dir, kind, id) {
          PathIsInjective(dir, k, j, kind, id);
        }
      }
      forall h ensures WasmPath(dir, h) != Path(dir, kind, id) {
        WasmPathIsApart(dir, h, kind, id);
      }
    }

    method Save(id: string, snapshot: seq<byte>)
      requires Valid()
      modifies this`files
      ensures Valid()
      ensures View(id) == old(View(id)).(snapshot := Some(snapshot))
      ensures forall j | j != id :: View(j) == old(View(j))
      ensures forall h :: Module(h) == old(Module(h))
    {
      hide Path, WasmPath, InDir, Suffix;
      Write(SnapshotFile, id, Snapshot(snapshot));
    }

    method Load(id: string) returns (r: Option<seq<byte>>)
      requires Valid()
      ensures r == View(id).snapshot
    {
      var f := FileOf(SnapshotFile, id);
      r := if f.Some? then Some(f.value.bytes) else None;
    }

    method Delete(id: string)
      requires Valid()
      modifies this`files
      ensures Valid()
      ensures View(id) == EMPTY
      ensures forall j | j != id :: View(j) == old(View(j))
      ensures forall h :: Module(h) == old(Module(h))
    {
      hide Path, WasmPath, InDir, Suffix;
      Remove(SnapshotFile, id);
      Remove(DeltasFile, id);
      Remove(OplogFile, id);
      Remove(MetaFile, id);
    }

    /** Reads the file, overlays the given blocks and writes it back. */
    method SaveDeltas(id: string, blocks: BlockMap)
      requires Valid()
      modifies this`files
      ensures Valid()
      ensures View(id) == old(View(id)).(deltas := old(View(id)).deltas + blocks)
      ensures forall j | j != id :: View(j) == old(View(j))
      ensures forall h :: Module(h) == old(Module(h))
    {
      hide Path, WasmPath, InDir, Suffix;
      var f := FileOf(DeltasFile, id);
      var current := if f.Some? then f.value.blocks else map[];
      current := Merged(current, blocks);
      Write(DeltasFile, id, Deltas(current));
    }

    method LoadDeltas(id: string) returns (r: BlockMap)
      requires Valid()
      ensures r == View(id).deltas
    {
      var f := FileOf(DeltasFile, id);
      r := if f.Some? then f.value.blocks else map[];
    }

    method TruncateDeltas(id: string)
      requires Valid()
      modifies this`files
      ensures Valid()
      ensures View(id) == old(View(id)).(deltas := map[])
      ensures forall j | j != id :: View(j) == old(View(j))
      ensures forall h :: Module(h) == old(Module(h))
    {
      hide Path, WasmPath, InDir, Suffix;
      Remove(DeltasFile, id);
    }

    method SaveOplog(id: string, entry: OplogEntry)
      requires Valid()
      modifies this`files
      ensures Valid()
      ensures View(id) == old(View(id)).(oplog := old(View(id)).oplog + [entry])
      ensures forall j | j != id :: View(j) == old(View(j))
      ensures forall h :: Module(h) == old(Module(h))
    {
      hide Path, WasmPath, InDir, Suffix;
      var f := FileOf(OplogFile, id);
      var list := if f.Some? then f.value.entries else [];
      Write(OplogFile, id, Log(list + [entry]));
    }

    method LoadOplog(id: string) returns (r: seq<OplogEntry>)
      requires Valid()
      ensures r == View(id).oplog
    {
      var f := FileOf(OplogFile, id);
      r := if f.Some? then f.value.entries else [];
    }

    /** A missing file stays missing; otherwise the filtered list is written back, even if empty. */
    method TruncateOplog(id: string, before: int)
      requires Valid()
      modifies this`files
      ensures Valid()
      ensures View(id) == old(View(id)).(oplog := Truncated(old(View(id)).oplog, before))
      ensures forall j | j != id :: View(j) == old(View(j))
      ensures forall h :: Module(h) == old(Module(h))
    {
      hide Path, WasmPath, InDir, Suffix;
      var f := FileOf(OplogFile, id);
      if f.Some? {
        var list := f.value.entries;
        var kept: seq<OplogEntry> := [];
        for i := 0 to |list|
          invariant kept == Truncated(list[..i], before)
        {
          assert list[..i + 1][..i] == list[..i];
          if list[i].callIndex > before {
            kept := kept + [list[i]];
          }
        }
        assert list[..|list|] == list;
        Write(OplogFile, id, Log(kept));
      }
    }

    method SaveMetadata(m: InstanceMeta) returns (ok: bool, m': InstanceMeta)
      requires Valid()
      modifies this`files
      ensures Valid()
      ensures ok <==> CasAllowed(old(View(m.instanceId)).meta, m.version)
      ensures m' == if ok then m.(version := m.version + 1) else m
      ensures View(m.instanceId) == if ok then old(View(m.instanceId)).(meta := Some(m')) else old(View(m.instanceId))
      ensures forall j | j != m.instanceId :: View(j) == old(View(j))
      ensures forall h :: Module(h) == old(Module(h))
    {
      hide Path, WasmPath, InDir, Suffix;
      m' := m;
      var f := FileOf(MetaFile, m.instanceId);
      if f.Some? {
        if m.version == 0 {
          return false, m;
        }
        if f.value.meta.version != m.version {
          return false, m;
        }
      } else if m.version > 0 {
        return false, m;
      }
      m' := m.(version := m.version + 1);
      Write(MetaFile, m.instanceId, Meta(m'));
      ok := true;
    }

    method LoadMetadata(id: string) returns (r: Option<InstanceMeta>)
      requires Valid()
      ensures r == View(id).meta
    {
      var f := FileOf(MetaFile, id);
      r := if f.Some? then Some(f.value.meta) else None;
    }

    /** A module that is already there is left alone: its name is the hash of its bytes. */
    method SaveWasm(hash: string, bytes: seq<byte>)
      requires Valid()
      modifies this`files
      ensures Valid()
      ensures Module(hash) == if old(Module(hash)).Some? then old(Module(hash)) else Some(bytes)
      ensures forall h | h != hash :: Module(h) == old(Module(h))
      ensures forall id :: View(id) == old(View(id))
    {
      var path := WasmPath(dir, hash);
      if path in files {
        return;
      }
      ModulesAreApart(hash);
      hide Path, WasmPath, InDir, Suffix;
      files := files[path := Wasm(bytes)];
      assert forall k, id :: FileOf(k, id) == old(FileOf(k, id));
    }

    lemma ModulesAreApart(hash: string)
      ensures forall h | h != hash :: WasmPath(dir, h) != WasmPath(dir, hash)
      ensures forall k, id :: Path(dir, k, id) != WasmPath(dir, hash)
    {
      forall h | h != hash ensures WasmPath(dir, h) != WasmPath(dir, hash) {
        if WasmPath(dir, h) == WasmPath(dir, hash) {
          WasmPathIsInjective(dir, h, hash);
        }
      }
      forall k, id ensures Path(dir, k, id) != WasmPath(dir, hash) {
        WasmPathIsApart(dir, hash, k, id);
      }
    }

    method LoadWasm(hash: string) returns (r: Option<seq<byte>>)
      requires Valid()
      ensures r == Module(hash)
    {
      var path := WasmPath(dir, hash);
      r := if path in files then Some(files[path].code) else None;
    }
  }
}
