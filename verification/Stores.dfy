/** The store as an abstract object, and both implementations of it run side by side. */
module Stores {
  import opened Bytes
  import opened Blocks
  import opened Protocol
  import opened MemoryStore
  import opened FileStore
  import opened Engine

  /** The operations of the store interface on one instance. */
  datatype Op =
    | Save(id: string, snapshot: seq<byte>)
    | Load(id: string)
    | Delete(id: string)
    | SaveDeltas(id: string, blocks: BlockMap)
    | LoadDeltas(id: string)
    | TruncateDeltas(id: string)
    | SaveOplog(id: string, entry: OplogEntry)
    | LoadOplog(id: string)
    | TruncateOplog(id: string, before: int)
    | SaveMetadata(id: string, meta: InstanceMeta)
    | LoadMetadata(id: string)

  datatype Answer =
    | Done
    | Bytes(bytes: Option<seq<byte>>)
    | Blocks(blocks: BlockMap)
    | Entries(entries: seq<OplogEntry>)
    | Swapped(ok: bool, next: InstanceMeta)
    | Metadata(meta: Option<InstanceMeta>)
    | Code(code: Option<seq<byte>>)

  /** A call of the store interface: on an instance, or on the module registry. */
  datatype Request =
    | OnInstance(op: Op)
    | SaveWasm(hash: string, code: seq<byte>)
    | LoadWasm(hash: string)

  predicate WellFormed(op: Op) {
    op.SaveMetadata? ==> op.meta.instanceId == op.id
  }

  function Effect(inst: Inst, op: Op): Inst {
    match op
    case Save(_, snapshot) => inst.(snapshot := Some(snapshot))
    case Delete(_) => EMPTY
    case SaveDeltas(_, blocks) => inst.(deltas := inst.deltas + blocks)
    case TruncateDeltas(_) => inst.(deltas := map[])
    case SaveOplog(_, entry) => inst.(oplog := inst.oplog + [entry])
    case TruncateOplog(_, before) => inst.(oplog := Truncated(inst.oplog, before))
    case SaveMetadata(_, m) =>
      if CasAllowed(inst.meta, m.version) then inst.(meta := Some(m.(version := m.version + 1))) else inst
    case _ => inst
  }

  function AnswerOf(inst: Inst, op: Op): Answer {
    match op
    case Load(_) => Bytes(inst.snapshot)
    case LoadDeltas(_) => Blocks(inst.deltas)
    case LoadOplog(_) => Entries(inst.oplog)
    case LoadMetadata(_) => Metadata(inst.meta)
    case SaveMetadata(_, m) =>
      if CasAllowed(inst.meta, m.version) then Swapped(true, m.(version := m.version + 1)) else Swapped(false, m)
    case _ => Done
  }

  method DoOnFiles(store: FileSnapshotStore, op: Op) returns (a: Answer)
    requires store.Valid() && WellFormed(op)
    modifies store
    ensures store.Valid()
    ensures a == AnswerOf(old(store.View(op.id)), op)
    ensures store.View(op.id) == Effect(old(store.View(op.id)), op)
    ensures forall j | j != op.id :: store.View(j) == old(store.View(j))
    ensures forall h :: store.Module(h) == old(store.Module(h))
  {
    hide FileSnapshotStore.Module, FileSnapshotStore.View, FileSnapshotStore.Valid, Truncated;
    a := Done;
    match op
    case Save(id, snapshot) => store.Save(id, snapshot);
    case Load(id) =>
      var r := store.Load(id);
      a := Bytes(r);
    case Delete(id) => store.Delete(id);
    case SaveDeltas(id, blocks) => store.SaveDeltas(id, blocks);
    case LoadDeltas(id) =>
      var r := store.LoadDeltas(id);
      a := Blocks(r);
    case TruncateDeltas(id) => store.TruncateDeltas(id);
    case SaveOplog(id, entry) => store.SaveOplog(id, entry);
    case LoadOplog(id) =>
      var r := store.LoadOplog(id);
      a := Entries(r);
    case TruncateOplog(id, before) => store.TruncateOplog(id, before);
    case SaveMetadata(_, m) =>
      var ok, next := store.SaveMetadata(m);
      a := Swapped(ok, next);
    case LoadMetadata(id) =>
      var r := store.LoadMetadata(id);
      a := Metadata(r);
  }

  method ArraysOf(b: BlockMap) returns (d: map<int, array<byte>>)
    ensures BlocksOf(d) == b
  {
    d := map[];
    var rest := b.Keys;
    while rest != {}
      invariant rest <= b.Keys && d.Keys == b.Keys - rest
      invariant forall k | k in d :: d[k][..] == b[k]
      decreases |rest|
    {
      NonemptyHasMember(rest);
      var k :| k in rest;
      var a := ArrayOf(b[k]);
      d := d[k := a];
      rest := rest - {k};
    }
    assert d.Keys == b.Keys;
    HoldsAll(d, b);
  }

  method ValuesOf(l: seq<LogRef>) returns (r: seq<OplogEntry>)
    ensures r == EntriesOf(l)
  {
    r := [];
    for i := 0 to |l|
      invariant r == EntriesOf(l[..i])
    {
      EntriesAppended(l[..i], l[i]);
      assert l[..i + 1] == l[..i] + [l[i]];
      r := r + [OplogEntry(l[i].callIndex, l[i].apiName, l[i].request[..], l[i].response[..])];
    }
    assert l[..|l|] == l;
  }

  method DoInMemory(store: MemorySnapshotStore, op: Op) returns (a: Answer)
    requires store.Valid() && WellFormed(op)
    modifies store
    ensures store.Valid()
    ensures a == AnswerOf(old(store.View(op.id)), op)
    ensures store.View(op.id) == Effect(old(store.View(op.id)), op)
    ensures forall j | j != op.id :: store.View(j) == old(store.View(j))
    ensures forall h :: store.Module(h) == old(store.Module(h))
  {
    hide MemorySnapshotStore.View, MemorySnapshotStore.Valid, Truncated, EntriesOf, BlocksOf;
    a := Done;
    match op
    case Save(id, snapshot) =>
      var bytes := ArrayOf(snapshot);
      store.Save(id, bytes);
    case Load(id) =>
      var r := store.Load(id);
      a := Bytes(if r.Some? then Some(r.value[..]) else None);
    case Delete(id) => store.Delete(id);
    case SaveDeltas(id, blocks) =>
      var slices := ArraysOf(blocks);
      store.SaveDeltas(id, slices);
    case LoadDeltas(id) =>
      var r := store.LoadDeltas(id);
      var values := BlockValues(r);
      a := Blocks(values);
    case TruncateDeltas(id) => store.TruncateDeltas(id);
    case SaveOplog(id, e) =>
      var request := ArrayOf(e.request);
      var response := ArrayOf(e.response);
      assert BytesOf(Whole(request)) == request[..] && BytesOf(Whole(response)) == response[..];
      store.SaveOplog(id, e.callIndex, e.apiName, Whole(request), Whole(response));
    case LoadOplog(id) =>
      var r := store.LoadOplog(id);
      var values := ValuesOf(r);
      a := Entries(values);
    case TruncateOplog(id, before) => store.TruncateOplog(id, before);
    case SaveMetadata(_, m) =>
      var ok, next := store.SaveMetadata(m);
      a := Swapped(ok, next);
    case LoadMetadata(id) =>
      var r := store.LoadMetadata(id);
      a := Metadata(r);
  }

  method BlockValues(d: map<int, array<byte>>) returns (b: BlockMap)
    ensures b == BlocksOf(d)
  {
    b := map k | k in d :: d[k][..];
  }

  /** Modules are content-addressed: a hash comes with the same bytes every time. */
  predicate Proper(r: Request, contents: string -> seq<byte>) {
    match r
    case OnInstance(op) => WellFormed(op)
    case SaveWasm(hash, code) => code == contents(hash)
    case LoadWasm(_) => true
  }

  /** The two stores hold the same for every instance and every hash. */
  ghost predicate Alike(memory: MemorySnapshotStore, disk: FileSnapshotStore, contents: string -> seq<byte>)
    reads memory, memory.Repr, disk
  {
    && memory.Valid() && disk.Valid()
    && (forall id :: memory.View(id) == disk.View(id))
    && (forall h :: memory.Module(h) == disk.Module(h))
    && (forall h :: memory.Module(h).Some? ==> memory.Module(h).value == contents(h))
  }

  method SaveModule(memory: MemorySnapshotStore, disk: FileSnapshotStore, hash: string, code: seq<byte>,
                    ghost contents: string -> seq<byte>)
    requires Alike(memory, disk, contents) && code == contents(hash)
    modifies memory, disk
    ensures Alike(memory, disk, contents)
    ensures forall id :: disk.View(id) == old(disk.View(id))
    ensures forall h :: disk.Module(h) == if h == hash then Some(code) else old(disk.Module(h))
  {
    hide MemorySnapshotStore.View, FileSnapshotStore.View, FileSnapshotStore.Valid, FileSnapshotStore.Module;
    var bytes := ArrayOf(code);
    memory.SaveWasm(hash, bytes);
    disk.SaveWasm(hash, code);
  }

  /** The instance or the hash that a request names. */
  function Subject(r: Request): string {
    match r
    case OnInstance(op) => op.id
    case SaveWasm(hash, _) => hash
    case LoadWasm(hash) => hash
  }

  /** The answer of the abstract store, from what it holds under the name. */
  function RightAnswer(r: Request, inst: Inst, code: Option<seq<byte>>): Answer {
    match r
    case OnInstance(op) => AnswerOf(inst, op)
    case SaveWasm(_, _) => Done
    case LoadWasm(_) => Code(code)
  }

  function EffectOn(id: string, inst: Inst, r: Request): Inst {
    if r.OnInstance? && r.op.id == id then Effect(inst, r.op) else inst
  }

  function ModuleOn(hash: string, code: Option<seq<byte>>, r: Request): Option<seq<byte>> {
    if r.SaveWasm? && r.hash == hash then Some(r.code) else code
  }

  method Answers(memory: MemorySnapshotStore, disk: FileSnapshotStore, r: Request, ghost contents: string -> seq<byte>)
    returns (inMemory: Answer, onDisk: Answer)
    requires disk.Valid() && Alike(memory, disk, contents) && Proper(r, contents)
    modifies memory, disk
    ensures disk.Valid() && Alike(memory, disk, contents)
    ensures inMemory == onDisk == RightAnswer(r, old(disk.View(Subject(r))), old(disk.Module(Subject(r))))
    ensures forall id :: disk.View(id) == EffectOn(id, old(disk.View(id)), r)
    ensures forall h :: disk.Module(h) == ModuleOn(h, old(disk.Module(h)), r)
  {
    hide MemorySnapshotStore.View, FileSnapshotStore.View, FileSnapshotStore.Valid, FileSnapshotStore.Module,
         Effect, AnswerOf;
    match r
    case OnInstance(op) =>
      inMemory := DoInMemory(memory, op);
      onDisk := DoOnFiles(disk, op);
    case SaveWasm(hash, code) =>
      SaveModule(memory, disk, hash, code, contents);
      inMemory, onDisk := Done, Done;
    case LoadWasm(hash) =>
      var bytes := memory.LoadWasm(hash);
      var code := disk.LoadWasm(hash);
      inMemory, onDisk := Code(if bytes.Some? then Some(bytes.value[..]) else None), Code(code);
  }

  /** What an instance holds after the requests, which depends only on those that name it. */
  function AfterAll(id: string, inst: Inst, requests: seq<Request>): Inst {
    if requests == [] then inst
    else EffectOn(id, AfterAll(id, inst, requests[..|requests| - 1]), requests[|requests| - 1])
  }

  /** What the registry holds under a hash after the requests. */
  function ModuleAfterAll(hash: string, code: Option<seq<byte>>, requests: seq<Request>): Option<seq<byte>> {
    if requests == [] then code
    else ModuleOn(hash, ModuleAfterAll(hash, code, requests[..|requests| - 1]), requests[|requests| - 1])
  }

  lemma AfterOneMore(requests: seq<Request>, i: nat)
    requires i < |requests|
    ensures forall id, inst ::
              AfterAll(id, inst, requests[..i + 1]) == EffectOn(id, AfterAll(id, inst, requests[..i]), requests[i])
    ensures forall h, code ::
              ModuleAfterAll(h, code, requests[..i + 1])
              == ModuleOn(h, ModuleAfterAll(h, code, requests[..i]), requests[i])
  {
    assert requests[..i + 1][..i] == requests[..i];
  }

  lemma AfterNone()
    ensures forall id, inst :: AfterAll(id, inst, []) == inst
    ensures forall h, code :: ModuleAfterAll(h, code, []) == code
  {
  }

  /**
   One abstract store. Whatever the sequence of requests on whatever instances and modules, the two
   stores answer alike, and as the abstract store does, at every step; and every instance and module
   ends up as the requests that name it make it.
   */
  method RunSideBySide(memory: MemorySnapshotStore, disk: FileSnapshotStore, requests: seq<Request>,
                       ghost contents: string -> seq<byte>)
    returns (inMemory: seq<Answer>, onDisk: seq<Answer>)
    requires disk.Valid() && Alike(memory, disk, contents)
    requires forall i | 0 <= i < |requests| :: Proper(requests[i], contents)
    modifies memory, disk
    ensures disk.Valid() && Alike(memory, disk, contents)
    ensures inMemory == onDisk && |onDisk| == |requests|
    ensures forall i | 0 <= i < |requests| ::
              var id := Subject(requests[i]);
              onDisk[i] == RightAnswer(requests[i], AfterAll(id, old(disk.View(id)), requests[..i]),
                                       ModuleAfterAll(id, old(disk.Module(id)), requests[..i]))
    ensures forall id :: disk.View(id) == AfterAll(id, old(disk.View(id)), requests)
    ensures forall h :: disk.Module(h) == ModuleAfterAll(h, old(disk.Module(h)), requests)
  {
    hide FileSnapshotStore.View, FileSnapshotStore.Module, FileSnapshotStore.Valid, Alike, Proper,
         EffectOn, ModuleOn, RightAnswer, Subject, AfterAll, ModuleAfterAll;
    AfterNone();
    assert requests[..0] == [];
    inMemory, onDisk := [], [];
    for i := 0 to |requests|
      invariant disk.Valid() && Alike(memory, disk, contents)
      invariant inMemory == onDisk && |onDisk| == i
      invariant forall k | 0 <= k < i ::
                  var id := Subject(requests[k]);
                  onDisk[k] == RightAnswer(requests[k], AfterAll(id, old(disk.View(id)), requests[..k]),
                                           ModuleAfterAll(id, old(disk.Module(id)), requests[..k]))
      invariant forall id :: disk.View(id) == AfterAll(id, old(disk.View(id)), requests[..i])
      invariant forall h :: disk.Module(h) == ModuleAfterAll(h, old(disk.Module(h)), requests[..i])
    {
      var a, b := Answers(memory, disk, requests[i], contents);
      inMemory := inMemory + [a];
      onDisk := onDisk + [b];
      AfterOneMore(requests, i);
    }
    assert requests[..|requests|] == requests;
  }

  /** Both stores from their constructors on: every answer follows from the requests alone. */
  method RunNewStores(dir: string, requests: seq<Request>, ghost contents: string -> seq<byte>)
    returns (inMemory: seq<Answer>, onDisk: seq<Answer>)
    requires forall i | 0 <= i < |requests| :: Proper(requests[i], contents)
    ensures inMemory == onDisk && |onDisk| == |requests|
    ensures forall i | 0 <= i < |requests| ::
              var id := Subject(requests[i]);
              onDisk[i] == RightAnswer(requests[i], AfterAll(id, EMPTY, requests[..i]),
                                       ModuleAfterAll(id, None, requests[..i]))
  {
    var memory := new MemorySnapshotStore();
    var disk := new FileSnapshotStore(dir);
    assert Alike(memory, disk, contents);
    hide FileSnapshotStore.View, FileSnapshotStore.Module, FileSnapshotStore.Valid, Alike, Proper,
         AfterAll, ModuleAfterAll, RightAnswer, Subject;
    inMemory, onDisk := RunSideBySide(memory, disk, requests, contents);
  }
}
