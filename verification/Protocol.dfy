/**
 What a snapshot store holds for one instance, and the checkpoint and restore protocol over it,
 as functions. The classes MemoryStore, FileStore and Engine are proved against these.
 */
module Protocol {
  import opened Bytes
  import opened Fnv
  import opened Blocks

  /** The part of the metadata that belongs to a BPMN process. */
  datatype Process = Process(
    processId: string, definitionHash: string, businessKey: string, state: Option<seq<byte>>, completed: bool)

  const NO_PROCESS := Process("", "", "", None, false)

  datatype InstanceMeta = InstanceMeta(
    instanceId: string, wasmHash: string, version: int, etag: string, process: Process)

  datatype OplogEntry = OplogEntry(callIndex: int, apiName: seq<byte>, request: seq<byte>, response: seq<byte>)

  /** Everything stored under one instance id. Absent deltas and an absent oplog read as empty. */
  datatype Inst = Inst(
    meta: Option<InstanceMeta>, snapshot: Option<seq<byte>>, deltas: BlockMap, oplog: seq<OplogEntry>)

  const EMPTY := Inst(None, None, map[], [])

  /** The compare half of the metadata compare-and-swap. */
  predicate CasAllowed(existing: Option<InstanceMeta>, version: int) {
    match existing
    case Some(e) => version != 0 && e.version == version
    case None => version <= 0
  }

  function Version(inst: Inst): int {
    if inst.meta.Some? then inst.meta.value.version else 0
  }

  function Truncated(oplog: seq<OplogEntry>, before: int): seq<OplogEntry> {
    if oplog == [] then []
    else
      var kept := Truncated(oplog[..|oplog| - 1], before);
      if oplog[|oplog| - 1].callIndex > before then kept + [oplog[|oplog| - 1]] else kept
  }

  /** The part of a session that a checkpoint reads. */
  datatype Sess = Sess(meta: InstanceMeta, engineHash: string, table: map<int, nat>, callIndex: int, mem: seq<byte>)

  predicate IsFull(version: int) {
    version == 1 || (version > 1 && version % 5 == 0)
  }

  /** The blocks whose hash is missing from the table or differs from it. */
  function Dirty(table: map<int, nat>, m: seq<byte>): BlockMap {
    map i | 0 <= i < NumBlocks(m) && !(i in table && table[i] == Sum64(Block(m, i))) :: Block(m, i)
  }

  function NextMeta(s: Sess): InstanceMeta {
    s.meta.(wasmHash := s.engineHash, version := s.meta.version + 1)
  }

  /**
   The store after the first `n` writes of a checkpoint whose compare-and-swap succeeds: metadata,
   then either snapshot, oplog truncation and delta truncation, or the dirty blocks.
   A host that stops in the middle leaves one of these; 4 writes complete every checkpoint.
   */
  function AfterWrites(inst: Inst, s: Sess, n: nat): Inst {
    var v := s.meta.version + 1;
    var i1 := if n >= 1 then inst.(meta := Some(NextMeta(s))) else inst;
    if |s.mem| == 0 then i1
    else if IsFull(v) then
      var i2 := if n >= 2 then i1.(snapshot := Some(s.mem)) else i1;
      var i3 := if n >= 3 && v > 1 then i2.(oplog := Truncated(inst.oplog, s.callIndex)) else i2;
      if n >= 4 && v > 1 then i3.(deltas := map[]) else i3
    else if n >= 2 then i1.(deltas := inst.deltas + Dirty(s.table, s.mem))
    else i1
  }

  function Checkpointed(inst: Inst, s: Sess): Inst {
    AfterWrites(inst, s, 4)
  }

  /** The session after a completed checkpoint: only an incremental one refreshes the table. */
  function NextSess(s: Sess): Sess {
    s.(meta := NextMeta(s),
       table := if IsFull(s.meta.version + 1) then s.table else s.table + HashTable(s.mem))
  }

  ghost function Restored(init: seq<byte>, inst: Inst): seq<byte> {
    Restore(init, inst.snapshot, inst.deltas)
  }

  function Hashes(d: BlockMap): map<int, nat> {
    map k | k in d :: Sum64(d[k])
  }

  /** The hash table built while restoring. */
  function OpenTable(init: seq<byte>, inst: Inst): map<int, nat> {
    (if inst.snapshot.Some? && |inst.snapshot.value| > 0 then HashTable(Rebase(init, inst.snapshot)) else map[])
    + Hashes(inst.deltas)
  }

  /** The metadata a session starts with: what is stored, or a new record at version 0. */
  function OpenMeta(id: string, engineHash: string, inst: Inst): InstanceMeta {
    if inst.meta.Some? then inst.meta.value else InstanceMeta(id, engineHash, 0, "", NO_PROCESS)
  }
}
