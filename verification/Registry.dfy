/**
 The module registry: engines register their module before they compile it, checkpoints record the
 hash of the engine that runs them, and a resume finds the module that the metadata names.
 */
module Registry {
  import opened Bytes
  import opened Protocol
  import opened MemoryStore

  type Sha = seq<byte> -> string
  type Compiler<!M> = seq<byte> -> Option<M>

  datatype Resolved<M> = Module(module_: M) | VersionMismatch | CompileFailed

  /** An engine: its own module's hash, that module compiled, and the other modules it compiled. */
  datatype Engine<M> = Engine(hash: string, compiled: M, cache: map<string, M>)

  /** How far an execution has come in finding its module. */
  datatype Phase<M> = Loaded | Fetched(bytes: seq<byte>) | Found(result: Resolved<M>)

  /** An execution of an instance; required is the hash in the metadata that it loaded. */
  datatype Execution<M> = Execution(engine: nat, instance: string, required: string, phase: Phase<M>)

  /** recorded holds the hash in the stored metadata of every instance. */
  datatype World<M> = World(
    modules: map<string, seq<byte>>,
    recorded: map<string, string>,
    engines: seq<Engine<M>>,
    executions: seq<Execution<M>>)

  /** The single store operations and critical sections of any number of engines and executions. */
  datatype Event =
    | NewEngine(bytes: seq<byte>)
    | LoadMetadata(engine: nat, instance: string)
    | Fetch(execution: nat)
    | Publish(execution: nat)
    | Checkpoint(execution: nat, wins: bool)
    | Delete(instance: string)

  function Start<M>(w: World<M>, sha: Sha, compile: Compiler<M>, bytes: seq<byte>): World<M> {
    var saved := w.(modules := w.modules[sha(bytes) := bytes]);
    match compile(bytes)
    case None => saved
    case Some(m) => saved.(engines := w.engines + [Engine(sha(bytes), m, map[sha(bytes) := m])])
  }

  function Moved<M>(w: World<M>, i: nat, phase: Phase<M>): World<M>
    requires i < |w.executions|
  {
    w.(executions := w.executions[i := w.executions[i].(phase := phase)])
  }

  /** The first look, outside the lock: the engine's own module, a cached one, or the registry's bytes. */
  function FirstLook<M>(e: Engine<M>, registered: Option<seq<byte>>, hash: string): Phase<M> {
    if hash == e.hash then Found(Module(e.compiled))
    else if hash in e.cache then Found(Module(e.cache[hash]))
    else if registered.Some? then Fetched(registered.value)
    else Found(VersionMismatch)
  }

  /** The second look, under the lock: someone else's module, or the bytes compiled and cached. */
  function SecondLook<M>(e: Engine<M>, compile: Compiler<M>, hash: string, bytes: seq<byte>): (Engine<M>, Resolved<M>) {
    if hash in e.cache then (e, Module(e.cache[hash]))
    else
      match compile(bytes)
      case None => (e, CompileFailed)
      case Some(m) => (e.(cache := e.cache[hash := m]), Module(m))
  }

  /** Both looks, with nothing in between. */
  function Resolve<M>(e: Engine<M>, compile: Compiler<M>, registered: Option<seq<byte>>, hash: string)
    : (Engine<M>, Resolved<M>)
  {
    match FirstLook(e, registered, hash)
    case Found(m) => (e, m)
    case Fetched(bytes) => SecondLook(e, compile, hash, bytes)
  }

  class ModuleEngine<M(!new)> {
    const store: MemorySnapshotStore
    const compile: Compiler<M>
    const wasmHash: string
    const compiled: M
    var compiledCache: map<string, M>

    constructor (store: MemorySnapshotStore, compile: Compiler<M>, hash: string, m: M)
      ensures this.store == store && this.compile == compile
      ensures AsEngine() == Engine(hash, m, map[hash := m])
    {
      this.store, this.compile, wasmHash, compiled := store, compile, hash, m;
      compiledCache := map[hash := m];
    }

    ghost function AsEngine(): Engine<M>
      reads this
    {
      Engine(wasmHash, compiled, compiledCache)
    }

    /** The start of an execution: the metadata to go on with, and the module that it names. */
    method Open(id: string) returns (meta: InstanceMeta, found: Resolved<M>)
      requires store.Valid()
      modifies this
      ensures meta == OpenMeta(id, wasmHash, store.View(id))
      ensures match store.View(id).meta
              case None =>
                && meta == InstanceMeta(id, wasmHash, 0, "", NO_PROCESS)
                && found == Module(compiled) && compiledCache == old(compiledCache)
              case Some(stored) =>
                var h := stored.wasmHash;
                && meta == stored
                && if h == wasmHash then found == Module(compiled) && compiledCache == old(compiledCache)
                   else if h in old(compiledCache) then
                     found == Module(old(compiledCache)[h]) && compiledCache == old(compiledCache)
                   else if store.Module(h).None? then found == VersionMismatch && compiledCache == old(compiledCache)
                   else if compile(store.Module(h).value).None? then
                     found == CompileFailed && compiledCache == old(compiledCache)
                   else
                     var m := compile(store.Module(h).value).value;
                     found == Module(m) && compiledCache == old(compiledCache)[h := m]
      ensures (AsEngine(), found) == Resolve(old(AsEngine()), compile, store.Module(meta.wasmHash), meta.wasmHash)
    {
      var stored := store.LoadMetadata(id);
      if stored.None? {
        return InstanceMeta(id, wasmHash, 0, "", NO_PROCESS), Module(compiled);
      }
      meta := stored.value;
      if meta.wasmHash == wasmHash {
        return meta, Module(compiled);
      }
      if meta.wasmHash in compiledCache {
        return meta, Module(compiledCache[meta.wasmHash]);
      }
      var bytes := store.LoadWasm(meta.wasmHash);
      if bytes.None? {
        return meta, VersionMismatch;
      }
      var m := compile(bytes.value[..]);
      if m.None? {
        return meta, CompileFailed;
      }
      compiledCache := compiledCache[meta.wasmHash := m.value];
      found := Module(m.value);
    }
  }

  /** Registers the module first: the bytes stay in the registry even if they do not compile. */
  method Create<M(!new)>(store: MemorySnapshotStore, sha: Sha, compile: Compiler<M>, bytes: array<byte>)
    returns (r: Option<ModuleEngine<M>>)
    requires store.Valid()
    modifies store
    ensures store.Valid() && fresh(store.Repr - old(store.Repr))
    ensures store.Module(sha(old(bytes[..]))) == Some(old(bytes[..]))
    ensures forall h | h != sha(old(bytes[..])) :: store.Module(h) == old(store.Module(h))
    ensures forall id :: store.View(id) == old(store.View(id))
    ensures r.Some? <==> compile(old(bytes[..])).Some?
    ensures r.Some? ==> var m := compile(old(bytes[..])).value;
                        var h := sha(old(bytes[..]));
                        && fresh(r.value) && r.value.store == store && r.value.compile == compile
                        && r.value.AsEngine() == Engine(h, m, map[h := m])
  {
    var hash := sha(bytes[..]);
    var m := compile(bytes[..]);
    store.SaveWasm(hash, bytes);
    if m.None? {
      return None;
    }
    var e := new ModuleEngine<M>(store, compile, hash, m.value);
    r := Some(e);
  }

  predicate Possible<M>(w: World<M>, ev: Event) {
    match ev
    case NewEngine(_) => true
    case LoadMetadata(e, _) => e < |w.engines|
    case Fetch(i) => i < |w.executions| && w.executions[i].phase.Loaded? && w.executions[i].engine < |w.engines|
    case Publish(i) => i < |w.executions| && w.executions[i].phase.Fetched? && w.executions[i].engine < |w.engines|
    case Checkpoint(i, _) =>
      && i < |w.executions| && w.executions[i].engine < |w.engines|
      && w.executions[i].phase.Found? && w.executions[i].phase.result.Module?
    case Delete(_) => true
  }

  /** An event that cannot happen changes nothing. */
  function Next<M>(w: World<M>, sha: Sha, compile: Compiler<M>, ev: Event): World<M> {
    if !Possible(w, ev) then w
    else
      match ev
      case NewEngine(bytes) => Start(w, sha, compile, bytes)
      case LoadMetadata(e, id) =>
        var hash := if id in w.recorded then w.recorded[id] else w.engines[e].hash;
        w.(executions := w.executions + [Execution(e, id, hash, Loaded)])
      case Fetch(i) =>
        var x := w.executions[i];
        var registered := if x.required in w.modules then Some(w.modules[x.required]) else None;
        Moved(w, i, FirstLook(w.engines[x.engine], registered, x.required))
      case Publish(i) =>
        var x := w.executions[i];
        var (e, found) := SecondLook(w.engines[x.engine], compile, x.required, x.phase.bytes);
        Moved(w, i, Found(found)).(engines := w.engines[x.engine := e])
      case Checkpoint(i, wins) =>
        var x := w.executions[i];
        if wins then w.(recorded := w.recorded[x.instance := w.engines[x.engine].hash]) else w
      case Delete(id) => w.(recorded := w.recorded - {id})
  }

  function Run<M>(sha: Sha, compile: Compiler<M>, events: seq<Event>): World<M> {
    if events == [] then World(map[], map[], [], [])
    else Next(Run(sha, compile, events[..|events| - 1]), sha, compile, events[|events| - 1])
  }

  /** The hash names a registered module, and m is that module compiled. */
  ghost predicate Compiles<M>(w: World<M>, compile: Compiler<M>, hash: string, m: M) {
    hash in w.modules && compile(w.modules[hash]) == Some(m)
  }

  ghost predicate Usable<M>(w: World<M>, compile: Compiler<M>, hash: string) {
    hash in w.modules && compile(w.modules[hash]).Some?
  }

  ghost predicate EngineOk<M>(w: World<M>, compile: Compiler<M>, e: Engine<M>) {
    && Compiles(w, compile, e.hash, e.compiled)
    && forall h | h in e.cache :: Compiles(w, compile, h, e.cache[h])
  }

  ghost predicate ExecutionOk<M>(w: World<M>, compile: Compiler<M>, x: Execution<M>) {
    && x.engine < |w.engines|
    && Usable(w, compile, x.required)
    && match x.phase
       case Loaded => true
       case Fetched(bytes) => w.modules[x.required] == bytes
       case Found(found) => found.Module? && Compiles(w, compile, x.required, found.module_)
  }

  /** Every hash in use is registered and compiles, and whatever is cached is its compilation. */
  ghost predicate Closed<M>(w: World<M>, compile: Compiler<M>) {
    && (forall id | id in w.recorded :: Usable(w, compile, w.recorded[id]))
    && (forall e | 0 <= e < |w.engines| :: EngineOk(w, compile, w.engines[e]))
    && (forall i | 0 <= i < |w.executions| :: ExecutionOk(w, compile, w.executions[i]))
  }

  /** The modules engines are started with have different hashes, and so do those in the registry. */
  ghost predicate ContentAddressed<M>(w: World<M>, sha: Sha, ev: Event) {
    ev.NewEngine? && sha(ev.bytes) in w.modules ==> w.modules[sha(ev.bytes)] == ev.bytes
  }

  lemma StartKeepsClosed<M>(w: World<M>, sha: Sha, compile: Compiler<M>, bytes: seq<byte>)
    requires Closed(w, compile) && ContentAddressed(w, sha, NewEngine(bytes))
    ensures Closed(Start(w, sha, compile, bytes), compile)
  {
    var w' := Start(w, sha, compile, bytes);
    assert forall h | h in w.modules :: h in w'.modules && w'.modules[h] == w.modules[h];
    forall e | 0 <= e < |w.engines|
      ensures EngineOk(w', compile, w'.engines[e])
    {
      assert EngineOk(w, compile, w.engines[e]);
    }
    forall i | 0 <= i < |w.executions|
      ensures ExecutionOk(w', compile, w'.executions[i])
    {
      assert ExecutionOk(w, compile, w.executions[i]);
    }
  }

  lemma PublishKeepsClosed<M>(w: World<M>, sha: Sha, compile: Compiler<M>, i: nat)
    requires Closed(w, compile) && Possible(w, Publish(i))
    ensures Closed(Next(w, sha, compile, Publish(i)), compile)
  {
    var w' := Next(w, sha, compile, Publish(i));
    var x := w.executions[i];
    assert ExecutionOk(w, compile, x) && EngineOk(w, compile, w.engines[x.engine]);
    forall e | 0 <= e < |w.engines|
      ensures EngineOk(w', compile, w'.engines[e])
    {
      assert EngineOk(w, compile, w.engines[e]);
    }
    forall j | 0 <= j < |w.executions|
      ensures ExecutionOk(w', compile, w'.executions[j])
    {
      assert ExecutionOk(w, compile, w.executions[j]);
    }
  }

  lemma NextKeepsClosed<M>(w: World<M>, sha: Sha, compile: Compiler<M>, ev: Event)
    requires Closed(w, compile) && ContentAddressed(w, sha, ev)
    ensures Closed(Next(w, sha, compile, ev), compile)
  {
    if Possible(w, ev) {
      match ev
      case NewEngine(bytes) => StartKeepsClosed(w, sha, compile, bytes);
      case Publish(i) => PublishKeepsClosed(w, sha, compile, i);
      case _ =>
        var w' := Next(w, sha, compile, ev);
        assert w'.modules == w.modules && w'.engines == w.engines;
        forall e | 0 <= e < |w.engines|
          ensures EngineOk(w', compile, w'.engines[e])
        {
          assert EngineOk(w, compile, w.engines[e]);
        }
        forall j | 0 <= j < |w'.executions|
          ensures ExecutionOk(w', compile, w'.executions[j])
        {
          if j < |w.executions| {
            assert ExecutionOk(w, compile, w.executions[j]);
            assert EngineOk(w, compile, w.engines[w.executions[j].engine]);
          }
        }
    }
  }

  /** SHA-256 as the registry relies on it: the modules of this run have different hashes. */
  ghost predicate NoClash(sha: Sha, events: seq<Event>) {
    forall i, j | 0 <= i < j < |events| ::
      events[i].NewEngine? && events[j].NewEngine? && sha(events[i].bytes) == sha(events[j].bytes) ==>
        events[i].bytes == events[j].bytes
  }

  lemma {:induction false} RegistryHoldsStartedModules<M>(sha: Sha, compile: Compiler<M>, events: seq<Event>,
                                                          hash: string)
    requires hash in Run(sha, compile, events).modules
    ensures exists k :: 0 <= k < |events| && events[k] == NewEngine(Run(sha, compile, events).modules[hash])
    ensures sha(Run(sha, compile, events).modules[hash]) == hash
    decreases |events|
  {
    if events != [] {
      var init, ev := events[..|events| - 1], events[|events| - 1];
      if ev.NewEngine? && sha(ev.bytes) == hash {
        assert events[|events| - 1] == NewEngine(Run(sha, compile, events).modules[hash]);
      } else {
        RegistryHoldsStartedModules(sha, compile, init, hash);
        var k :| 0 <= k < |init| && init[k] == NewEngine(Run(sha, compile, init).modules[hash]);
        assert events[k] == init[k];
      }
    }
  }

  lemma {:induction false} RunIsClosed<M>(sha: Sha, compile: Compiler<M>, events: seq<Event>)
    requires NoClash(sha, events)
    ensures Closed(Run(sha, compile, events), compile)
    decreases |events|
  {
    if events != [] {
      var init, ev := events[..|events| - 1], events[|events| - 1];
      var w := Run(sha, compile, init);
      RunIsClosed(sha, compile, init);
      if ev.NewEngine? && sha(ev.bytes) in w.modules {
        RegistryHoldsStartedModules(sha, compile, init, sha(ev.bytes));
        var k :| 0 <= k < |init| && init[k] == NewEngine(w.modules[sha(ev.bytes)]);
        assert events[k] == init[k];
      }
      NextKeepsClosed(w, sha, compile, ev);
    }
  }

  /**
   * In every run of any number of engines and executions, no execution fails to find its module, and
   * the one it runs is the compilation of bytes that some engine was started with and that hash to
   * what the metadata named.
   */
  lemma ResumeFindsItsModule<M>(sha: Sha, compile: Compiler<M>, events: seq<Event>, i: nat)
    requires NoClash(sha, events)
    requires i < |Run(sha, compile, events).executions|
    requires Run(sha, compile, events).executions[i].phase.Found?
    ensures var x := Run(sha, compile, events).executions[i];
            x.phase.result.Module? && exists k ::
              && 0 <= k < |events| && events[k].NewEngine?
              && sha(events[k].bytes) == x.required && compile(events[k].bytes) == Some(x.phase.result.module_)
  {
    var w := Run(sha, compile, events);
    RunIsClosed(sha, compile, events);
    var x := w.executions[i];
    assert ExecutionOk(w, compile, x);
    RegistryHoldsStartedModules(sha, compile, events, x.required);
  }

  /** Opening is the machine's two looks with nothing in between. */
  lemma ResolveIsFetchThenPublish<M>(w: World<M>, sha: Sha, compile: Compiler<M>, i: nat)
    requires Possible(w, Fetch(i))
    ensures var x := w.executions[i];
            var registered := if x.required in w.modules then Some(w.modules[x.required]) else None;
            var w' := Next(Next(w, sha, compile, Fetch(i)), sha, compile, Publish(i));
            var (e, found) := Resolve(w.engines[x.engine], compile, registered, x.required);
            && w'.engines == w.engines[x.engine := e]
            && w'.executions == w.executions[i := x.(phase := Found(found))]
            && w'.modules == w.modules && w'.recorded == w.recorded
  {
  }

  /** Every hash in use is registered. */
  predicate Registered<M>(w: World<M>) {
    && (forall id | id in w.recorded :: w.recorded[id] in w.modules)
    && (forall e | 0 <= e < |w.engines| :: w.engines[e].hash in w.modules)
    && (forall i | 0 <= i < |w.executions| ::
          w.executions[i].required in w.modules && w.executions[i].phase != Found(VersionMismatch))
  }

  /** Even if hashes clash, no execution ends in a version mismatch. */
  lemma {:induction false} NeverAVersionMismatch<M>(sha: Sha, compile: Compiler<M>, events: seq<Event>)
    ensures Registered(Run(sha, compile, events))
    decreases |events|
  {
    if events != [] {
      NeverAVersionMismatch(sha, compile, events[..|events| - 1]);
    }
  }

  /**
   * A checkpoint records the hash of the engine, whatever module it runs: the next execution, on any
   * engine, requires the module of the engine that made the checkpoint.
   */
  lemma CheckpointRecordsTheEngine<M>(w: World<M>, sha: Sha, compile: Compiler<M>, i: nat, e: nat)
    requires Possible(w, Checkpoint(i, true)) && e < |w.engines|
    ensures var x := w.executions[i];
            var own := w.engines[x.engine];
            var next := Next(Next(w, sha, compile, Checkpoint(i, true)), sha, compile, LoadMetadata(e, x.instance));
            var found := Next(next, sha, compile, Fetch(|w.executions|));
            && next.executions == w.executions + [Execution(e, x.instance, own.hash, Loaded)]
            && (e == x.engine ==> found.executions[|w.executions|].phase == Found(Module(own.compiled)))
    ensures Next(w, sha, compile, Checkpoint(i, false)) == w
  {
  }

  /** One instance on engine A, then taken over by engine B, which checkpoints it and is restarted. */
  function Takeover(a: seq<byte>, b: seq<byte>, id: string): seq<Event> {
    [NewEngine(a), NewEngine(b),
     LoadMetadata(0, id), Fetch(0), Checkpoint(0, true),
     LoadMetadata(1, id), Fetch(1), Publish(1), Checkpoint(1, true),
     LoadMetadata(1, id), Fetch(2)]
  }

  /** After A's checkpoint. */
  ghost function Halfway<M>(sha: Sha, compile: Compiler<M>, a: seq<byte>, b: seq<byte>, id: string): World<M>
    requires compile(a).Some? && compile(b).Some?
  {
    var ma, mb := compile(a).value, compile(b).value;
    World(
      map[sha(a) := a, sha(b) := b],
      map[id := sha(a)],
      [Engine(sha(a), ma, map[sha(a) := ma]), Engine(sha(b), mb, map[sha(b) := mb])],
      [Execution(0, id, sha(a), Found(Module(ma)))])
  }

  lemma TakeoverBegins<M>(sha: Sha, compile: Compiler<M>, a: seq<byte>, b: seq<byte>, id: string)
    requires sha(a) != sha(b) && compile(a).Some? && compile(b).Some?
    ensures Run(sha, compile, Takeover(a, b, id)[..5]) == Halfway(sha, compile, a, b, id)
  {
    hide Run;
    var ev := Takeover(a, b, id);
    var w := Halfway(sha, compile, a, b, id);
    var w0: World<M> := World(map[], map[], [], []);
    var w1 := World(w.modules, map[], w.engines, []);
    assert Next(Next(w0, sha, compile, ev[0]), sha, compile, ev[1]) == w1;
    assert Next(Next(Next(w1, sha, compile, ev[2]), sha, compile, ev[3]), sha, compile, ev[4]) == w;
    hide Next, Takeover;
    RunOfNothing(sha, compile, ev);
    RunStep(sha, compile, ev, 0);
    RunStep(sha, compile, ev, 1);
    RunStep(sha, compile, ev, 2);
    RunStep(sha, compile, ev, 3);
    RunStep(sha, compile, ev, 4);
  }

  /** B runs A's module until its first checkpoint, and its own module over A's memory ever after. */
  lemma TakeoverSwitchesModules<M>(sha: Sha, compile: Compiler<M>, a: seq<byte>, b: seq<byte>, id: string)
    requires sha(a) != sha(b) && compile(a).Some? && compile(b).Some?
    ensures var x := Run(sha, compile, Takeover(a, b, id)).executions;
            && |x| == 3
            && x[1].phase == Found(Module(compile(a).value))
            && x[2].phase == Found(Module(compile(b).value))
  {
    hide Run;
    var ev := Takeover(a, b, id);
    var w := Halfway(sha, compile, a, b, id);
    var y := Execution(1, id, sha(a), Loaded);
    var w1 := w.(executions := w.executions + [y.(phase := Fetched(a))]);
    assert Next(Next(w, sha, compile, ev[5]), sha, compile, ev[6]) == w1;
    var w2 := Next(w1, sha, compile, ev[7]);
    assert w2.executions == w.executions + [y.(phase := Found(Module(compile(a).value)))];
    var w3 := Next(Next(Next(w2, sha, compile, ev[8]), sha, compile, ev[9]), sha, compile, ev[10]);
    assert w3.executions == w2.executions + [Execution(1, id, sha(b), Found(Module(compile(b).value)))];
    TakeoverBegins(sha, compile, a, b, id);
    assert ev[..11] == ev;
    hide Next, Takeover;
    RunStep(sha, compile, ev, 5);
    RunStep(sha, compile, ev, 6);
    RunStep(sha, compile, ev, 7);
    RunStep(sha, compile, ev, 8);
    RunStep(sha, compile, ev, 9);
    RunStep(sha, compile, ev, 10);
  }

  lemma RunOfNothing<M>(sha: Sha, compile: Compiler<M>, events: seq<Event>)
    ensures Run(sha, compile, events[..0]) == World(map[], map[], [], [])
  {
  }

  lemma RunStep<M>(sha: Sha, compile: Compiler<M>, events: seq<Event>, k: nat)
    requires k < |events|
    ensures Run(sha, compile, events[..k + 1]) == Next(Run(sha, compile, events[..k]), sha, compile, events[k])
  {
    assert events[..k + 1][..k] == events[..k];
  }
}
