/**
 The S3 store's compare-and-swap on the object's ETag, against the version-number form of the other
 stores. PutObject honours If-Match and If-None-Match as in sections 13.1.1 and 13.1.2 of RFC 9110,
 and every write gets an ETag that no earlier write got.
 */
module EtagCas {
  import opened Bytes
  import opened Protocol

  /** The metadata object: its body, which carries no ETag, and its ETag, the number of the write that made it. */
  datatype Object = Object(body: InstanceMeta, write: nat)

  /** A client's record, with its ETag: the number of the write that it was read from or made. */
  datatype Held = Held(meta: InstanceMeta, write: Option<nat>)

  datatype Bucket = Bucket(obj: Option<Object>, writes: nat)

  function Body(m: InstanceMeta): InstanceMeta {
    m.(etag := "")
  }

  /** The S3 save: If-None-Match "*" for version 0, If-Match with the held ETag otherwise. */
  function EtagSave(b: Bucket, h: Held): (bool, Bucket, Held) {
    var next := if h.meta.version == 0 then 1 else h.meta.version + 1;
    var allowed := if h.meta.version == 0 then b.obj.None?
                   else b.obj.Some? && h.write == Some(b.obj.value.write);
    if allowed then
      var m := h.meta.(version := next);
      (true, Bucket(Some(Object(Body(m), b.writes)), b.writes + 1), Held(m, Some(b.writes)))
    else (false, b, h)
  }

  function EtagLoad(b: Bucket): Option<Held> {
    match b.obj
    case None => None
    case Some(o) => Some(Held(o.body, Some(o.write)))
  }

  /** The version-number save, which ignores ETags. */
  function VersionSave(stored: Option<InstanceMeta>, m: InstanceMeta): (bool, Option<InstanceMeta>, InstanceMeta) {
    if CasAllowed(stored, m.version) then
      var m' := m.(version := m.version + 1);
      (true, Some(m'), m')
    else (false, stored, m)
  }

  /** The store's methods, over a bucket of metadata objects. */
  class S3SnapshotStore {
    var objects: map<string, Object>
    var writes: nat

    function Key(id: string): string {
      "instances/" + id + "/meta.json"
    }

    ghost function BucketOf(id: string): Bucket
      reads this
    {
      Bucket(if Key(id) in objects then Some(objects[Key(id)]) else None, writes)
    }

    method PutObject(key: string, body: InstanceMeta, ifNoneMatch: bool, ifMatch: Option<nat>)
      returns (write: Option<nat>)
      requires ifNoneMatch ==> ifMatch.None?
      modifies this
      ensures write.Some? <==> (if ifNoneMatch then key !in old(objects)
                                else key in old(objects) && ifMatch == Some(old(objects)[key].write))
      ensures write.Some? ==> write.value == old(writes) && objects == old(objects)[key := Object(body, old(writes))]
      ensures writes == old(writes) + if write.Some? then 1 else 0
      ensures write.None? ==> objects == old(objects)
    {
      if ifNoneMatch {
        if key in objects {
          return None;
        }
      } else if key !in objects || ifMatch != Some(objects[key].write) {
        return None;
      }
      write := Some(writes);
      objects := objects[key := Object(body, writes)];
      writes := writes + 1;
    }

    method SaveMetadata(h: Held) returns (ok: bool, h': Held)
      modifies this
      ensures var key, next := Key(h.meta.instanceId), h.meta.version + 1;
              && (ok <==> if h.meta.version == 0 then key !in old(objects)
                          else key in old(objects) && h.write == Some(old(objects)[key].write))
              && (ok ==>
                    && h' == Held(h.meta.(version := next), Some(old(writes)))
                    && objects == old(objects)[key := Object(
                         InstanceMeta(h.meta.instanceId, h.meta.wasmHash, next, "", h.meta.process), old(writes))])
              && (!ok ==> h' == h && objects == old(objects))
      ensures (ok, BucketOf(h.meta.instanceId), h') == EtagSave(old(BucketOf(h.meta.instanceId)), h)
      ensures forall id | id != h.meta.instanceId :: BucketOf(id).obj == old(BucketOf(id)).obj
    {
      var next := h.meta.version + 1;
      if h.meta.version == 0 {
        next := 1;
      }
      var write := PutObject(Key(h.meta.instanceId), Body(h.meta.(version := next)), h.meta.version == 0,
                             if h.meta.version == 0 then None else h.write);
      forall id | id != h.meta.instanceId ensures Key(id) != Key(h.meta.instanceId) {
        KeyIsInjective(id, h.meta.instanceId);
      }
      if write.None? {
        return false, h;
      }
      return true, Held(h.meta.(version := next), write);
    }

    lemma KeyIsInjective(a: string, b: string)
      ensures Key(a) == Key(b) ==> a == b
    {
      assert Key(a)[10..|Key(a)| - 10] == a;
      assert Key(b)[10..|Key(b)| - 10] == b;
    }

    method Delete(id: string)
      modifies this
      ensures BucketOf(id) == old(BucketOf(id)).(obj := None)
      ensures forall j | j != id :: BucketOf(j) == old(BucketOf(j))
    {
      forall j | j != id ensures Key(j) != Key(id) {
        KeyIsInjective(j, id);
      }
      objects := objects - {Key(id)};
    }

    method LoadMetadata(id: string) returns (r: Option<Held>)
      ensures r == if Key(id) in objects then Some(Held(objects[Key(id)].body, Some(objects[Key(id)].write))) else None
      ensures r == EtagLoad(BucketOf(id))
    {
      var key := Key(id);
      r := if key in objects then Some(Held(objects[key].body, Some(objects[key].write))) else None;
    }
  }

  /** What is loaded after a save is the caller's record, one version on, with the new ETag. */
  lemma SavedRecordIsLoaded(b: Bucket, h: Held)
    ensures var (ok, b', h') := EtagSave(b, h);
            ok ==>
              var m := h.meta;
              var stored := InstanceMeta(m.instanceId, m.wasmHash, m.version + 1, "", m.process);
              && EtagLoad(b') == Some(Held(stored, h'.write))
              && h'.write == Some(b.writes) && h'.meta == m.(version := m.version + 1)
  {
  }

  // ---------------------------------------------------------------- both forms in lockstep

  datatype EtagSystem = EtagSystem(bucket: Bucket, held: map<nat, Held>)

  datatype VersionSystem = VersionSystem(stored: Option<InstanceMeta>, held: map<nat, InstanceMeta>)

  datatype Event =
    | Fresh(c: nat, id: string, hash: string)                       // a new record at version 0
    | Load(c: nat)
    | Edit(c: nat, hash: string, process: Process)                  // what callers change between saves
    | Save(c: nat)
    | Delete

  /** What the caller of an event sees, ETags aside. */
  datatype Answer = Nothing | Loaded(meta: Option<InstanceMeta>) | Saved(ok: bool, version: int)

  function EtagStep(s: EtagSystem, e: Event): (EtagSystem, Answer) {
    match e
    case Fresh(c, id, hash) => (s.(held := s.held[c := Held(InstanceMeta(id, hash, 0, "", NO_PROCESS), None)]), Nothing)
    case Load(c) =>
      (match EtagLoad(s.bucket)
       case None => (s, Loaded(None))
       case Some(h) => (s.(held := s.held[c := h]), Loaded(Some(h.meta.(etag := "")))))
    case Edit(c, hash, process) =>
      if c in s.held then
        (s.(held := s.held[c := s.held[c].(meta := s.held[c].meta.(wasmHash := hash, process := process))]), Nothing)
      else (s, Nothing)
    case Save(c) =>
      if c in s.held then
        var (ok, bucket, h) := EtagSave(s.bucket, s.held[c]);
        (EtagSystem(bucket, s.held[c := h]), Saved(ok, h.meta.version))
      else (s, Nothing)
    case Delete => (s.(bucket := s.bucket.(obj := None)), Nothing)
  }

  function VersionStep(s: VersionSystem, e: Event): (VersionSystem, Answer) {
    match e
    case Fresh(c, id, hash) => (s.(held := s.held[c := InstanceMeta(id, hash, 0, "", NO_PROCESS)]), Nothing)
    case Load(c) =>
      (match s.stored
       case None => (s, Loaded(None))
       case Some(m) => (s.(held := s.held[c := m]), Loaded(Some(m.(etag := "")))))
    case Edit(c, hash, process) =>
      if c in s.held then
        (s.(held := s.held[c := s.held[c].(wasmHash := hash, process := process)]), Nothing)
      else (s, Nothing)
    case Save(c) =>
      if c in s.held then
        var (ok, stored, m) := VersionSave(s.stored, s.held[c]);
        (VersionSystem(stored, s.held[c := m]), Saved(ok, m.version))
      else (s, Nothing)
    case Delete => (s.(stored := None), Nothing)
  }

  function EtagRun(events: seq<Event>): (EtagSystem, seq<Answer>) {
    if events == [] then (EtagSystem(Bucket(None, 0), map[]), [])
    else
      var (s, answers) := EtagRun(events[..|events| - 1]);
      var (s', a) := EtagStep(s, events[|events| - 1]);
      (s', answers + [a])
  }

  function VersionRun(events: seq<Event>): (VersionSystem, seq<Answer>) {
    if events == [] then (VersionSystem(None, map[]), [])
    else
      var (s, answers) := VersionRun(events[..|events| - 1]);
      var (s', a) := VersionStep(s, events[|events| - 1]);
      (s', answers + [a])
  }

  /** A held ETag was handed out, and if it is the object's then so is the held version. */
  predicate HeldOk(b: Bucket, h: Held) {
    && h.meta.version >= 0
    && (h.meta.version > 0 ==>
          && h.write.Some? && h.write.value < b.writes
          && (b.obj.Some? && b.obj.value.write == h.write.value ==> b.obj.value.body.version == h.meta.version))
  }

  predicate Lockstep(s: EtagSystem, t: VersionSystem) {
    && (s.bucket.obj.None? <==> t.stored.None?)
    && (s.bucket.obj.Some? ==>
          && s.bucket.obj.value.body == t.stored.value.(etag := "")
          && s.bucket.obj.value.body.version >= 1
          && s.bucket.obj.value.write < s.bucket.writes)
    && s.held.Keys == t.held.Keys
    && forall c | c in s.held ::
         s.held[c].meta.(etag := "") == t.held[c].(etag := "") && HeldOk(s.bucket, s.held[c])
  }

  /** A save whose version is the stored one although its ETag is not: the object is another one by now. */
  predicate Stale(s: EtagSystem, e: Event) {
    && e.Save? && e.c in s.held && s.bucket.obj.Some?
    && s.held[e.c].meta.version == s.bucket.obj.value.body.version
    && s.held[e.c].write != Some(s.bucket.obj.value.write)
  }

  /** One save: the two forms answer alike if and only if it is not stale, and then stay in lockstep. */
  lemma SaveAgrees(s: EtagSystem, t: VersionSystem, c: nat)
    requires Lockstep(s, t) && c in s.held
    ensures EtagStep(s, Save(c)).1 == VersionStep(t, Save(c)).1 <==> !Stale(s, Save(c))
    ensures !Stale(s, Save(c)) ==> Lockstep(EtagStep(s, Save(c)).0, VersionStep(t, Save(c)).0)
  {
    assert HeldOk(s.bucket, s.held[c]);
    assert s.held[c].meta.version == t.held[c].version;
  }

  lemma StepAgrees(s: EtagSystem, t: VersionSystem, e: Event)
    requires Lockstep(s, t)
    ensures EtagStep(s, e).1 == VersionStep(t, e).1 <==> !Stale(s, e)
    ensures !Stale(s, e) ==> Lockstep(EtagStep(s, e).0, VersionStep(t, e).0)
  {
    if e.Save? && e.c in s.held {
      SaveAgrees(s, t, e.c);
    }
  }

  predicate NeverStale(events: seq<Event>) {
    events == [] ||
    (var before := events[..|events| - 1];
     NeverStale(before) && !Stale(EtagRun(before).0, events[|events| - 1]))
  }

  lemma {:induction false} OneAnswerPerEvent(events: seq<Event>)
    ensures |EtagRun(events).1| == |VersionRun(events).1| == |events|
  {
    if events != [] {
      OneAnswerPerEvent(events[..|events| - 1]);
    }
  }

  /**
   On every run of any number of clients, deletes included, the two forms give the same answers
   if and only if no save is stale; as long as none is, they store the same record.
   */
  lemma {:induction false} EtagAgreesIff(events: seq<Event>)
    ensures EtagRun(events).1 == VersionRun(events).1 <==> NeverStale(events)
    ensures NeverStale(events) ==> Lockstep(EtagRun(events).0, VersionRun(events).0)
  {
    if events != [] {
      var before, e := events[..|events| - 1], events[|events| - 1];
      EtagAgreesIff(before);
      var (s, a) := EtagRun(before);
      var (t, b) := VersionRun(before);
      OneAnswerPerEvent(before);
      hide EtagStep, VersionStep, Stale, Lockstep;
      AppendedAnswers(a, b, EtagStep(s, e).1, VersionStep(t, e).1);
      if NeverStale(before) {
        StepAgrees(s, t, e);
      }
    }
  }

  lemma AppendedAnswers(a: seq<Answer>, b: seq<Answer>, x: Answer, y: Answer)
    requires |a| == |b|
    ensures a + [x] == b + [y] <==> a == b && x == y
  {
    if a + [x] == b + [y] {
      assert a == (a + [x])[..|a|] && b == (b + [y])[..|b|];
      assert x == (a + [x])[|a|] && y == (b + [y])[|b|];
    }
  }

  // ---------------------------------------------------------------- where staleness comes from

  /** Without deletes versions only rise: a held ETag is the object's exactly when the held version is. */
  predicate Current(b: Bucket, h: Held) {
    h.meta.version != 0 ==>
      && 1 <= h.meta.version && b.obj.Some? && h.write.Some? && h.write.value < b.writes
      && h.meta.version <= b.obj.value.body.version
      && (h.write.value == b.obj.value.write <==> h.meta.version == b.obj.value.body.version)
  }

  predicate Rising(s: EtagSystem) {
    && (s.bucket.obj.Some? ==> s.bucket.obj.value.body.version >= 1 && s.bucket.obj.value.write < s.bucket.writes)
    && forall c | c in s.held :: Current(s.bucket, s.held[c])
  }

  lemma StepKeepsRising(s: EtagSystem, e: Event)
    requires Rising(s) && e != Delete
    ensures Rising(EtagStep(s, e).0) && !Stale(s, e)
  {
    if e.Save? && e.c in s.held {
      assert Current(s.bucket, s.held[e.c]);
    }
  }

  lemma {:induction false} NoDeleteNoStale(events: seq<Event>)
    requires Delete !in events
    ensures NeverStale(events) && Rising(EtagRun(events).0)
  {
    if events != [] {
      NoDeleteNoStale(events[..|events| - 1]);
      StepKeepsRising(EtagRun(events[..|events| - 1]).0, events[|events| - 1]);
    }
  }

  /** On every run without Delete, the two forms give the same answers and store the same record. */
  lemma EtagRefinesVersion(events: seq<Event>)
    requires Delete !in events
    ensures EtagRun(events).1 == VersionRun(events).1
    ensures Lockstep(EtagRun(events).0, VersionRun(events).0)
  {
    NoDeleteNoStale(events);
    EtagAgreesIff(events);
  }

  /** Saved by client 0, deleted, saved anew by client 1, and saved by client 0 again. */
  function Recreation(id: string, hash: string): seq<Event> {
    [Fresh(0, id, hash), Save(0), Delete, Fresh(1, id, hash), Save(1), Save(0)]
  }

  lemma EtagRefusesTheOldClient(id: string, hash: string)
    ensures EtagRun(Recreation(id, hash)).1 ==
            [Nothing, Saved(true, 1), Nothing, Nothing, Saved(true, 1), Saved(false, 1)]
  {
    hide EtagRun;
    var run := Recreation(id, hash);
    var zeroth, first := InstanceMeta(id, hash, 0, "", NO_PROCESS), InstanceMeta(id, hash, 1, "", NO_PROCESS);
    var s0 := EtagSystem(Bucket(None, 0), map[]);
    var s1 := EtagSystem(Bucket(None, 0), map[0 := Held(zeroth, None)]);
    var s2 := EtagSystem(Bucket(Some(Object(first, 0)), 1), s1.held[0 := Held(first, Some(0))]);
    var s3 := s2.(bucket := Bucket(None, 1));
    var s4 := s3.(held := s3.held[1 := Held(zeroth, None)]);
    var s5 := EtagSystem(Bucket(Some(Object(first, 1)), 2), s4.held[1 := Held(first, Some(1))]);
    assert EtagStep(s0, run[0]) == (s1, Nothing);
    assert EtagStep(s1, run[1]) == (s2, Saved(true, 1));
    assert EtagStep(s2, run[2]) == (s3, Nothing);
    assert EtagStep(s3, run[3]) == (s4, Nothing);
    assert EtagStep(s4, run[4]) == (s5, Saved(true, 1));
    assert EtagStep(s5, run[5]).1 == Saved(false, 1);
    hide EtagStep;
    EtagRunsStepByStep(run);
    assert run[..6] == run;
  }

  lemma VersionAcceptsTheOldClient(id: string, hash: string)
    ensures VersionRun(Recreation(id, hash)).1 ==
            [Nothing, Saved(true, 1), Nothing, Nothing, Saved(true, 1), Saved(true, 2)]
  {
    hide VersionRun;
    var run := Recreation(id, hash);
    var zeroth, first := InstanceMeta(id, hash, 0, "", NO_PROCESS), InstanceMeta(id, hash, 1, "", NO_PROCESS);
    var t0 := VersionSystem(None, map[]);
    var t1 := VersionSystem(None, map[0 := zeroth]);
    var t2 := VersionSystem(Some(first), t1.held[0 := first]);
    var t3 := VersionSystem(None, t2.held);
    var t4 := VersionSystem(None, t3.held[1 := zeroth]);
    var t5 := VersionSystem(Some(first), t4.held[1 := first]);
    assert VersionStep(t0, run[0]) == (t1, Nothing);
    assert VersionStep(t1, run[1]) == (t2, Saved(true, 1));
    assert VersionStep(t2, run[2]) == (t3, Nothing);
    assert VersionStep(t3, run[3]) == (t4, Nothing);
    assert VersionStep(t4, run[4]) == (t5, Saved(true, 1));
    assert VersionStep(t5, run[5]).1 == Saved(true, 2);
    hide VersionStep;
    VersionRunsStepByStep(run);
    assert run[..6] == run;
  }

  lemma EtagRunsStepByStep(events: seq<Event>)
    ensures EtagRun(events[..0]) == (EtagSystem(Bucket(None, 0), map[]), [])
    ensures forall k | 0 <= k < |events| ::
              EtagRun(events[..k + 1]) == var (s, a) := EtagRun(events[..k]);
                                          var (s', x) := EtagStep(s, events[k]);
                                          (s', a + [x])
  {
    assert forall k | 0 <= k < |events| :: events[..k + 1][..k] == events[..k];
  }

  lemma VersionRunsStepByStep(events: seq<Event>)
    ensures VersionRun(events[..0]) == (VersionSystem(None, map[]), [])
    ensures forall k | 0 <= k < |events| ::
              VersionRun(events[..k + 1]) == var (t, b) := VersionRun(events[..k]);
                                             var (t', y) := VersionStep(t, events[k]);
                                             (t', b + [y])
  {
    assert forall k | 0 <= k < |events| :: events[..k + 1][..k] == events[..k];
  }

  /**
   Delete does part them. A client that holds version 1 of a deleted and re-created object passes the
   version check and overwrites a record it never saw; the ETag check refuses it.
   */
  lemma DeleteTellsThemApart(id: string, hash: string)
    ensures EtagRun(Recreation(id, hash)).1 ==
            [Nothing, Saved(true, 1), Nothing, Nothing, Saved(true, 1), Saved(false, 1)]
    ensures VersionRun(Recreation(id, hash)).1 ==
            [Nothing, Saved(true, 1), Nothing, Nothing, Saved(true, 1), Saved(true, 2)]
    ensures !NeverStale(Recreation(id, hash))
  {
    hide EtagRun, VersionRun, NeverStale;
    EtagRefusesTheOldClient(id, hash);
    VersionAcceptsTheOldClient(id, hash);
    EtagAgreesIff(Recreation(id, hash));
  }
}
