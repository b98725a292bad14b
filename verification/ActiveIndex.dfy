/** The index of active instances: a list in the memory and file stores, one object per instance in S3. */
module ActiveIndex {
  import opened Bytes

  /** A decoded index entry: the instance it names, if it names one by a string, and the rest of it. */
  datatype Info = Info(instanceId: Option<string>, rest: seq<byte>)

  /** One call of UpdateActiveIndex; None is info that does not decode. */
  datatype Update = Update(id: string, info: Option<Info>, completed: bool)

  /** Every entry of the instance replaced by the new info, or dropped if there is none. */
  function Replaced(list: seq<Info>, id: string, info: Option<Info>): seq<Info> {
    if list == [] then []
    else
      var last := list[|list| - 1];
      Replaced(list[..|list| - 1], id, info)
      + if last.instanceId != Some(id) then [last] else if info.Some? then [info.value] else []
  }

  function Mentions(list: seq<Info>, id: string): bool {
    exists i :: 0 <= i < |list| && list[i].instanceId == Some(id)
  }

  function Listed(list: seq<Info>, u: Update): seq<Info> {
    if u.info.None? then list
    else if u.completed then Replaced(list, u.id, None)
    else Replaced(list, u.id, u.info) + if Mentions(list, u.id) then [] else [u.info.value]
  }

  /** The memory and file stores' method. */
  class IndexFile {
    var index: seq<Info>

    method UpdateActiveIndex(id: string, info: Option<Info>, completed: bool) returns (ok: bool)
      modifies this
      ensures index == Listed(old(index), Update(id, info, completed))
      ensures ok <==> info.Some?
      ensures ok && !completed ==> ReplacedOrAppended(old(index), index, id, info.value)
      ensures ok && completed ==> index == Without(old(index), id)
      ensures !ok ==> index == old(index)
    {
      if info.None? {
        return false;
      }
      ListedMeans(index, Update(id, info, completed));
      var updated := false;
      var next: seq<Info> := [];
      for i := 0 to |index|
        invariant index == old(index)
        invariant updated <==> !completed && Mentions(index[..i], id)
        invariant next == Replaced(index[..i], id, if completed then None else info)
      {
        assert index[..i + 1][..i] == index[..i];
        assert index[..i + 1] == index[..i] + [index[i]];
        if index[i].instanceId == Some(id) {
          assert Mentions(index[..i + 1], id) by {
            assert index[..i + 1][i].instanceId == Some(id);
          }
          if !completed {
            next := next + [info.value];
            updated := true;
          }
        } else {
          MentionsPrefix(index[..i], index[i], id);
          next := next + [index[i]];
        }
      }
      assert index[..|index|] == index;
      if !updated && !completed {
        next := next + [info.value];
      }
      index := next;
      ok := true;
    }
  }

  /** Every entry of the instance is replaced where it stands; if there is none, the new one comes last. */
  predicate ReplacedOrAppended(before: seq<Info>, after: seq<Info>, id: string, info: Info) {
    if exists i :: 0 <= i < |before| && before[i].instanceId == Some(id) then
      && |after| == |before|
      && forall i | 0 <= i < |before| :: after[i] == if before[i].instanceId == Some(id) then info else before[i]
    else after == before + [info]
  }

  lemma ListedMeans(list: seq<Info>, u: Update)
    requires u.info.Some?
    ensures !u.completed ==> ReplacedOrAppended(list, Listed(list, u), u.id, u.info.value)
    ensures u.completed ==> Listed(list, u) == Without(list, u.id)
  {
    if u.completed {
      DroppingIsWithout(list, u.id);
    } else if Mentions(list, u.id) {
      forall i | 0 <= i < |list|
        ensures |Replaced(list, u.id, u.info)| == |list|
        ensures Replaced(list, u.id, u.info)[i] == if list[i].instanceId == Some(u.id) then u.info.value else list[i]
      {
        ReplacedAt(list, u.id, u.info.value, i);
      }
      assert Replaced(list, u.id, u.info) + [] == Replaced(list, u.id, u.info);
    } else {
      NothingToReplace(list, u.id, u.info);
    }
  }

  lemma {:induction false} DroppingIsWithout(list: seq<Info>, id: string)
    ensures Replaced(list, id, None) == Without(list, id)
    decreases |list|
  {
    if list != [] {
      DroppingIsWithout(list[..|list| - 1], id);
    }
  }

  /** Without drops exactly the entries of the instance, and keeps the order of the rest. */
  lemma {:induction false} WithoutIsExact(list: seq<Info>, id: string, e: Info)
    ensures multiset(Without(list, id))[e] == if e.instanceId == Some(id) then 0 else multiset(list)[e]
    decreases |list|
  {
    if list != [] {
      assert list == list[..|list| - 1] + [list[|list| - 1]];
      WithoutIsExact(list[..|list| - 1], id, e);
    }
  }

  lemma {:induction false} WithoutKeepsOrder(a: seq<Info>, b: seq<Info>, id: string)
    ensures Without(a + b, id) == Without(a, id) + Without(b, id)
    decreases |b|
  {
    if b == [] {
      assert a + b == a;
    } else {
      assert (a + b)[..|a + b| - 1] == a + b[..|b| - 1];
      WithoutKeepsOrder(a, b[..|b| - 1], id);
    }
  }

  lemma MentionsPrefix(list: seq<Info>, e: Info, id: string)
    requires e.instanceId != Some(id)
    ensures Mentions(list + [e], id) <==> Mentions(list, id)
  {
    if Mentions(list, id) {
      var i :| 0 <= i < |list| && list[i].instanceId == Some(id);
      assert (list + [e])[i].instanceId == Some(id);
    }
  }

  /** The S3 form: the object of an instance is written undecoded, or deleted when it is completed. */
  class ObjectIndex {
    var objects: map<string, Option<Info>>

    method UpdateActiveIndex(id: string, info: Option<Info>, completed: bool)
      modifies this
      ensures objects == Stored(old(objects), Update(id, info, completed))
    {
      if completed {
        objects := objects - {id};
      } else {
        objects := objects[id := info];
      }
    }

    /** The list is fetched in no particular order, and one object that does not decode fails it. */
    method LoadActiveIndex() returns (r: Option<seq<Info>>)
      ensures r.Some? <==> forall id | id in objects :: objects[id].Some?
      ensures r.Some? ==> |r.value| == |objects|
      ensures r.Some? ==> (set e <- r.value :: Some(e)) == objects.Values
    {
      var keys, list := objects.Keys, [];
      while keys != {}
        invariant keys <= objects.Keys && |list| + |keys| == |objects|
        invariant forall id | id in objects && id !in keys :: objects[id].Some? && objects[id].value in list
        invariant forall e | e in list :: Some(e) in objects.Values
      {
        var id :| id in keys;
        if objects[id].None? {
          return None;
        }
        list := list + [objects[id].value];
        keys := keys - {id};
      }
      r := Some(list);
    }
  }

  function Stored(objects: map<string, Option<Info>>, u: Update): map<string, Option<Info>> {
    if u.completed then objects - {u.id} else objects[u.id := u.info]
  }

  /** The latest info of every instance, by the updates that decode. */
  function Current(infos: map<string, Info>, u: Update): map<string, Info> {
    if u.info.None? then infos
    else if u.completed then infos - {u.id}
    else infos[u.id := u.info.value]
  }

  function ListOf(updates: seq<Update>): seq<Info> {
    if updates == [] then [] else Listed(ListOf(updates[..|updates| - 1]), updates[|updates| - 1])
  }

  function ObjectsOf(updates: seq<Update>): map<string, Option<Info>> {
    if updates == [] then map[] else Stored(ObjectsOf(updates[..|updates| - 1]), updates[|updates| - 1])
  }

  function InfosOf(updates: seq<Update>): map<string, Info> {
    if updates == [] then map[] else Current(InfosOf(updates[..|updates| - 1]), updates[|updates| - 1])
  }

  /** Info that is going to be listed names the instance it is about; a completing update's is never looked at. */
  predicate OwnId(u: Update) {
    u.info.Some? && !u.completed ==> u.info.value.instanceId == Some(u.id)
  }

  predicate Maps(infos: map<string, Info>, id: string, e: Info) {
    id in infos && infos[id] == e
  }

  /** One entry per instance, and exactly the entries of the map. */
  predicate Agrees(list: seq<Info>, infos: map<string, Info>) {
    && (forall i, j | 0 <= i < j < |list| :: list[i].instanceId != list[j].instanceId)
    && (forall i | 0 <= i < |list| :: list[i].instanceId.Some? && Maps(infos, list[i].instanceId.value, list[i]))
    && (forall id | id in infos :: Mentions(list, id))
  }

  function Without(list: seq<Info>, id: string): seq<Info> {
    if list == [] then []
    else Without(list[..|list| - 1], id) + if list[|list| - 1].instanceId != Some(id) then [list[|list| - 1]] else []
  }

  /** An update leaves the other entries, and their order, alone. */
  lemma {:induction false} OthersKeepTheirPlace(list: seq<Info>, id: string, info: Option<Info>)
    requires info.Some? ==> info.value.instanceId == Some(id)
    ensures Without(Replaced(list, id, info), id) == Without(list, id)
    decreases |list|
  {
    if list != [] {
      var init, last := list[..|list| - 1], list[|list| - 1];
      OthersKeepTheirPlace(init, id, info);
      var tail := if last.instanceId != Some(id) then [last] else if info.Some? then [info.value] else [];
      if tail != [] {
        assert (Replaced(init, id, info) + tail)[..|Replaced(init, id, info)|] == Replaced(init, id, info);
      } else {
        assert Replaced(init, id, info) + tail == Replaced(init, id, info);
      }
    }
  }

  lemma UpdateKeepsOthersInPlace(list: seq<Info>, u: Update)
    requires OwnId(u)
    ensures Without(Listed(list, u), u.id) == Without(list, u.id)
  {
    if u.info.Some? {
      OthersKeepTheirPlace(list, u.id, if u.completed then None else u.info);
      if !u.completed && !Mentions(list, u.id) {
        var r := Replaced(list, u.id, u.info);
        assert (r + [u.info.value])[..|r|] == r;
      } else if !u.completed {
        assert Replaced(list, u.id, u.info) + [] == Replaced(list, u.id, u.info);
      }
    }
  }

  /** On a list with one entry per instance, replacing in place is pointwise. */
  lemma {:induction false} ReplacedAt(list: seq<Info>, id: string, info: Info, i: nat)
    requires i < |list|
    ensures |Replaced(list, id, Some(info))| == |list|
    ensures Replaced(list, id, Some(info))[i] == if list[i].instanceId == Some(id) then info else list[i]
    decreases |list|
  {
    if |list| > 1 {
      ReplacedAt(list[..|list| - 1], id, info, if i < |list| - 1 then i else 0);
    }
  }

  lemma {:induction false} DroppedEntries(list: seq<Info>, id: string)
    requires forall i, j | 0 <= i < j < |list| :: list[i].instanceId != list[j].instanceId
    ensures var r := Replaced(list, id, None);
            && (forall i, j | 0 <= i < j < |r| :: r[i].instanceId != r[j].instanceId)
            && (forall i | 0 <= i < |r| :: r[i] in list && r[i].instanceId != Some(id))
            && (forall i | 0 <= i < |list| && list[i].instanceId != Some(id) :: list[i] in r)
    decreases |list|
  {
    if list != [] {
      DroppedEntries(list[..|list| - 1], id);
    }
  }

  lemma CompletedKeepsAgreement(list: seq<Info>, infos: map<string, Info>, id: string)
    requires Agrees(list, infos)
    ensures Agrees(Replaced(list, id, None), infos - {id})
  {
    var r := Replaced(list, id, None);
    DroppedEntries(list, id);
    forall x | x in infos - {id}
      ensures Mentions(r, x)
    {
      var i :| 0 <= i < |list| && list[i].instanceId == Some(x);
      assert list[i] in r;
      var j :| 0 <= j < |r| && r[j] == list[i];
      assert r[j].instanceId == Some(x);
    }
  }

  lemma ReplacingKeepsAgreement(list: seq<Info>, infos: map<string, Info>, info: Info)
    requires info.instanceId.Some? && Agrees(list, infos) && Mentions(list, info.instanceId.value)
    ensures Agrees(Replaced(list, info.instanceId.value, Some(info)), infos[info.instanceId.value := info])
  {
    var r := Replaced(list, info.instanceId.value, Some(info));
    forall i | 0 <= i < |list|
      ensures |r| == |list| && r[i] == if list[i].instanceId == info.instanceId then info else list[i]
    {
      ReplacedAt(list, info.instanceId.value, info, i);
    }
    forall x | x in infos[info.instanceId.value := info]
      ensures Mentions(r, x)
    {
      var i :| 0 <= i < |list| && list[i].instanceId == Some(x);
      assert r[i].instanceId == Some(x);
    }
  }

  lemma {:induction false} NothingToReplace(list: seq<Info>, id: string, info: Option<Info>)
    requires !Mentions(list, id)
    ensures Replaced(list, id, info) == list
    decreases |list|
  {
    if list != [] {
      var init := list[..|list| - 1];
      assert list == init + [list[|list| - 1]];
      MentionsPrefix(init, list[|list| - 1], id);
      NothingToReplace(init, id, info);
    }
  }

  lemma AppendingKeepsAgreement(list: seq<Info>, infos: map<string, Info>, info: Info)
    requires info.instanceId.Some? && Agrees(list, infos) && !Mentions(list, info.instanceId.value)
    ensures Agrees(list + [info], infos[info.instanceId.value := info])
  {
    var r := list + [info];
    forall x | x in infos[info.instanceId.value := info]
      ensures Mentions(r, x)
    {
      if x == info.instanceId.value {
        assert r[|list|].instanceId == Some(x);
      } else {
        var i :| 0 <= i < |list| && list[i].instanceId == Some(x);
        assert r[i].instanceId == Some(x);
      }
    }
  }

  lemma UpdateKeepsAgreement(list: seq<Info>, infos: map<string, Info>, u: Update)
    requires Agrees(list, infos) && OwnId(u)
    ensures Agrees(Listed(list, u), Current(infos, u))
  {
    if u.info.Some? {
      if u.completed {
        CompletedKeepsAgreement(list, infos, u.id);
      } else if Mentions(list, u.id) {
        ReplacingKeepsAgreement(list, infos, u.info.value);
        assert Replaced(list, u.id, u.info) + [] == Replaced(list, u.id, u.info);
      } else {
        NothingToReplace(list, u.id, u.info);
        AppendingKeepsAgreement(list, infos, u.info.value);
      }
    }
  }

  /** The info of the last decodable update of an instance, unless that update completed it. */
  function Latest(updates: seq<Update>, id: string): Option<Info> {
    if updates == [] then None
    else
      var u := updates[|updates| - 1];
      if u.id != id || u.info.None? then Latest(updates[..|updates| - 1], id)
      else if u.completed then None
      else u.info
  }

  lemma {:induction false} InfosAreLatest(updates: seq<Update>, id: string)
    ensures id in InfosOf(updates) <==> Latest(updates, id).Some?
    ensures id in InfosOf(updates) ==> Latest(updates, id) == Some(InfosOf(updates)[id])
    decreases |updates|
  {
    if updates != [] {
      InfosAreLatest(updates[..|updates| - 1], id);
    }
  }

  lemma {:induction false} ListAgreesWithInfos(updates: seq<Update>)
    requires forall u | u in updates :: OwnId(u)
    ensures Agrees(ListOf(updates), InfosOf(updates))
    decreases |updates|
  {
    if updates != [] {
      ListAgreesWithInfos(updates[..|updates| - 1]);
      UpdateKeepsAgreement(ListOf(updates[..|updates| - 1]), InfosOf(updates[..|updates| - 1]), updates[|updates| - 1]);
    }
  }

  /**
   * Over every run whose info carries its own id, the list has at most one entry per instance:
   * exactly the instances whose last update was not a completion, each with its latest info.
   */
  lemma IndexIsAMap(updates: seq<Update>)
    requires forall u | u in updates :: OwnId(u)
    ensures forall i, j | 0 <= i < j < |ListOf(updates)| ::
              ListOf(updates)[i].instanceId != ListOf(updates)[j].instanceId
    ensures forall e: Info :: e in ListOf(updates) <==>
              e.instanceId.Some? && Latest(updates, e.instanceId.value) == Some(e)
  {
    var list, infos := ListOf(updates), InfosOf(updates);
    ListAgreesWithInfos(updates);
    forall e: Info
      ensures e in list <==> e.instanceId.Some? && Latest(updates, e.instanceId.value) == Some(e)
    {
      if e.instanceId.Some? {
        var id := e.instanceId.value;
        InfosAreLatest(updates, id);
        if Maps(infos, id, e) {
          var i :| 0 <= i < |list| && list[i].instanceId == Some(id);
          assert list[i] == e;
        }
      }
    }
  }

  /** The condition is necessary: listing foreign info loses the entry of the instance itself. */
  lemma ForeignInfoBreaksAgreement(list: seq<Info>, infos: map<string, Info>, u: Update)
    requires !OwnId(u)
    ensures !Agrees(Listed(list, u), Current(infos, u))
  {
    NotMentionedAfterwards(list, u.id, u.info.value);
    var r := Listed(list, u);
    assert !Mentions(r, u.id);
    assert u.id in Current(infos, u);
  }

  lemma {:induction false} NotMentionedAfterwards(list: seq<Info>, id: string, info: Info)
    requires info.instanceId != Some(id)
    ensures forall e | e in Replaced(list, id, Some(info)) :: e.instanceId != Some(id)
    decreases |list|
  {
    if list != [] {
      NotMentionedAfterwards(list[..|list| - 1], id, info);
    }
  }

  ghost predicate AlwaysAgrees(updates: seq<Update>) {
    && Agrees(ListOf(updates), InfosOf(updates))
    && (updates == [] || AlwaysAgrees(updates[..|updates| - 1]))
  }

  /** The list is the map of latest infos at every moment of a run if and only if what it lists carries its own id. */
  lemma {:induction false} IndexIsAMapIff(updates: seq<Update>)
    ensures AlwaysAgrees(updates) <==> forall u | u in updates :: OwnId(u)
    decreases |updates|
  {
    if updates != [] {
      var before, u := updates[..|updates| - 1], updates[|updates| - 1];
      assert updates == before + [u];
      IndexIsAMapIff(before);
      hide Agrees, Listed, Current, OwnId;
      if OwnId(u) {
        if AlwaysAgrees(before) {
          UpdateKeepsAgreement(ListOf(before), InfosOf(before), u);
        }
      } else {
        ForeignInfoBreaksAgreement(ListOf(before), InfosOf(before), u);
      }
    }
  }

  // ---------------------------------------------------------------- the list and the bucket

  /** The bucket's object of an instance is what the list has for it. */
  predicate SameFor(objects: map<string, Option<Info>>, infos: map<string, Info>, id: string) {
    (id in objects <==> id in infos) && (id in objects ==> objects[id] == Some(infos[id]))
  }

  function LastUpdate(updates: seq<Update>, id: string): Option<Update> {
    if updates == [] then None
    else if updates[|updates| - 1].id == id then Some(updates[|updates| - 1])
    else LastUpdate(updates[..|updates| - 1], id)
  }

  /** The last update of the instance decodes, or it completes an instance that is not listed. */
  predicate Settled(updates: seq<Update>, id: string) {
    match LastUpdate(updates, id)
    case None => true
    case Some(u) => u.info.Some? || (u.completed && id !in InfosOf(updates))
  }

  lemma {:induction false} SameIffSettled(updates: seq<Update>, id: string)
    ensures SameFor(ObjectsOf(updates), InfosOf(updates), id) <==> Settled(updates, id)
    decreases |updates|
  {
    if updates != [] && updates[|updates| - 1].id != id {
      SameIffSettled(updates[..|updates| - 1], id);
    }
  }

  /** What the bucket loads is what the list holds, one object for each entry. */
  ghost predicate HoldsTheList(objects: map<string, Option<Info>>, list: seq<Info>) {
    objects.Values == (set e <- list :: Some(e)) && |objects| == |list|
  }

  lemma {:induction false} ObjectsCarryTheirIds(updates: seq<Update>)
    requires forall u | u in updates :: OwnId(u)
    ensures forall id | id in ObjectsOf(updates) && ObjectsOf(updates)[id].Some? ::
              ObjectsOf(updates)[id].value.instanceId == Some(id)
    decreases |updates|
  {
    if updates != [] {
      ObjectsCarryTheirIds(updates[..|updates| - 1]);
      assert OwnId(updates[|updates| - 1]);
    }
  }

  lemma SameObjectsHoldTheList(list: seq<Info>, objects: map<string, Option<Info>>, infos: map<string, Info>)
    requires Agrees(list, infos) && forall id: string :: SameFor(objects, infos, id)
    ensures HoldsTheList(objects, list)
  {
    forall id | id in objects
      ensures exists i :: 0 <= i < |list| && list[i].instanceId == Some(id) && objects[id] == Some(list[i])
    {
      assert SameFor(objects, infos, id);
      var i :| 0 <= i < |list| && list[i].instanceId == Some(id);
      assert list[i] == infos[id];
    }
    forall e | e in list
      ensures Some(e) in objects.Values
    {
      assert SameFor(objects, infos, e.instanceId.value);
      assert objects[e.instanceId.value] == Some(e);
    }
    forall id ensures id in objects.Keys <==> Mentions(list, id) {
      assert SameFor(objects, infos, id);
    }
    DistinctIds(list, objects.Keys);
  }

  lemma HeldListIsSame(list: seq<Info>, objects: map<string, Option<Info>>, infos: map<string, Info>, id: string)
    requires Agrees(list, infos) && HoldsTheList(objects, list)
    requires forall id | id in objects && objects[id].Some? :: objects[id].value.instanceId == Some(id)
    ensures SameFor(objects, infos, id)
  {
    if id in objects {
      assert objects[id] in objects.Values;
      var e :| e in list && Some(e) == objects[id];
      assert e.instanceId == Some(id) && infos[id] == e;
    }
    if id in infos {
      var i :| 0 <= i < |list| && list[i].instanceId == Some(id);
      assert list[i] in list && Some(list[i]) in objects.Values;
      var k :| k in objects && objects[k] == Some(list[i]);
      assert k == id;
    }
  }

  /** The bucket holds exactly the entries of the list if and only if every instance is settled. */
  lemma ObjectsHoldTheList(updates: seq<Update>)
    requires forall u | u in updates :: OwnId(u)
    ensures HoldsTheList(ObjectsOf(updates), ListOf(updates)) <==> forall id: string :: Settled(updates, id)
  {
    var list, objects, infos := ListOf(updates), ObjectsOf(updates), InfosOf(updates);
    ListAgreesWithInfos(updates);
    ObjectsCarryTheirIds(updates);
    hide Agrees, HoldsTheList, SameFor, Settled;
    forall id: string ensures SameFor(objects, infos, id) <==> Settled(updates, id) {
      SameIffSettled(updates, id);
    }
    if forall id: string :: Settled(updates, id) {
      SameObjectsHoldTheList(list, objects, infos);
    } else if HoldsTheList(objects, list) {
      forall id: string ensures Settled(updates, id) {
        HeldListIsSame(list, objects, infos, id);
      }
    }
  }

  /** Info that does not decode: the list ignores the update, the bucket takes it or drops the object. */
  lemma UndecodableInfoPartsThem(updates: seq<Update>, id: string, completed: bool)
    ensures var after := updates + [Update(id, None, completed)];
            && ListOf(after) == ListOf(updates)
            && (!completed ==> id in ObjectsOf(after) && ObjectsOf(after)[id].None?)
            && (completed ==> id !in ObjectsOf(after))
            && (Settled(after, id) <==> completed && id !in InfosOf(updates))
  {
    var u := Update(id, None, completed);
    assert (updates + [u])[..|updates|] == updates;
  }

  lemma {:induction false} DistinctIds(list: seq<Info>, ids: set<string>)
    requires forall i | 0 <= i < |list| :: list[i].instanceId.Some?
    requires forall i, j | 0 <= i < j < |list| :: list[i].instanceId != list[j].instanceId
    requires forall id :: id in ids <==> Mentions(list, id)
    ensures |ids| == |list|
    decreases |list|
  {
    if list == [] {
      assert ids == {};
    } else {
      var init, last := list[..|list| - 1], list[|list| - 1];
      assert list[|list| - 1].instanceId == last.instanceId;
      var id0 := last.instanceId.value;
      assert Mentions(list, id0);
      forall id
        ensures id in ids - {id0} <==> Mentions(init, id)
      {
        assert list == init + [last];
        if id != id0 {
          MentionsPrefix(init, last, id);
        }
      }
      DistinctIds(init, ids - {id0});
    }
  }

  lemma ForeignInfoIsListed(u: Update, list: seq<Info>)
    requires u.info.Some? && !u.completed && !Mentions(list, u.id)
    ensures Listed(list, u) == list + [u.info.value]
  {
    NothingToReplace(list, u.id, u.info);
  }

  /** Info that names another instance is never replaced: the same update twice is listed twice. */
  lemma ForeignInfoIsListedTwice(u: Update)
    requires u.info.Some? && !u.completed && !OwnId(u)
    ensures ListOf([u, u]) == [u.info.value, u.info.value]
  {
    hide Listed, Mentions;
    var x := u.info.value;
    assert [u, u][..1] == [u];
    assert !Mentions([], u.id) && !Mentions([x], u.id) by {
      NoMention(u.id, x);
    }
    ForeignInfoIsListed(u, []);
    ForeignInfoIsListed(u, [x]);
    assert ListOf([u]) == Listed(ListOf([u][..0]), u) && ListOf([u][..0]) == [];
    assert ListOf([u]) == [x];
    assert ListOf([u, u]) == Listed(ListOf([u, u][..1]), u);
    assert [x] + [x] == [x, x];
  }

  lemma NoMention(id: string, x: Info)
    requires x.instanceId != Some(id)
    ensures !Mentions([], id) && !Mentions([x], id)
  {
  }
}
