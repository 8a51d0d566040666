/** The pending entries of a consumer group: what was delivered and not yet acknowledged, by id
    and by consumer. */
module Pending {
  import opened Bytes
  import opened StreamId

  type Name = string

  datatype PendingEntry = PendingEntry(id: Id, consumer: Name, deliveredAt: nat, deliveryCount: nat, lastDelivery: nat)

  type ById = map<Id, PendingEntry>
  type ByConsumer = map<Name, seq<Id>>

  ghost predicate NoDuplicates(s: seq<Id>) {
    forall i, j :: 0 <= i < j < |s| ==> s[i] != s[j]
  }

  /** The ids a consumer holds. */
  function Held(c: ByConsumer, name: Name): seq<Id> {
    if name in c then c[name] else []
  }

  /** The consumer index is the inverse of the id index, without duplicates and empty lists. */
  ghost predicate Inverse(m: ById, c: ByConsumer) {
    && (forall name :: name in c ==> c[name] != [] && NoDuplicates(c[name]))
    && (forall name, id :: Owns(m, c, name, id))
  }

  /** The two indexes agree on whether the consumer holds the id. */
  ghost predicate Owns(m: ById, c: ByConsumer, name: Name, id: Id) {
    id in Held(c, name) <==> id in m && m[id].consumer == name
  }

  ghost predicate Extremes(m: ById, min: Option<Id>, max: Option<Id>) {
    && (min.None? <==> m == map[]) && (max.None? <==> m == map[])
    && (min.Some? ==> min.value in m && forall id :: id in m ==> min.value <= id)
    && (max.Some? ==> max.value in m && forall id :: id in m ==> id <= max.value)
  }

  /** A list without one id. */
  function Retain(s: seq<Id>, id: Id): (r: seq<Id>) {
    if s == [] then []
    else if s[0] == id then Retain(s[1..], id)
    else [s[0]] + Retain(s[1..], id)
  }

  lemma {:induction false} RetainHas(s: seq<Id>, id: Id, x: Id)
    ensures x in Retain(s, id) <==> x in s && x != id
  {
    if s != [] {
      RetainHas(s[1..], id, x);
      assert s == [s[0]] + s[1..];
    }
  }

  lemma {:induction false} RetainDistinct(s: seq<Id>, id: Id)
    requires NoDuplicates(s)
    ensures NoDuplicates(Retain(s, id))
    ensures |Retain(s, id)| == |s| - (if id in s then 1 else 0)
  {
    if s != [] {
      var t := s[1..];
      RetainDistinct(t, id);
      assert s == [s[0]] + t;
      var r := Retain(t, id);
      assert forall k :: 0 <= k < |t| ==> t[k] == s[k + 1];
      RetainHas(t, id, s[0]);
    }
  }

  /** Takes an id out of a consumer's list; an emptied list disappears. */
  function Release(c: ByConsumer, name: Name, id: Id): ByConsumer {
    if name !in c then c
    else
      var s := Retain(c[name], id);
      if s == [] then c - {name} else c[name := s]
  }

  function Assign(c: ByConsumer, name: Name, id: Id): ByConsumer {
    c[name := Held(c, name) + [id]]
  }

  lemma ReleaseHeld(c: ByConsumer, name: Name, id: Id)
    ensures forall n :: Held(Release(c, name, id), n) == if n == name then Retain(Held(c, n), id) else Held(c, n)
  {
  }

  /** Adding a fresh id. */
  lemma AddKeeps(m: ById, c: ByConsumer, e: PendingEntry)
    requires Inverse(m, c) && e.id !in m
    ensures Inverse(m[e.id := e], Assign(c, e.consumer, e.id))
  {
    var m', c' := m[e.id := e], Assign(c, e.consumer, e.id);
    var s := Held(c, e.consumer);
    assert Owns(m, c, e.consumer, e.id);
    forall name, id ensures Owns(m', c', name, id) {
      assert Owns(m, c, name, id);
    }
    forall name | name in c' ensures c'[name] != [] && NoDuplicates(c'[name]) {
      if name == e.consumer {
        forall i, j | 0 <= i < j < |s| + 1 ensures (s + [e.id])[i] != (s + [e.id])[j] {
          assert s[i] in s;
        }
      }
    }
  }

  /** Adding an id that is already there: a list gets a second copy, or two consumers hold it. */
  lemma AddBreaks(m: ById, c: ByConsumer, e: PendingEntry)
    requires Inverse(m, c) && e.id in m
    ensures !Inverse(m[e.id := e], Assign(c, e.consumer, e.id))
  {
    var m', c' := m[e.id := e], Assign(c, e.consumer, e.id);
    var owner := m[e.id].consumer;
    assert Owns(m, c, owner, e.id);
    if owner == e.consumer {
      var s := c[owner];
      var i :| 0 <= i < |s| && s[i] == e.id;
      assert c'[owner][i] == c'[owner][|s|];
      assert !NoDuplicates(c'[owner]);
    } else {
      assert !Owns(m', c', owner, e.id);
    }
  }

  /** Removing an id. */
  lemma RemoveKeeps(m: ById, c: ByConsumer, id: Id)
    requires Inverse(m, c) && id in m
    ensures Inverse(m - {id}, Release(c, m[id].consumer, id))
    ensures id in Held(c, m[id].consumer)
  {
    var name0 := m[id].consumer;
    var m', c' := m - {id}, Release(c, name0, id);
    assert Owns(m, c, name0, id);
    ReleaseHeld(c, name0, id);
    RetainDistinct(c[name0], id);
    hide Retain, Release, Held;
    forall name, x ensures Owns(m', c', name, x) {
      assert Owns(m, c, name, x);
      RetainHas(Held(c, name), id, x);
      assert Owns(m, c, name, id);
    }
    forall name | name in c' ensures c'[name] != [] && NoDuplicates(c'[name]) {
      ReleaseLists(c, name0, id, name);
    }
  }

  lemma ReleaseLists(c: ByConsumer, name0: Name, id: Id, name: Name)
    requires name in Release(c, name0, id)
    ensures name in c
    ensures Release(c, name0, id)[name] == if name == name0 then Retain(c[name], id) else c[name]
    ensures name == name0 ==> Retain(c[name], id) != []
  {
  }

  /** Changing the owner, and nothing else that the indexes depend on. */
  lemma TransferKeeps(m: ById, c: ByConsumer, id: Id, e: PendingEntry)
    requires Inverse(m, c) && id in m && e.id == id
    ensures Inverse(m[id := e], Assign(Release(c, m[id].consumer, id), e.consumer, id))
  {
    RemoveKeeps(m, c, id);
    AddKeeps(m - {id}, Release(c, m[id].consumer, id), e);
    assert (m - {id})[id := e] == m[id := e];
  }

  /** Dropping a consumer with everything it holds. */
  lemma DropKeeps(m: ById, c: ByConsumer, name: Name, gone: set<Id>)
    requires Inverse(m, c) && forall id :: id in gone <==> id in Held(c, name)
    ensures Inverse(m - gone, c - {name})
    ensures |m - gone| == |m| - |Held(c, name)|
  {
    var m', c' := m - gone, c - {name};
    forall n, id ensures Owns(m', c', n, id) {
      assert Owns(m, c, n, id) && Owns(m, c, name, id);
    }
    forall id | id in gone ensures id in m {
      assert Owns(m, c, name, id);
    }
    DistinctCount(Held(c, name), gone);
    hide Inverse, Held;
    assert m'.Keys == m.Keys - gone && gone <= m.Keys;
  }

  lemma {:induction false} DistinctCount(s: seq<Id>, ids: set<Id>)
    requires NoDuplicates(s) && forall id :: id in ids <==> id in s
    ensures |ids| == |s|
  {
    if s == [] {
      assert ids == {};
    } else {
      var t := s[1..];
      assert s == [s[0]] + t && s[0] in s && s[0] !in t;
      DistinctCount(t, ids - {s[0]});
    }
  }

  lemma IdSetSnoc(ids: seq<Id>, i: nat)
    requires i < |ids|
    ensures IdSet(ids[..i + 1]) == IdSet(ids[..i]) + {ids[i]}
  {
    assert ids[..i + 1] == ids[..i] + [ids[i]];
  }

  lemma IdSetAll(ids: seq<Id>)
    ensures IdSet(ids[..0]) == {} && IdSet(ids[..|ids|]) == IdSet(ids)
  {
    assert ids[..0] == [] && ids[..|ids|] == ids;
  }

  lemma MapMinus(m: ById, a: set<Id>, id: Id)
    ensures m - a - {id} == m - (a + {id}) && m - {} == m
  {
  }

  /** The pending entry list. */
  class PendingEntryList {
    var byId: ById
    var byConsumer: ByConsumer
    var minId: Option<Id>
    var maxId: Option<Id>

    ghost predicate Valid()
      reads this
    {
      && Inverse(byId, byConsumer) && Extremes(byId, minId, maxId)
      && forall id :: id in byId ==> byId[id].id == id
    }

    constructor ()
      ensures Valid() && byId == map[] && byConsumer == map[]
    {
      byId, byConsumer, minId, maxId := map[], map[], None, None;
    }

    method UpdateBounds()
      modifies this`minId, this`maxId
      ensures Extremes(byId, minId, maxId)
    {
      minId, maxId := None, None;
      var rest := byId.Keys;
      while rest != {}
        invariant rest <= byId.Keys && (minId.None? <==> rest == byId.Keys) && (maxId.None? <==> rest == byId.Keys)
        invariant minId.Some? ==> minId.value in byId && forall id :: id in byId && id !in rest ==> minId.value <= id
        invariant maxId.Some? ==> maxId.value in byId && forall id :: id in byId && id !in rest ==> id <= maxId.value
        decreases |rest|
      {
        var id :| id in rest;
        if minId.None? || id < minId.value { minId := Some(id); }
        if maxId.None? || id > maxId.value { maxId := Some(id); }
        rest := rest - {id};
      }
      assert byId.Keys == {} <==> byId == map[];
    }

    /** Adds an entry.  The two indexes still agree if and only if its id was not pending yet. */
    method AddEntry(e: PendingEntry)
      modifies this
      ensures byId == old(byId)[e.id := e] && byConsumer == Assign(old(byConsumer), e.consumer, e.id)
      ensures Extremes(byId, minId, maxId)
      ensures old(Valid()) ==> (Valid() <==> e.id !in old(byId))
    {
      if Inverse(byId, byConsumer) {
        if e.id !in byId { AddKeeps(byId, byConsumer, e); } else { AddBreaks(byId, byConsumer, e); }
      }
      byId := byId[e.id := e];
      byConsumer := byConsumer[e.consumer := (if e.consumer in byConsumer then byConsumer[e.consumer] else []) + [e.id]];
      UpdateBounds();
    }

    method RemoveEntry(id: Id) returns (removed: Option<PendingEntry>)
      requires Valid()
      modifies this
      ensures Valid() && byId == old(byId) - {id}
      ensures removed == if id in old(byId) then Some(old(byId)[id]) else None
      ensures byConsumer == if removed.Some? then Release(old(byConsumer), removed.value.consumer, id) else old(byConsumer)
    {
      if id !in byId {
        return None;
      }
      RemoveKeeps(byId, byConsumer, id);
      var e := byId[id];
      byId := byId - {id};
      ReleaseId(e.consumer, id);
      UpdateBounds();
      removed := Some(e);
    }

    method ReleaseId(name: Name, id: Id)
      modifies this`byConsumer
      ensures byConsumer == Release(old(byConsumer), name, id)
    {
      if name in byConsumer {
        var s := RetainOthers(byConsumer[name], id);
        byConsumer := if s == [] then byConsumer - {name} else byConsumer[name := s];
      }
    }

    /** Hands an entry over to another consumer, if it is pending. */
    method TransferOwnership(id: Id, name: Name, now: nat)
      requires Valid()
      modifies this`byId, this`byConsumer
      ensures Valid()
      ensures id !in old(byId) ==> byId == old(byId) && byConsumer == old(byConsumer)
      ensures id in old(byId) ==>
        && byId == old(byId)[id := old(byId)[id].(consumer := name, deliveryCount := old(byId)[id].deliveryCount + 1, lastDelivery := now)]
        && byConsumer == Assign(Release(old(byConsumer), old(byId)[id].consumer, id), name, id)
    {
      if id !in byId {
        return;
      }
      var e := byId[id];
      var e' := e.(consumer := name, deliveryCount := e.deliveryCount + 1, lastDelivery := now);
      TransferKeeps(byId, byConsumer, id, e');
      ReleaseId(e.consumer, id);
      byId := byId[id := e'];
      byConsumer := byConsumer[name := (if name in byConsumer then byConsumer[name] else []) + [id]];
    }

    method DropIds(ids: seq<Id>)
      modifies this`byId
      ensures byId == old(byId) - IdSet(ids)
    {
      hide IdSet;
      IdSetAll(ids);
      MapMinus(byId, {}, 0);
      for i := 0 to |ids|
        invariant byId == old(byId) - IdSet(ids[..i])
      {
        IdSetSnoc(ids, i);
        MapMinus(old(byId), IdSet(ids[..i]), ids[i]);
        byId := byId - {ids[i]};
      }
    }

    /** Removes everything a consumer holds. */
    method RemoveConsumerEntries(name: Name) returns (count: nat)
      requires Valid()
      modifies this
      ensures Valid() && byConsumer == old(byConsumer) - {name}
      ensures count == |Held(old(byConsumer), name)| && |byId| == |old(byId)| - count
      ensures forall id :: id in byId <==> id in old(byId) && old(byId)[id].consumer != name
      ensures forall id :: id in byId ==> byId[id] == old(byId)[id]
    {
      if name !in byConsumer {
        forall id | id in byId ensures byId[id].consumer != name {
          assert Owns(byId, byConsumer, name, id);
        }
        return 0;
      }
      var ids := byConsumer[name];
      ghost var gone := IdSet(ids);
      DropKeeps(byId, byConsumer, name, gone);
      byConsumer := byConsumer - {name};
      DropIds(ids);
      assert byId == old(byId) - gone;
      forall id ensures id in gone <==> id in old(byId) && old(byId)[id].consumer == name {
        assert Owns(old(byId), old(byConsumer), name, id);
      }
      UpdateBounds();
      count := |ids|;
    }
  }

  method RetainOthers(s: seq<Id>, id: Id) returns (r: seq<Id>)
    ensures r == Retain(s, id)
  {
    r := [];
    assert s[0..] == s && [] + Retain(s, id) == Retain(s, id);
    for i := 0 to |s|
      invariant r + Retain(s[i..], id) == Retain(s, id)
    {
      assert s[i..][1..] == s[i + 1..];
      if s[i] != id {
        r := r + [s[i]];
      }
    }
    assert s[|s|..] == [] && r + [] == r;
  }
}
