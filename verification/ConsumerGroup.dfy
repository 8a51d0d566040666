/** A consumer group: who reads, what was delivered last, and what is still pending. */
module ConsumerGroup {
  import opened Bytes
  import opened StreamId
  import opened Pending

  datatype Consumer = Consumer(pendingCount: nat, lastSeen: nat, idle: nat)

  /** Subtraction that stops at zero. */
  function SaturatingSub(a: nat, b: nat): nat {
    if a >= b then a - b else 0
  }

  /** Every owner exists and every consumer's counter is the length of its list. */
  ghost predicate ConsumersExact(c: ByConsumer, consumers: map<Name, Consumer>) {
    && (forall name :: name in c ==> name in consumers)
    && (forall name :: name in consumers ==> consumers[name].pendingCount == |Held(c, name)|)
  }

  /** One id more for a consumer. */
  lemma AssignExact(c: ByConsumer, consumers: map<Name, Consumer>, name: Name, id: Id, seen: nat, idle: nat)
    requires ConsumersExact(c, consumers) && name in consumers
    ensures ConsumersExact(Assign(c, name, id), consumers[name := Consumer(consumers[name].pendingCount + 1, seen, idle)])
  {
    var c' := Assign(c, name, id);
    assert forall n :: n != name ==> Held(c', n) == Held(c, n);
  }

  /** One id less; the counter was not zero. */
  lemma ReleaseExact(m: ById, c: ByConsumer, consumers: map<Name, Consumer>, id: Id)
    requires Inverse(m, c) && ConsumersExact(c, consumers) && id in m
    ensures var name := m[id].consumer;
      && name in consumers && consumers[name].pendingCount >= 1
      && ConsumersExact(Release(c, name, id), consumers[name := consumers[name].(pendingCount := consumers[name].pendingCount - 1)])
  {
    var name := m[id].consumer;
    assert Owns(m, c, name, id);
    RetainDistinct(c[name], id);
    ReleaseHeld(c, name, id);
  }

  /** The id index after ids have been put in for a consumer, and nothing else. */
  ghost predicate AddedTo(m0: ById, m: ById, name: Name, ids: seq<Id>, now: nat) {
    && (forall id :: id in m <==> id in m0 || id in ids)
    && (forall id :: id in m0 && id !in ids ==> m[id] == m0[id])
    && (forall id :: id in ids ==> m[id] == PendingEntry(id, name, now, 1, now))
  }

  ghost predicate Rising(ids: seq<Id>) {
    forall i, j :: 0 <= i < j < |ids| ==> ids[i] < ids[j]
  }

  /** None of the ids is pending. */
  ghost predicate NoneIn(ids: seq<Id>, m: ById) {
    forall i :: 0 <= i < |ids| ==> ids[i] !in m
  }

  lemma AddedNothing(m: ById, name: Name, now: nat)
    ensures AddedTo(m, m, name, [], now)
  {
  }

  lemma StillFresh(m0: ById, m: ById, name: Name, ids: seq<Id>, k: nat, now: nat)
    requires k < |ids| && AddedTo(m0, m, name, ids[..k], now) && NoneIn(ids, m0) && NoDuplicates(ids)
    ensures ids[k] !in m
  {
  }

  lemma AddedOneMore(m0: ById, m: ById, name: Name, ids: seq<Id>, k: nat, now: nat)
    requires k < |ids| && AddedTo(m0, m, name, ids[..k], now)
    ensures AddedTo(m0, m[ids[k] := PendingEntry(ids[k], name, now, 1, now)], name, ids[..k + 1], now)
  {
    assert forall x :: x in ids[..k + 1] <==> x in ids[..k] || x == ids[k];
  }

  /** The last id of a delivery, or the last one before. */
  function NewLast(last: Id, ids: seq<Id>): Id {
    if ids != [] && ids[|ids| - 1] > last then ids[|ids| - 1] else last
  }

  ghost predicate AllUpTo(ids: seq<Id>, last: Id) {
    forall i :: 0 <= i < |ids| ==> ids[i] <= last
  }

  lemma AddedBelow(m0: ById, m: ById, name: Name, ids: seq<Id>, now: nat, last: Id)
    requires AddedTo(m0, m, name, ids, now) && forall id :: id in m0 ==> id <= last
    ensures (forall id :: id in m ==> id <= NewLast(last, ids)) <==> AllUpTo(ids, NewLast(last, ids))
  {
    if forall id :: id in m ==> id <= NewLast(last, ids) {
      forall i | 0 <= i < |ids| ensures ids[i] <= NewLast(last, ids) {
        assert ids[i] in m;
      }
    }
  }

  /** Ids in rising order, as a stream has them, differ and end with the largest. */
  lemma RisingIds(ids: seq<Id>, last: Id)
    requires Rising(ids)
    ensures NoDuplicates(ids) && AllUpTo(ids, NewLast(last, ids))
  {
    forall i | 0 <= i < |ids| ensures ids[i] <= NewLast(last, ids) {
      if i < |ids| - 1 { assert ids[i] < ids[|ids| - 1]; }
    }
  }

  /** The consumer index after the same. */
  ghost function HeldMore(c: ByConsumer, name: Name, ids: seq<Id>): ByConsumer {
    if ids == [] then c else c[name := Held(c, name) + ids]
  }

  lemma HeldNothing(c: ByConsumer, name: Name)
    ensures HeldMore(c, name, []) == c
  {
  }

  lemma HeldOneMore(c: ByConsumer, name: Name, ids: seq<Id>, id: Id)
    ensures Assign(HeldMore(c, name, ids), name, id) == HeldMore(c, name, ids + [id])
  {
    assert Held(c, name) + ids + [id] == Held(c, name) + (ids + [id]);
    assert ids == [] ==> ids + [id] == [id];
  }

  lemma HeldGrows(c: ByConsumer, c': ByConsumer, consumers: map<Name, Consumer>, name: Name, ids: seq<Id>, now: nat)
    requires ConsumersExact(c, consumers) && name in consumers
    requires c' == HeldMore(c, name, ids)
    ensures ConsumersExact(c', consumers[name := Consumer(consumers[name].pendingCount + |ids|, now, 0)])
  {
    assert forall n :: n != name ==> Held(c', n) == Held(c, n);
  }

  lemma DropExact(c: ByConsumer, consumers: map<Name, Consumer>, name: Name)
    requires ConsumersExact(c, consumers) && name in consumers
    ensures ConsumersExact(c - {name}, consumers - {name}) && |consumers - {name}| == |consumers| - 1
  {
    assert forall n :: n != name ==> Held(c - {name}, n) == Held(c, n);
    assert (consumers - {name}).Keys == consumers.Keys - {name};
  }

  lemma NothingOwned(m: ById, c: ByConsumer, name: Name)
    requires Inverse(m, c) && name !in c
    ensures forall id :: id in m ==> m[id].consumer != name
  {
    forall id | id in m ensures m[id].consumer != name {
      assert Owns(m, c, name, id);
    }
  }

  lemma NothingHeld(c: ByConsumer, name: Name)
    requires name !in c
    ensures Held(c, name) == []
  {
  }

  lemma KeysEqualCount(a: map<Name, Consumer>, b: map<Name, Consumer>)
    requires a.Keys == b.Keys
    ensures |a| == |b|
  {
  }

  /** A list is as long as its set if and only if it holds nothing twice. */
  lemma {:induction false} SetSize(ids: seq<Id>)
    ensures |IdSet(ids)| <= |ids| && (|IdSet(ids)| == |ids| <==> NoDuplicates(ids))
  {
    if NoDuplicates(ids) {
      DistinctCount(ids, IdSet(ids));
    } else {
      var i, j :| 0 <= i < j < |ids| && ids[i] == ids[j];
      var rest := ids[..j] + ids[j + 1..];
      assert rest[i] == ids[i];
      forall id ensures id in IdSet(ids) <==> id in IdSet(rest) {
        if id in IdSet(ids) {
          var k :| 0 <= k < |ids| && ids[k] == id;
          assert id == if k < j then rest[k] else if k == j then rest[i] else rest[k - 1];
        }
      }
      assert IdSet(ids) == IdSet(rest);
      SetSizeAtMost(rest);
    }
  }

  lemma {:induction false} SetSizeAtMost(ids: seq<Id>)
    ensures |IdSet(ids)| <= |ids|
    decreases |ids|
  {
    if ids == [] {
      assert IdSet(ids) == {};
    } else {
      SetSizeAtMost(ids[1..]);
      assert IdSet(ids) == {ids[0]} + IdSet(ids[1..]) by { HeadAndTail(ids); }
    }
  }

  /** Adding ids adds their number if and only if they differ and none of them was there. */
  lemma AddedCount(m0: ById, m: ById, name: Name, ids: seq<Id>, now: nat)
    requires AddedTo(m0, m, name, ids, now)
    ensures |m| == |m0| + |ids| <==> NoDuplicates(ids) && NoneIn(ids, m0)
  {
    var added := IdSet(ids);
    SetSize(ids);
    assert m.Keys == m0.Keys + added;
    assert |m.Keys| == |m0.Keys| + |added| - |m0.Keys * added|;
    if i :| 0 <= i < |ids| && ids[i] in m0 {
      assert ids[i] in m0.Keys * added;
    }
    if m0.Keys * added != {} {
      var x :| x in m0.Keys * added;
      assert x in ids;
    }
  }

  // ----- Claiming -----

  /** Has an entry been idle for long enough? */
  predicate IdleEnough(e: PendingEntry, now: nat, minIdle: nat) {
    SaturatingSub(now, e.lastDelivery) >= minIdle
  }

  /** Who claims, on what terms, and what the clock says then and at each hand-over. */
  datatype Claim = Claim(name: Name, minIdle: nat, force: bool, now: nat, later: nat -> nat)

  predicate Claimable(e: PendingEntry, c: Claim) {
    c.force || IdleEnough(e, c.now, c.minIdle)
  }

  function HandOver(e: PendingEntry, c: Claim, i: nat): PendingEntry {
    e.(consumer := c.name, deliveryCount := e.deliveryCount + 1, lastDelivery := c.later(i))
  }

  /** The pending entries after ids have been claimed one after the other. */
  ghost function ClaimMap(m: ById, c: Claim, ids: seq<Id>): ById {
    if ids == [] then m
    else
      var m', id := ClaimMap(m, c, ids[..|ids| - 1]), ids[|ids| - 1];
      if id in m' && Claimable(m'[id], c) then m'[id := HandOver(m'[id], c, |ids| - 1)] else m'
  }

  ghost function ClaimList(m: ById, c: Claim, ids: seq<Id>): seq<Id> {
    if ids == [] then []
    else
      var m', id := ClaimMap(m, c, ids[..|ids| - 1]), ids[|ids| - 1];
      ClaimList(m, c, ids[..|ids| - 1]) + if id in m' && Claimable(m'[id], c) then [id] else []
  }

  lemma NothingClaimed(m: ById, c: Claim, ids: seq<Id>)
    ensures ClaimMap(m, c, ids[..0]) == m && ClaimList(m, c, ids[..0]) == []
    ensures ids[..|ids|] == ids
  {
  }

  lemma ClaimNext(m: ById, c: Claim, ids: seq<Id>, i: nat)
    requires i < |ids|
    ensures var m', id := ClaimMap(m, c, ids[..i]), ids[i];
      var does := id in m' && Claimable(m'[id], c);
      && ClaimMap(m, c, ids[..i + 1]) == (if does then m'[id := HandOver(m'[id], c, i)] else m')
      && ClaimList(m, c, ids[..i + 1]) == ClaimList(m, c, ids[..i]) + if does then [id] else []
  {
    assert ids[..i + 1][..i] == ids[..i];
  }

  /** Exactly the ids that are pending and idle for long enough (or all pending ones, by force) are
      claimed. */
  ghost predicate RightlyClaimed(m: ById, c: Claim, ids: seq<Id>, claimed: seq<Id>) {
    forall id :: id in claimed <==> id in ids && id in m && Claimable(m[id], c)
  }

  /** The claimed ones have the new owner, and the others are as they were. */
  ghost predicate HandedOver(m: ById, c: Claim, ids: seq<Id>, m': ById, claimed: seq<Id>) {
    && m'.Keys == m.Keys
    && (forall id :: id in m && id !in claimed ==> m'[id] == m[id])
    && (forall i :: 0 <= i < |ids| && ids[i] in claimed && ids[i] in m ==> m'[ids[i]] == HandOver(m[ids[i]], c, i))
  }

  lemma LastIsNew(ids: seq<Id>, n: nat)
    requires n < |ids| && NoDuplicates(ids)
    ensures ids[n] !in ids[..n] && forall x :: x in ids[..n + 1] <==> x in ids[..n] || x == ids[n]
  {
  }

  lemma ClaimedMore(m: ById, c: Claim, ids: seq<Id>, n: nat, claimed: seq<Id>)
    requires n < |ids| && NoDuplicates(ids) && RightlyClaimed(m, c, ids[..n], claimed)
    ensures ids[n] !in claimed
    ensures RightlyClaimed(m, c, ids[..n + 1], claimed + if ids[n] in m && Claimable(m[ids[n]], c) then [ids[n]] else [])
  {
    LastIsNew(ids, n);
    hide Claimable, NoDuplicates;
  }

  lemma HandedMore(m: ById, c: Claim, ids: seq<Id>, n: nat, m': ById, claimed: seq<Id>, does: bool)
    requires n < |ids| && NoDuplicates(ids) && HandedOver(m, c, ids[..n], m', claimed) && ids[n] !in claimed
    requires does ==> ids[n] in m
    ensures ids[n] in m ==> ids[n] in m' && m'[ids[n]] == m[ids[n]]
    ensures HandedOver(m, c, ids[..n + 1], if does then m'[ids[n] := HandOver(m[ids[n]], c, n)] else m', claimed + if does then [ids[n]] else [])
  {
    LastIsNew(ids, n);
    hide HandOver, NoDuplicates;
    forall i | 0 <= i < n ensures ids[..n + 1][i] == ids[..n][i] && ids[i] != ids[n] {
      assert ids[i] in ids[..n];
    }
  }

  lemma SameKeys(m: ById, c: Claim, ids: seq<Id>, m': ById, claimed: seq<Id>)
    requires HandedOver(m, c, ids, m', claimed)
    ensures m'.Keys == m.Keys
  {
  }

  /** Of different ids, exactly those are claimed that are claimable, each once, and they change hands. */
  lemma {:induction false} ClaimedExactly(m: ById, c: Claim, ids: seq<Id>)
    requires NoDuplicates(ids)
    ensures RightlyClaimed(m, c, ids, ClaimList(m, c, ids))
    ensures HandedOver(m, c, ids, ClaimMap(m, c, ids), ClaimList(m, c, ids))
  {
    NothingClaimed(m, c, ids);
    if ids != [] {
      hide ClaimMap, ClaimList, RightlyClaimed, HandedOver;
      var n := |ids| - 1;
      ClaimedExactly(m, c, ids[..n]);
      ClaimNext(m, c, ids, n);
      var m', claimed := ClaimMap(m, c, ids[..n]), ClaimList(m, c, ids[..n]);
      ClaimedMore(m, c, ids, n, claimed);
      HandedMore(m, c, ids, n, m', claimed, ids[n] in m && Claimable(m[ids[n]], c));
      SameKeys(m, c, ids[..n], m', claimed);
      assert ids[..n + 1] == ids;
    }
  }

  /** An id that is pending is claimed, without force, from the time of its last delivery plus the asked
      idle time on, and not before. */
  lemma ClaimedFrom(m: ById, c: Claim, ids: seq<Id>, i: nat)
    requires NoDuplicates(ids) && i < |ids| && ids[i] in m && !c.force && c.minIdle > 0
    ensures ids[i] in ClaimList(m, c, ids) <==> c.now >= m[ids[i]].lastDelivery + c.minIdle
  {
    ClaimedExactly(m, c, ids);
    hide ClaimList, ClaimMap;
  }

  /** By force, or without an idle time, every pending id is claimed. */
  lemma ClaimedAnyway(m: ById, c: Claim, ids: seq<Id>, i: nat)
    requires NoDuplicates(ids) && i < |ids| && (c.force || c.minIdle == 0)
    ensures ids[i] in ClaimList(m, c, ids) <==> ids[i] in m
  {
    ClaimedExactly(m, c, ids);
    hide ClaimList, ClaimMap;
  }

  /** A claim protects its entry.  The claimed id has the new owner, one delivery more and the time of the
      hand-over, t.  A later claim without force gets nothing and changes nothing as long as its clock is
      below t plus its idle time; from then on it gets the id. */
  lemma ClaimProtects(m: ById, c: Claim, ids: seq<Id>, i: nat, c2: Claim)
    requires NoDuplicates(ids) && i < |ids| && ids[i] in ClaimList(m, c, ids)
    requires !c2.force && c2.minIdle > 0
    ensures var id, t, m' := ids[i], c.later(i), ClaimMap(m, c, ids);
      && id in m && id in m'
      && m'[id] == m[id].(consumer := c.name, deliveryCount := m[id].deliveryCount + 1, lastDelivery := t)
      && (c2.now < t + c2.minIdle ==> ClaimList(m', c2, [id]) == [] && ClaimMap(m', c2, [id]) == m')
      && (c2.now >= t + c2.minIdle ==>
            && ClaimList(m', c2, [id]) == [id]
            && ClaimMap(m', c2, [id]) == m'[id := m'[id].(consumer := c2.name, deliveryCount := m'[id].deliveryCount + 1, lastDelivery := c2.later(0))])
  {
    var id, m' := ids[i], ClaimMap(m, c, ids);
    ClaimedExactly(m, c, ids);
    assert m'[id] == HandOver(m[id], c, i);
    hide ClaimMap, ClaimList, RightlyClaimed, HandedOver, Claimable, IdleEnough;
    ClaimOfOne(m', c2, id);
  }

  lemma ClaimOfOne(m: ById, c: Claim, id: Id)
    requires id in m && !c.force && c.minIdle > 0
    ensures var due := c.now >= m[id].lastDelivery + c.minIdle;
      && ClaimList(m, c, [id]) == (if due then [id] else [])
      && ClaimMap(m, c, [id]) == (if due then m[id := HandOver(m[id], c, 0)] else m)
  {
    NothingClaimed(m, c, [id]);
    hide ClaimMap, ClaimList;
    ClaimNext(m, c, [id], 0);
    assert [id][..1] == [id] && [] + [id] == [id];
  }

  /** Idle is the time since the last delivery. */
  lemma IdleSince(e: PendingEntry, now: nat, minIdle: nat)
    ensures IdleEnough(e, now, minIdle) <==> minIdle == 0 || e.lastDelivery + minIdle <= now
  {
  }

  /** The first ids after `start` that have been idle for long enough. */
  ghost predicate FirstIdle(m: ById, start: Id, minIdle: nat, count: nat, now: nat, ids: seq<Id>) {
    && |ids| <= count
    && (forall i :: 0 <= i < |ids| ==> ids[i] in m && ids[i] > start && IdleEnough(m[ids[i]], now, minIdle))
    && (forall i, j :: 0 <= i < j < |ids| ==> ids[i] < ids[j])
    && (forall id :: id in m && id > start && IdleEnough(m[id], now, minIdle) && id !in ids ==>
          |ids| == count && forall i :: 0 <= i < |ids| ==> ids[i] < id)
  }

  lemma AllStillIdle(m: ById, c: Claim, start: Id, count: nat, now: nat, ids: seq<Id>)
    requires FirstIdle(m, start, c.minIdle, count, now, ids) && now <= c.now
    ensures ClaimList(m, c, ids) == ids
  {
    AllClaimed(m, c, ids);
  }

  ghost predicate AllClaimable(m: ById, c: Claim, ids: seq<Id>) {
    NoDuplicates(ids) && forall i :: 0 <= i < |ids| ==> ids[i] in m && Claimable(m[ids[i]], c)
  }

  lemma ClaimableInit(m: ById, c: Claim, ids: seq<Id>)
    requires AllClaimable(m, c, ids) && ids != []
    ensures var n := |ids| - 1;
      && AllClaimable(m, c, ids[..n]) && NoDuplicates(ids[..n]) && ids[n] !in ids[..n]
      && ids[n] in m && Claimable(m[ids[n]], c) && ids[..n + 1] == ids == ids[..n] + [ids[n]]
  {
    hide Claimable;
  }

  lemma {:induction false} AllClaimed(m: ById, c: Claim, ids: seq<Id>)
    requires AllClaimable(m, c, ids)
    ensures ClaimList(m, c, ids) == ids
  {
    hide Claimable, HandOver, ClaimMap, AllClaimable, NoDuplicates;
    if ids != [] {
      hide ClaimList;
      var n := |ids| - 1;
      ClaimableInit(m, c, ids);
      AllClaimed(m, c, ids[..n]);
      ClaimedExactly(m, c, ids[..n]);
      ClaimNext(m, c, ids, n);
    }
  }

  class ConsumerGroup {
    const pending: PendingEntryList
    var lastDelivered: Id
    var consumers: map<Name, Consumer>
    var consumerCount: nat
    var totalPending: nat

    ghost predicate Valid()
      reads this, pending
    {
      && pending.Valid()
      && ConsumersExact(pending.byConsumer, consumers)
      && consumerCount == |consumers| && totalPending == |pending.byId|
      && forall id :: id in pending.byId ==> id <= lastDelivered
    }

    constructor ()
      ensures Valid() && fresh(pending) && lastDelivered == 0
      ensures consumers == map[] && pending.byId == map[]
    {
      pending := new PendingEntryList();
      lastDelivered, consumers, consumerCount, totalPending := 0, map[], 0, 0;
    }

    /** Creates a consumer, or notes that it was seen. */
    method CreateConsumer(name: Name, now: nat) returns (created: bool)
      requires Valid()
      modifies this`consumers, this`consumerCount
      ensures Valid() && created == (name !in old(consumers))
      ensures name in consumers && consumers.Keys == old(consumers).Keys + {name}
      ensures consumers[name].lastSeen == now && consumers[name].idle == 0
      ensures forall n :: n in old(consumers) && n != name ==> consumers[n] == old(consumers)[n]
      ensures forall n :: n in old(consumers) ==> consumers[n].pendingCount == old(consumers)[n].pendingCount
    {
      if name in consumers {
        consumers := consumers[name := consumers[name].(lastSeen := now, idle := 0)];
        created := false;
      } else {
        consumers := consumers[name := Consumer(0, now, 0)];
        assert consumers.Keys == old(consumers).Keys + {name};
        consumerCount := consumerCount + 1;
        created := true;
      }
    }

    /** Deletes a consumer with everything pending for it. */
    method DeleteConsumer(name: Name) returns (removed: nat)
      requires Valid()
      modifies this`consumers, this`consumerCount, this`totalPending, pending
      ensures Valid() && consumers == old(consumers) - {name}
      ensures removed == |Held(old(pending.byConsumer), name)|
      ensures forall id :: id in pending.byId <==> id in old(pending.byId) && old(pending.byId)[id].consumer != name
      ensures forall id :: id in pending.byId ==> pending.byId[id] == old(pending.byId)[id]
    {
      hide Inverse, Extremes, Held;
      if name !in consumers {
        NothingOwned(pending.byId, pending.byConsumer, name);
        NothingHeld(pending.byConsumer, name);
        assert consumers - {name} == consumers;
        return 0;
      }
      DropExact(pending.byConsumer, consumers, name);
      consumers := consumers - {name};
      removed := pending.RemoveConsumerEntries(name);
      hide ConsumersExact;
      consumerCount := SaturatingSub(consumerCount, 1);
      totalPending := SaturatingSub(totalPending, removed);
    }

    /** Notes ids as delivered to a consumer.  All counters are added to whether or not an id was pending
        before: the total stays right if and only if the ids differ and none was, and the group stays
        valid if and only if moreover the last of them, or the one before, is the largest. */
    method AddPending(name: Name, ids: seq<Id>, now: nat)
      requires Valid()
      modifies this`lastDelivered, this`consumers, this`consumerCount, this`totalPending, pending
      ensures AddedTo(old(pending.byId), pending.byId, name, ids, now)
      ensures lastDelivered == NewLast(old(lastDelivered), ids)
      ensures totalPending == old(totalPending) + |ids| && consumers.Keys == old(consumers).Keys + {name}
      ensures totalPending == |pending.byId| <==> NoDuplicates(ids) && NoneIn(ids, old(pending.byId))
      ensures Valid() <==> NoDuplicates(ids) && NoneIn(ids, old(pending.byId)) && AllUpTo(ids, lastDelivered)
    {
      hide Extremes, Inverse, ConsumersExact, AddedTo, HeldMore, NoneIn, NoDuplicates, AllUpTo;
      var created := CreateConsumer(name, now);
      ghost var m0, c0, all := pending.byId, pending.byConsumer, consumers;
      AddEntries(name, ids, now);
      HeldGrows(c0, pending.byConsumer, consumers, name, ids, now);
      Credit(name, |ids|, now);
      KeysEqualCount(consumers, all);
      totalPending := totalPending + |ids|;
      AddedBelow(m0, pending.byId, name, ids, now, lastDelivered);
      AddedCount(m0, pending.byId, name, ids, now);
      Advance(ids);
    }

    /** The consumer's own counter. */
    method Credit(name: Name, n: nat, now: nat)
      requires name in consumers
      modifies this`consumers
      ensures consumers == old(consumers)[name := Consumer(old(consumers)[name].pendingCount + n, now, 0)]
    {
      consumers := consumers[name := Consumer(consumers[name].pendingCount + n, now, 0)];
    }

    method Advance(ids: seq<Id>)
      modifies this`lastDelivered
      ensures lastDelivered == NewLast(old(lastDelivered), ids)
    {
      if ids != [] {
        var last := ids[|ids| - 1];
        if last > lastDelivered {
          lastDelivered := last;
        }
      }
    }

    /** The loop that puts ids into the list; counters are left to the caller. */
    method AddEntries(name: Name, ids: seq<Id>, now: nat)
      requires pending.Valid()
      modifies pending
      ensures NoDuplicates(ids) && NoneIn(ids, old(pending.byId)) ==> pending.Valid()
      ensures AddedTo(old(pending.byId), pending.byId, name, ids, now)
      ensures pending.byConsumer == HeldMore(old(pending.byConsumer), name, ids)
    {
      hide Inverse, Extremes, Held, HeldMore, AddedTo, Assign, NoDuplicates, NoneIn;
      ghost var m0 := pending.byId;
      assert ids[..0] == [];
      AddedNothing(m0, name, now);
      HeldNothing(pending.byConsumer, name);
      for k := 0 to |ids|
        invariant NoDuplicates(ids) && NoneIn(ids, m0) ==> pending.Valid()
        invariant AddedTo(m0, pending.byId, name, ids[..k], now)
        invariant pending.byConsumer == HeldMore(old(pending.byConsumer), name, ids[..k])
      {
        if NoDuplicates(ids) && NoneIn(ids, m0) { StillFresh(m0, pending.byId, name, ids, k, now); }
        AddedOneMore(m0, pending.byId, name, ids, k, now);
        HeldOneMore(old(pending.byConsumer), name, ids[..k], ids[k]);
        assert ids[..k + 1] == ids[..k] + [ids[k]];
        pending.AddEntry(PendingEntry(ids[k], name, now, 1, now));
      }
      assert ids[..|ids|] == ids;
    }

    /** Acknowledges ids; those that are not pending are passed over. */
    method Acknowledge(ids: seq<Id>) returns (acked: nat)
      requires Valid()
      modifies this`consumers, this`totalPending, pending
      ensures Valid() && pending.byId == old(pending.byId) - IdSet(ids)
      ensures acked == |old(pending.byId)| - |pending.byId|
      ensures consumers.Keys == old(consumers).Keys
    {
      hide IdSet, Inverse, Extremes, ConsumersExact;
      ghost var all := consumers;
      acked := AckAll(ids);
      KeysEqualCount(consumers, all);
      if acked > 0 {
        totalPending := SaturatingSub(totalPending, acked);
      }
    }

    /** The acknowledgement loop; the total is left to the caller. */
    method AckAll(ids: seq<Id>) returns (acked: nat)
      requires pending.Valid() && ConsumersExact(pending.byConsumer, consumers)
      modifies this`consumers, pending
      ensures pending.Valid() && ConsumersExact(pending.byConsumer, consumers)
      ensures pending.byId == old(pending.byId) - IdSet(ids) && consumers.Keys == old(consumers).Keys
      ensures acked + |pending.byId| == |old(pending.byId)|
    {
      hide IdSet, Inverse, Extremes, ConsumersExact, PendingEntryList.Valid;
      acked := 0;
      IdSetAll(ids);
      MapMinus(pending.byId, {}, 0);
      for i := 0 to |ids|
        invariant pending.Valid() && ConsumersExact(pending.byConsumer, consumers)
        invariant consumers.Keys == old(consumers).Keys
        invariant pending.byId == old(pending.byId) - IdSet(ids[..i])
        invariant acked + |pending.byId| == |old(pending.byId)|
      {
        IdSetSnoc(ids, i);
        MapMinus(old(pending.byId), IdSet(ids[..i]), ids[i]);
        acked := AckOne(ids[i], acked);
      }
    }

    /** One round of the acknowledgement loop. */
    method AckOne(id: Id, acked0: nat) returns (acked: nat)
      requires pending.Valid() && ConsumersExact(pending.byConsumer, consumers)
      modifies this`consumers, pending
      ensures pending.Valid() && ConsumersExact(pending.byConsumer, consumers)
      ensures pending.byId == old(pending.byId) - {id} && consumers.Keys == old(consumers).Keys
      ensures acked + |pending.byId| == acked0 + |old(pending.byId)|
    {
      hide Extremes, Inverse, ConsumersExact, Release;
      acked := acked0;
      if id in pending.byId {
        ReleaseExact(pending.byId, pending.byConsumer, consumers, id);
      }
      var removed := pending.RemoveEntry(id);
      if removed.Some? {
        var name := removed.value.consumer;
        if name in consumers {
          consumers := consumers[name := consumers[name].(pendingCount := SaturatingSub(consumers[name].pendingCount, 1))];
        }
        acked := acked + 1;
        assert pending.byId.Keys == old(pending.byId).Keys - {id};
      }
    }

    /** Hands pending entries over to a consumer; `now` is read once, `later` at each hand-over. */
    method ClaimMessages(name: Name, minIdle: nat, ids: seq<Id>, force: bool, now: nat, later: nat -> nat) returns (claimed: seq<Id>)
      requires Valid()
      modifies this`consumers, this`consumerCount, pending
      ensures Valid() && consumers.Keys == old(consumers).Keys + {name}
      ensures var claim := Claim(name, minIdle, force, now, later);
        pending.byId == ClaimMap(old(pending.byId), claim, ids) && claimed == ClaimList(old(pending.byId), claim, ids)
    {
      hide Extremes, Inverse, ConsumersExact, Claimable, HandOver, ClaimMap, ClaimList;
      var claim := Claim(name, minIdle, force, now, later);
      claimed := [];
      var created := CreateConsumer(name, now);
      NothingClaimed(pending.byId, claim, ids);
      for i := 0 to |ids|
        invariant Valid() && consumers.Keys == old(consumers).Keys + {name}
        invariant pending.byId == ClaimMap(old(pending.byId), claim, ids[..i])
        invariant claimed == ClaimList(old(pending.byId), claim, ids[..i])
      {
        var id := ids[i];
        ClaimNext(old(pending.byId), claim, ids, i);
        if id in pending.byId {
          if !Claimable(pending.byId[id], claim) {
            continue;
          }
          ClaimOne(claim, id, i);
          claimed := claimed + [id];
        }
      }
    }

    /** One hand-over, with both counters. */
    method ClaimOne(claim: Claim, id: Id, i: nat)
      requires Valid() && id in pending.byId && claim.name in consumers
      modifies this`consumers, pending
      ensures Valid() && pending.byId == old(pending.byId)[id := HandOver(old(pending.byId)[id], claim, i)]
      ensures consumers.Keys == old(consumers).Keys
    {
      hide Extremes, Inverse, ConsumersExact, Assign, Release;
      var owner, name := pending.byId[id].consumer, claim.name;
      ReleaseExact(pending.byId, pending.byConsumer, consumers, id);
      consumers := consumers[owner := consumers[owner].(pendingCount := SaturatingSub(consumers[owner].pendingCount, 1))];
      AssignExact(Release(pending.byConsumer, owner, id), consumers, name, id, consumers[name].lastSeen, consumers[name].idle);
      consumers := consumers[name := Consumer(consumers[name].pendingCount + 1, consumers[name].lastSeen, consumers[name].idle)];
      pending.TransferOwnership(id, name, claim.later(i));
      assert pending.byId.Keys == old(pending.byId).Keys;
    }

    /** The ids after `start` that have been idle for long enough, at most `count`, ascending. */
    method IdleIds(start: Id, minIdle: nat, count: nat, now: nat) returns (ids: seq<Id>)
      ensures FirstIdle(pending.byId, start, minIdle, count, now, ids)
    {
      hide IdleEnough;
      ids := [];
      var rest := set id | id in pending.byId && id > start && IdleEnough(pending.byId[id], now, minIdle);
      while rest != {} && |ids| < count
        invariant |ids| <= count
        invariant forall id :: id in rest || id in ids ==> id in pending.byId && id > start && IdleEnough(pending.byId[id], now, minIdle)
        invariant forall id :: id in pending.byId && id > start && IdleEnough(pending.byId[id], now, minIdle) ==> id in rest || id in ids
        invariant forall i, id :: 0 <= i < |ids| && id in rest ==> ids[i] < id
        invariant forall i, j :: 0 <= i < j < |ids| ==> ids[i] < ids[j]
        decreases |rest|
      {
        var least := Smallest(rest);
        ids := ids + [least];
        rest := rest - {least};
        assert least in ids;
      }
      assert forall i :: 0 <= i < |ids| ==> ids[i] in ids;
    }

    /** Claims the first idle entries by itself and says where to go on.  The clock is read again for
        the claim: if it has not gone back, all of them are claimed. */
    method AutoClaim(name: Name, minIdle: nat, start: Id, count: nat, now: nat, now2: nat, later: nat -> nat)
      returns (claimed: seq<Id>, next: Id, ghost ids: seq<Id>)
      requires Valid()
      modifies this`consumers, this`consumerCount, pending
      ensures Valid() && FirstIdle(old(pending.byId), start, minIdle, count, now, ids)
      ensures var claim := Claim(name, minIdle, false, now2, later);
        pending.byId == ClaimMap(old(pending.byId), claim, ids) && claimed == ClaimList(old(pending.byId), claim, ids)
      ensures now <= now2 ==> claimed == ids
      ensures claimed == [] ==> next == 0
      ensures claimed != [] && Seq(claimed[|claimed| - 1]) + 1 < WORD ==> next == claimed[|claimed| - 1] + 1
    {
      hide Extremes, Inverse, ConsumersExact, ClaimMap, ClaimList, IdleEnough;
      var idle := IdleIds(start, minIdle, count, now);
      ids := idle;
      if now <= now2 {
        AllStillIdle(pending.byId, Claim(name, minIdle, false, now2, later), start, count, now, ids);
      }
      claimed := ClaimMessages(name, minIdle, idle, false, now2, later);
      if claimed != [] {
        var last := claimed[|claimed| - 1];
        next := Millis(last) * WORD + (Seq(last) + 1) % WORD;
      } else {
        next := 0;
      }
    }

    /** XGROUP SETID.  Forwards it keeps the group valid; backwards exactly as far as nothing pending is
        left ahead of the new id. */
    method SetId(id: Id)
      requires Valid()
      modifies this`lastDelivered
      ensures lastDelivered == id && (Valid() <==> forall x :: x in pending.byId ==> x <= id)
      ensures id >= old(lastDelivered) ==> Valid()
    {
      lastDelivered := id;
    }
  }

  method Smallest(s: set<Id>) returns (least: Id)
    requires s != {}
    ensures least in s && forall id :: id in s ==> least <= id
  {
    var rest := s;
    least :| least in rest;
    rest := rest - {least};
    while rest != {}
      invariant rest <= s && least in s
      invariant forall id :: id in s && id !in rest ==> least <= id
      decreases |rest|
    {
      var id :| id in rest;
      if id < least {
        least := id;
      }
      rest := rest - {id};
    }
  }
}
