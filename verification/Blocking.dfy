/** The registry of clients that wait for an element of a list: a queue for each key, in the order
    of arrival, and the set of the keys that have one. */
module Blocking {
  import opened Bytes
  import opened KeyOrder
  import opened Tables

  /** What a client waits to do. */
  datatype BlockingOp = PopLeft | PopRight | ReadStream(after: seq<(nat, bytes, string)>)

  /** A waiting client; `since` is when it began to wait. */
  datatype Client = Client(conn: nat, since: nat, deadline: Option<nat>, op: BlockingOp)

  type Queue = seq<Client>
  type Queues = map<bytes, Queue>

  // ----- What the operations mean for one queue -----

  predicate Due(c: Client, now: nat) {
    c.deadline.Some? && now >= c.deadline.value
  }

  function NotDue(q: Queue, now: nat): Queue {
    if q == [] then [] else (if Due(q[0], now) then [] else [q[0]]) + NotDue(q[1..], now)
  }

  /** The connections that are due, the last first. */
  function DueConns(q: Queue, now: nat): seq<nat> {
    if q == [] then [] else DueConns(q[1..], now) + if Due(q[0], now) then [q[0].conn] else []
  }

  function Without(q: Queue, conn: nat): Queue {
    if q == [] then [] else (if q[0].conn == conn then [] else [q[0]]) + Without(q[1..], conn)
  }

  // ----- What the operations mean for all queues -----

  function QueueOf(m: Queues, k: bytes): Queue {
    if k in m then m[k] else []
  }

  /** A queue that becomes empty goes away. */
  function With(m: Queues, k: bytes, q: Queue): Queues {
    if q == [] then m - {k} else m[k := q]
  }

  function Registered(m: Queues, c: Client, ks: seq<bytes>): Queues
    decreases |ks|
  {
    if ks == [] then m else Registered(m[ks[0] := QueueOf(m, ks[0]) + [c]], c, ks[1..])
  }

  datatype Op =
    | Register(client: Client, keys: seq<bytes>)
    | Unregister(conn: nat)
    | Pop(key: bytes)
    | Expire(now: nat)

  function After(m: Queues, op: Op): Queues {
    match op
    case Register(c, ks) => Registered(m, c, ks)
    case Unregister(conn) => map k | k in m && Without(m[k], conn) != [] :: Without(m[k], conn)
    case Pop(k) => if QueueOf(m, k) == [] then m - {k} else With(m, k, QueueOf(m, k)[1..])
    case Expire(now) => map k | k in m && NotDue(m[k], now) != [] :: NotDue(m[k], now)
  }

  function Replay(ops: seq<Op>): Queues {
    if ops == [] then map[] else After(Replay(ops[..|ops| - 1]), ops[|ops| - 1])
  }

  // ----- Expiry in one queue: indices first, then removal from the back -----

  ghost predicate NoneDue(q: Queue, from: nat, to: nat, now: nat) {
    forall i :: from <= i < to && i < |q| ==> !Due(q[i], now)
  }

  /** Clients that are not due do not matter. */
  lemma {:induction false} SkipNotDue(q: Queue, from: nat, to: nat, now: nat)
    requires from <= to <= |q| && NoneDue(q, from, to, now)
    ensures q[..from] + NotDue(q[from..], now) == q[..to] + NotDue(q[to..], now)
    ensures DueConns(q[from..], now) == DueConns(q[to..], now)
    decreases |q| - from
  {
    hide Due;
    if from < to {
      SkipNotDue(q, from + 1, to, now);
      assert q[from..][1..] == q[from + 1..];
      assert q[..from] + [q[from]] == q[..from + 1];
      Associative(q[..from], [q[from]], NotDue(q[from + 1..], now));
    }
  }

  lemma TakeDue(q: Queue, i: nat, now: nat)
    requires i < |q| && Due(q[i], now)
    ensures NotDue(q[i..], now) == NotDue(q[i + 1..], now)
    ensures DueConns(q[i..], now) == DueConns(q[i + 1..], now) + [q[i].conn]
  {
    hide Due;
    assert q[i..][1..] == q[i + 1..];
    assert [] + NotDue(q[i + 1..], now) == NotDue(q[i + 1..], now);
  }

  /** The indices of the clients that are due, in ascending order. */
  ghost predicate DueAt(q: Queue, n: nat, now: nat, at: seq<nat>) {
    && n <= |q|
    && (forall j :: 0 <= j < |at| ==> at[j] < n && Due(q[at[j]], now))
    && (forall j, l :: 0 <= j < l < |at| ==> at[j] < at[l])
    && (forall i :: 0 <= i < n && Due(q[i], now) ==> i in at)
  }

  method FindDue(q: Queue, now: nat) returns (at: seq<nat>)
    ensures DueAt(q, |q|, now, at)
  {
    hide Due;
    at := [];
    for i := 0 to |q|
      invariant DueAt(q, i, now, at)
    {
      if Due(q[i], now) {
        at := at + [i];
      }
    }
  }

  /** Between one due client and the next there is none. */
  lemma Gap(q: Queue, now: nat, at: seq<nat>, j: nat)
    requires DueAt(q, |q|, now, at) && j <= |at|
    ensures NoneDue(q, if j == 0 then 0 else at[j - 1] + 1, if j == |at| then |q| else at[j], now)
  {
    hide Due;
    var from, to := if j == 0 then 0 else at[j - 1] + 1, if j == |at| then |q| else at[j];
    forall l | 0 <= l < |at| ensures at[l] < from || at[l] >= to {
      if j > 0 && l < j - 1 { assert at[l] < at[j - 1]; }
      if j < l { assert at[j] < at[l]; }
    }
  }

  method ExpireQueue(q: Queue, now: nat) returns (q': Queue, conns: seq<nat>)
    ensures q' == NotDue(q, now) && conns == DueConns(q, now)
  {
    hide Due, NotDue, DueConns;
    var at := FindDue(q, now);
    q', conns := q, [];
    NobodyLeft(q, now);
    ghost var c := |q|;
    var j := |at|;
    while j > 0
      invariant 0 <= j <= |at| && c == if j == |at| then |q| else at[j]
      invariant c <= |q| && q' == q[..c] + NotDue(q[c..], now) && conns == DueConns(q[c..], now)
    {
      j := j - 1;
      var i := at[j];
      Gap(q, now, at, j + 1);
      SkipNotDue(q, i + 1, c, now);
      TakeDue(q, i, now);
      RemoveAtIs(q, i, NotDue(q[i + 1..], now));
      conns := conns + [q'[i].conn];
      q' := q'[..i] + q'[i + 1..];
      c := i;
    }
    Gap(q, now, at, 0);
    SkipNotDue(q, 0, c, now);
    assert q[..0] + NotDue(q[0..], now) == NotDue(q[0..], now) && q[0..] == q;
  }

  lemma NobodyLeft(q: Queue, now: nat)
    ensures q[..|q|] + NotDue(q[|q|..], now) == q && DueConns(q[|q|..], now) == []
  {
  }

  lemma RemoveAtIs(q: Queue, i: nat, tail: Queue)
    requires i < |q|
    ensures var r := q[..i + 1] + tail; r[i] == q[i] && r[..i] + r[i + 1..] == q[..i] + tail
  {
  }

  /** Expiry takes out exactly the due clients, and leaves the others in their order. */
  lemma {:induction false} ExpirySplits(q: Queue, now: nat)
    ensures multiset(NotDue(q, now)) <= multiset(q)
    ensures forall c :: c in NotDue(q, now) <==> c in q && !Due(c, now)
    ensures forall n :: n in DueConns(q, now) <==> exists c :: c in q && Due(c, now) && c.conn == n
    ensures |NotDue(q, now)| + |DueConns(q, now)| == |q|
  {
    hide Due;
    if q != [] {
      ExpirySplits(q[1..], now);
      HeadAndTail(q);
      forall n ensures n in DueConns(q, now) <==> exists c :: c in q && Due(c, now) && c.conn == n {
        if n in DueConns(q[1..], now) {
          var c :| c in q[1..] && Due(c, now) && c.conn == n;
          assert c in q;
        }
        if Due(q[0], now) && q[0].conn == n { assert q[0] in q; }
      }
      assert multiset(q) == multiset{q[0]} + multiset(q[1..]);
    }
  }

  // ----- The registry -----

  ghost function NonEmpty(m: Queues): Queues {
    map k | k in m && m[k] != [] :: m[k]
  }

  ghost function EachNotDue(m: Queues, now: nat): Queues {
    map k | k in m :: NotDue(m[k], now)
  }

  ghost function EachWithout(m: Queues, conn: nat): Queues {
    map k | k in m :: Without(m[k], conn)
  }

  lemma EachIs(m: Queues, conn: nat, now: nat)
    ensures NonEmpty(EachWithout(m, conn)) == After(m, Unregister(conn))
    ensures NonEmpty(EachNotDue(m, now)) == After(m, Expire(now))
  {
    hide NotDue, Without;
  }

  ghost predicate NoEmptyQueue(m: Queues) {
    forall k :: k in m ==> m[k] != []
  }

  class Registry {
    var queues: Queues
    var keys: set<bytes>

    /** The keys are those of the queues, and no queue is empty. */
    ghost predicate Valid()
      reads this
    {
      keys == queues.Keys && NoEmptyQueue(queues)
    }

    constructor ()
      ensures Valid() && queues == map[]
    {
      queues, keys := map[], {};
    }

    method Block(c: Client, ks: seq<bytes>)
      requires Valid()
      modifies this
      ensures Valid() && queues == After(old(queues), Register(c, ks))
    {
      assert ks[0..] == ks;
      for i := 0 to |ks|
        invariant Valid() && Registered(queues, c, ks[i..]) == Registered(old(queues), c, ks)
      {
        assert ks[i..][1..] == ks[i + 1..];
        queues := queues[ks[i] := QueueOf(queues, ks[i]) + [c]];
        keys := keys + {ks[i]};
      }
    }

    method HasBlocked(k: bytes) returns (r: bool)
      requires Valid()
      ensures r <==> QueueOf(queues, k) != []
    {
      r := k in keys;
    }

    /** The first in the queue. */
    method PopFirst(k: bytes) returns (r: Option<Client>)
      requires Valid()
      modifies this
      ensures Valid() && queues == After(old(queues), Pop(k))
      ensures var q := QueueOf(old(queues), k); r == if q == [] then None else Some(q[0])
    {
      if k !in queues {
        return None;
      }
      var q := queues[k];
      r := Some(q[0]);
      queues := queues[k := q[1..]];
      if q[1..] == [] {
        queues := queues - {k};
        keys := keys - {k};
      }
    }

    /** A connection goes away. */
    method Leave(conn: nat)
      requires Valid()
      modifies this
      ensures Valid() && queues == After(old(queues), Unregister(conn))
    {
      hide Half, Without, NoEmptyQueue, After, NonEmpty;
      var walk := WalkSet(queues.Keys);
      ghost var m := queues;
      ghost var target := EachWithout(m, conn);
      var empty: seq<bytes> := [];
      HalfStart(m, target);
      assert walk[..0] == [];
      for n := 0 to |walk|
        invariant keys == m.Keys && Half(m, target, queues, walk[..n], empty)
      {
        var k := walk[n];
        HalfNext(m, target, queues, walk, n, empty);
        var q := Retain(queues[k], conn);
        queues := queues[k := q];
        if q == [] {
          empty := empty + [k];
        }
      }
      HalfDone(m, target, queues, walk, empty);
      EachIs(m, conn, 0);
      DropKeys(empty);
    }

    /** Clean-up of the empty queues. */
    method DropKeys(empty: seq<bytes>)
      requires keys == queues.Keys && forall k :: k in empty <==> k in queues && queues[k] == []
      modifies this
      ensures Valid() && queues == NonEmpty(old(queues))
    {
      for n := 0 to |empty|
        invariant queues == map k | k in old(queues) && k !in empty[..n] :: old(queues)[k]
        invariant keys == queues.Keys
      {
        assert empty[..n + 1] == empty[..n] + [empty[n]];
        queues := queues - {empty[n]};
        keys := keys - {empty[n]};
      }
      assert empty[..|empty|] == empty;
    }

    /** Takes out every client that is due, and returns them. */
    method ExpireAll(now: nat) returns (conns: seq<nat>, ghost walk: seq<bytes>)
      requires Valid()
      modifies this
      ensures Valid() && queues == After(old(queues), Expire(now))
      ensures Distinct(walk) && (forall k :: k in walk <==> k in old(queues))
      ensures conns == AllDue(old(queues), walk, now)
    {
      hide Half, NotDue, DueConns, NoEmptyQueue, AllDue, After, NonEmpty;
      var order := WalkSet(queues.Keys);
      ghost var m := queues;
      ghost var target := EachNotDue(m, now);
      var empty: seq<bytes> := [];
      conns := [];
      NoneWalked(m, now);
      HalfStart(m, target);
      assert order[..0] == [];
      for n := 0 to |order|
        invariant keys == m.Keys && Half(m, target, queues, order[..n], empty)
        invariant conns == AllDue(m, order[..n], now)
      {
        var k := order[n];
        HalfNext(m, target, queues, order, n, empty);
        AllDueMore(m, order, n, now);
        var q, due := ExpireQueue(queues[k], now);
        queues := queues[k := q];
        conns := conns + due;
        if q == [] {
          empty := empty + [k];
        }
      }
      HalfDone(m, target, queues, order, empty);
      assert order[..|order|] == order;
      WalkCovers(order, m);
      EachIs(m, 0, now);
      DropKeys(empty);
      walk := order;
    }

    /** Any run from an empty registry. */
    method Run(ops: seq<Op>)
      requires Valid() && queues == map[]
      modifies this
      ensures Valid() && queues == Replay(ops)
    {
      hide After;
      for n := 0 to |ops|
        invariant Valid() && queues == Replay(ops[..n])
      {
        assert ops[..n + 1][..n] == ops[..n];
        match ops[n]
        case Register(c, ks) => Block(c, ks);
        case Unregister(conn) => Leave(conn);
        case Pop(k) => var c := PopFirst(k);
        case Expire(now) => var conns, walk := ExpireAll(now);
      }
      assert ops[..|ops|] == ops;
    }
  }

  function AllDue(m: Queues, walk: seq<bytes>, now: nat): seq<nat> {
    if walk == [] then []
    else AllDue(m, walk[..|walk| - 1], now) + DueConns(QueueOf(m, walk[|walk| - 1]), now)
  }

  lemma NoneWalked(m: Queues, now: nat)
    ensures AllDue(m, [], now) == []
  {
  }

  lemma AllDueMore(m: Queues, walk: seq<bytes>, n: nat, now: nat)
    requires n < |walk|
    ensures AllDue(m, walk[..n + 1], now) == AllDue(m, walk[..n], now) + DueConns(QueueOf(m, walk[n]), now)
  {
    assert walk[..n + 1][..n] == walk[..n];
  }

  method Retain(q: Queue, conn: nat) returns (r: Queue)
    ensures r == Without(q, conn)
  {
    r := [];
    assert q[0..] == q && [] + Without(q, conn) == Without(q, conn);
    for i := 0 to |q|
      invariant r + Without(q[i..], conn) == Without(q, conn)
    {
      assert q[i..][1..] == q[i + 1..];
      if q[i].conn != conn {
        Associative(r, [q[i]], Without(q[i + 1..], conn));
        r := r + [q[i]];
      } else {
        assert [] + Without(q[i + 1..], conn) == Without(q[i + 1..], conn);
      }
    }
    assert r + [] == r;
  }

  lemma WalkMore(walk: seq<bytes>, n: nat)
    requires n < |walk| && Distinct(walk)
    ensures forall k :: k in walk[..n + 1] <==> k in walk[..n] || k == walk[n]
    ensures walk[n] !in walk[..n]
  {
    assert walk[..n + 1] == walk[..n] + [walk[n]];
  }

  /** The queues in the middle of a walk: those walked are as they shall be, and the empty ones
      among them are noted. */
  ghost predicate Half(m: Queues, target: Queues, queues: Queues, walked: seq<bytes>, empty: seq<bytes>) {
    && queues.Keys == m.Keys == target.Keys
    && (forall k :: k in m ==> queues[k] == if k in walked then target[k] else m[k])
    && (forall k :: k in empty <==> k in walked && k in m && target[k] == [])
  }

  lemma HalfStart(m: Queues, target: Queues)
    requires target.Keys == m.Keys
    ensures Half(m, target, m, [], [])
  {
  }

  lemma HalfNext(m: Queues, target: Queues, queues: Queues, walk: seq<bytes>, n: nat, empty: seq<bytes>)
    requires n < |walk| && Distinct(walk) && walk[n] in m && Half(m, target, queues, walk[..n], empty)
    ensures var k := walk[n];
      && k in queues && k in target && queues[k] == m[k]
      && Half(m, target, queues[k := target[k]], walk[..n + 1], if target[k] == [] then empty + [k] else empty)
  {
    WalkMore(walk, n);
  }

  lemma HalfDone(m: Queues, target: Queues, queues: Queues, walk: seq<bytes>, empty: seq<bytes>)
    requires Half(m, target, queues, walk[..|walk|], empty) && (set k | k in walk) == m.Keys
    ensures queues == target && forall k :: k in empty <==> k in queues && queues[k] == []
  {
    WalkCovers(walk, m);
    assert walk[..|walk|] == walk;
  }

  // ----- First come, first served -----

  ghost predicate ByArrival(q: Queue, now: nat) {
    && (forall i :: 0 <= i < |q| ==> q[i].since < now)
    && Sorted(q)
  }

  ghost predicate AllByArrival(m: Queues, now: nat) {
    forall k :: k in m ==> ByArrival(m[k], now)
  }

  lemma {:induction false} RegisterKeepsOrder(m: Queues, c: Client, ks: seq<bytes>, now: nat)
    requires AllByArrival(m, now + 1) && c.since == now
    ensures AllByArrival(Registered(m, c, ks), now + 1)
    decreases |ks|
  {
    if ks != [] {
      var q := QueueOf(m, ks[0]) + [c];
      assert ByArrival(q, now + 1);
      RegisterKeepsOrder(m[ks[0] := q], c, ks[1..], now);
    }
  }

  ghost predicate NotBefore(q: Queue, t: nat) {
    forall i :: 0 <= i < |q| ==> t <= q[i].since
  }

  ghost predicate Sorted(q: Queue) {
    forall i, j :: 0 <= i < j < |q| ==> q[i].since <= q[j].since
  }

  lemma ConsSorted(c: Client, q: Queue)
    requires Sorted(q) && NotBefore(q, c.since)
    ensures Sorted([c] + q)
  {
  }

  lemma ConsByArrival(c: Client, q: Queue, now: nat, t: nat)
    requires ByArrival(q, now) && NotBefore(q, c.since) && t <= c.since < now
    ensures ByArrival([c] + q, now) && NotBefore([c] + q, t)
    ensures ByArrival([] + q, now) && NotBefore([] + q, t)
  {
    ConsSorted(c, q);
    assert [] + q == q;
    hide Sorted;
  }

  lemma TailByArrival(q: Queue, now: nat)
    requires ByArrival(q, now) && q != []
    ensures ByArrival(q[1..], now) && NotBefore(q[1..], q[0].since)
  {
  }

  lemma {:induction false} NotDueKeepsOrder(q: Queue, now: nat, clock: nat, t: nat)
    requires ByArrival(q, now) && NotBefore(q, t)
    ensures ByArrival(NotDue(q, clock), now) && NotBefore(NotDue(q, clock), t)
  {
    if q != [] {
      TailByArrival(q, now);
      assert t <= q[0].since < now;
      hide ByArrival, NotBefore;
      NotDueKeepsOrder(q[1..], now, clock, q[0].since);
      ConsByArrival(q[0], NotDue(q[1..], clock), now, t);
    }
  }

  lemma {:induction false} WithoutKeepsOrder(q: Queue, now: nat, conn: nat, t: nat)
    requires ByArrival(q, now) && NotBefore(q, t)
    ensures ByArrival(Without(q, conn), now) && NotBefore(Without(q, conn), t)
  {
    if q != [] {
      TailByArrival(q, now);
      assert t <= q[0].since < now;
      hide ByArrival, NotBefore;
      WithoutKeepsOrder(q[1..], now, conn, q[0].since);
      ConsByArrival(q[0], Without(q[1..], conn), now, t);
    }
  }

  /** In every run the clients of a queue stand in the order in which they arrived, so that the one
      that is popped has waited longest. */
  lemma {:induction false} FirstComeFirstServed(ops: seq<Op>)
    requires forall n :: 0 <= n < |ops| && ops[n].Register? ==> ops[n].client.since == n
    ensures AllByArrival(Replay(ops), |ops|)
  {
    if ops != [] {
      var n := |ops| - 1;
      var m := Replay(ops[..n]);
      FirstComeFirstServed(ops[..n]);
      assert AllByArrival(m, n + 1);
      match ops[n]
      case Register(c, ks) => RegisterKeepsOrder(m, c, ks, n);
      case Unregister(conn) =>
        forall k | k in m ensures ByArrival(Without(m[k], conn), n + 1) { WithoutKeepsOrder(m[k], n + 1, conn, 0); }
      case Expire(clock) =>
        forall k | k in m ensures ByArrival(NotDue(m[k], clock), n + 1) { NotDueKeepsOrder(m[k], n + 1, clock, 0); }
      case Pop(_) =>
    }
  }

  // ----- Client by client -----

  /** A client without a deadline never expires, one with a deadline from that time on. */
  lemma DueFromDeadline(q: Queue, c: Client, now: nat)
    requires c in q
    ensures c.deadline == None ==> c in NotDue(q, now)
    ensures c.deadline.Some? ==> (c in NotDue(q, now) <==> now < c.deadline.value)
  {
    ExpirySplits(q, now);
  }

  function Copies(c: Client, n: nat): Queue {
    seq(n, i => c)
  }

  /** How often a key is named. */
  function Named(ks: seq<bytes>, k: bytes): nat {
    if ks == [] then 0 else (if ks[0] == k then 1 else 0) + Named(ks[1..], k)
  }

  /** Blocking on keys puts the client at the end of the queue of every key named, as often as it is named,
      and leaves all other queues alone. */
  lemma {:induction false} BlockedOnEvery(m: Queues, c: Client, ks: seq<bytes>, k: bytes)
    ensures QueueOf(After(m, Register(c, ks)), k) == QueueOf(m, k) + Copies(c, Named(ks, k))
    ensures k in ks <==> Named(ks, k) > 0
    decreases |ks|
  {
    if ks == [] {
      assert QueueOf(m, k) + Copies(c, 0) == QueueOf(m, k);
    } else {
      var m' := m[ks[0] := QueueOf(m, ks[0]) + [c]];
      BlockedOnEvery(m', c, ks[1..], k);
      var n := Named(ks[1..], k);
      assert [c] + Copies(c, n) == Copies(c, n + 1);
      Associative(QueueOf(m, k), [c], Copies(c, n));
      assert k in ks <==> k == ks[0] || k in ks[1..] by { HeadAndTail(ks); }
    }
  }

  lemma {:induction false} WithoutIs(q: Queue, conn: nat)
    ensures forall c :: c in Without(q, conn) <==> c in q && c.conn != conn
  {
    if q != [] {
      WithoutIs(q[1..], conn);
      HeadAndTail(q);
    }
  }

  /** After a connection has left, nobody of it waits anywhere, and all others wait where they did. */
  lemma NobodyWaits(m: Queues, conn: nat, k: bytes)
    ensures forall c :: c in QueueOf(After(m, Unregister(conn)), k) <==> c in QueueOf(m, k) && c.conn != conn
  {
    if k in m { WithoutIs(m[k], conn); }
  }
}
