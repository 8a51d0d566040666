/** Optimistic transactions: WATCH, MULTI, EXEC and their bookkeeping.

    A shard counts how many watches are registered in it and, as long as there are any, gives
    every modified key a fresh modification counter.  While nobody watches it skips even that.
    A connection remembers the counter each watched key had; EXEC compares. */
module Watch {
  import opened Bytes
  import opened Tables

  type Key = bytes
  type Client = nat

  const WORD: nat := 0x1_0000_0000_0000_0000
  const SHARDS: nat := 16

  /** The shard of a key: FNV-1a, reduced. */
  function ShardIndex(key: Key): (i: nat)
    ensures i < SHARDS
  {
    Fnv(key, 0xcbf29ce484222325) % SHARDS
  }

  function Fnv(key: Key, hash: nat): nat
    decreases |key|
  {
    if key == [] then hash
    else Fnv(key[1..], Xor(hash, key[0]) * 0x100000001b3 % WORD)
  }

  /** Exclusive or with a byte changes the low eight bits only. */
  function Xor(hash: nat, b: byte): nat {
    hash - hash % 256 + XorBits(hash % 256, b as nat, 8)
  }

  function XorBits(x: nat, y: nat, bits: nat): nat {
    if bits == 0 then 0
    else (if x % 2 == y % 2 then 0 else 1) + 2 * XorBits(x / 2, y / 2, bits - 1)
  }

  /** A shard of a database. */
  datatype Slot = Slot(db: nat, shard: nat)

  function SlotOf(db: nat, key: Key): Slot {
    Slot(db, ShardIndex(key))
  }

  /** The tracker of a shard; all three fields are 64-bit words. */
  datatype Tracker = Tracker(active: nat, counters: map<Key, nat>, global: nat) {
    function Counter(key: Key): nat {
      if key in counters then counters[key] else 0
    }

    function Register(): Tracker {
      this.(active := (active + 1) % WORD)
    }

    function Unregister(): Tracker {
      this.(active := (active + WORD - 1) % WORD)
    }

    /** The fast path: without watches a modification leaves no trace. */
    function Mark(key: Key): Tracker {
      if active == 0 then this
      else
        var c := (global + 1) % WORD;
        Tracker(active, counters[key := c], c)
    }
  }

  datatype Command = Command(id: nat)

  /** The transaction state of a connection. */
  datatype Conn = Conn(db: nat, inTransaction: bool, queue: seq<Command>, watched: map<Key, nat>, aborted: bool)

  const NEW_CONN: Conn := Conn(0, false, [], map[], false)

  /** The server as far as transactions go; `log` lists the commands that EXEC has run. */
  datatype State = State(trackers: map<Slot, Tracker>, conns: map<Client, Conn>, expired: set<(nat, Key)>, log: seq<Command>) {
    function At(slot: Slot): Tracker {
      if slot in trackers then trackers[slot] else Tracker(0, map[], 0)
    }

    function Set(slot: Slot, t: Tracker): State {
      this.(trackers := trackers[slot := t])
    }

    function SetConn(c: Client, conn: Conn): State {
      this.(conns := conns[c := conn])
    }

    /** Was the key modified since the counter was read, or has it expired? */
    predicate ModifiedSince(db: nat, key: Key, baseline: nat) {
      At(SlotOf(db, key)).Counter(key) > baseline || (db, key) in expired
    }
  }

  const START: State := State(map[], map[], {}, [])

  function MarkKey(s: State, db: nat, key: Key): State {
    s.Set(SlotOf(db, key), s.At(SlotOf(db, key)).Mark(key))
  }

  function MarkAll(s: State, db: nat, keys: seq<Key>): State
    decreases |keys|
  {
    if keys == [] then s else MarkAll(MarkKey(s, db, keys[0]), db, keys[1..])
  }

  function WatchKey(s: State, c: Client, key: Key): State
    requires c in s.conns
  {
    var conn := s.conns[c];
    var slot := SlotOf(conn.db, key);
    s.Set(slot, s.At(slot).Register()).SetConn(c, conn.(watched := conn.watched[key := s.At(slot).Counter(key)]))
  }

  function WatchAll(s: State, c: Client, keys: seq<Key>): State
    requires c in s.conns
    decreases |keys|
  {
    if keys == [] then s else WatchAll(WatchKey(s, c, keys[0]), c, keys[1..])
  }

  function UnwatchKey(s: State, c: Client, key: Key): State
    requires c in s.conns
  {
    var conn := s.conns[c];
    var slot := SlotOf(conn.db, key);
    s.Set(slot, s.At(slot).Unregister()).SetConn(c, conn.(watched := conn.watched - {key}))
  }

  function UnwatchAll(s: State, c: Client, keys: seq<Key>): State
    requires c in s.conns
    decreases |keys|
  {
    if keys == [] then s else UnwatchAll(UnwatchKey(s, c, keys[0]), c, keys[1..])
  }

  /** What a command does when it is run: the keys it marks as modified, and its reply. */
  datatype Effect = Effect(marks: seq<Key>, reply: nat)
  type World = (nat, Command) -> Effect

  datatype Reply = NotInTransaction | NullReply | Results(replies: seq<nat>)

  /** Runs queued commands in order, one reply each; `n` is the number already run. */
  function RunQueue(s: State, db: nat, queue: seq<Command>, n: nat, world: World): (r: (State, seq<nat>))
    decreases |queue|
  {
    if queue == [] then (s, [])
    else
      var e := world(n, queue[0]);
      var s' := MarkAll(s.(log := s.log + [queue[0]]), db, e.marks);
      var (s'', replies) := RunQueue(s', db, queue[1..], n + 1, world);
      (s'', [e.reply] + replies)
  }

  predicate Violated(s: State, conn: Conn) {
    exists k :: k in conn.watched && s.ModifiedSince(conn.db, k, conn.watched[k])
  }

  /** EXEC.  Registered watches are not given back. */
  function Exec(s: State, c: Client, world: World): (State, Reply) {
    if c !in s.conns || !s.conns[c].inTransaction then (s, NotInTransaction)
    else
      var conn := s.conns[c];
      var s' := s.SetConn(c, NEW_CONN.(db := conn.db));
      if Violated(s, conn) || conn.aborted then (s', NullReply)
      else
        var (s'', replies) := RunQueue(s', conn.db, conn.queue, 0, world);
        (s'', Results(replies))
  }

  datatype Step =
    | Connect(c: Client)
    | Disconnect(c: Client)
    | Select(c: Client, db: nat)
    | WatchStep(c: Client, keys: seq<Key>)
    | UnwatchStep(c: Client, order: seq<Key>)
    | Multi(c: Client)
    | Discard(c: Client)
    | Queue(c: Client, cmd: Command)
    | ExecStep(c: Client, world: World)
    | Write(db: nat, keys: seq<Key>)
    | TimePasses(expired: set<(nat, Key)>)

  /** `order` lists the keys of a map, each once: the order in which a hash map is walked. */
  ghost predicate Enumerates(order: seq<Key>, m: map<Key, nat>) {
    && (forall i :: 0 <= i < |order| ==> order[i] in m)
    && (forall k :: k in m ==> k in order)
    && (forall i, j :: 0 <= i < j < |order| ==> order[i] != order[j])
  }

  /** One step of the server. */
  function Next(s: State, step: Step): State {
    match step
    case Connect(c) => if c in s.conns then s else s.SetConn(c, NEW_CONN)
    case Disconnect(c) => s.(conns := s.conns - {c})
    case Select(c, db) => if c in s.conns then s.SetConn(c, s.conns[c].(db := db)) else s
    case WatchStep(c, keys) => if c in s.conns && !s.conns[c].inTransaction then WatchAll(s, c, keys) else s
    case UnwatchStep(c, order) => if c in s.conns then UnwatchAll(s, c, order) else s
    case Multi(c) =>
      if c in s.conns && !s.conns[c].inTransaction
      then s.SetConn(c, s.conns[c].(inTransaction := true, queue := [], aborted := false)) else s
    case Discard(c) =>
      if c in s.conns && s.conns[c].inTransaction then s.SetConn(c, NEW_CONN.(db := s.conns[c].db)) else s
    case Queue(c, cmd) =>
      if c in s.conns && s.conns[c].inTransaction
      then s.SetConn(c, s.conns[c].(queue := s.conns[c].queue + [cmd])) else s
    case ExecStep(c, world) => Exec(s, c, world).0
    case Write(db, keys) => MarkAll(s, db, keys)
    case TimePasses(e) => s.(expired := e)
  }

  /** What the steps do that matters for conflicts, in order. */
  datatype Event = Watched(c: Client, home: nat, key: Key) | Marked(db: nat, key: Key)

  function WatchEvents(c: Client, db: nat, keys: seq<Key>): seq<Event> {
    seq(|keys|, i requires 0 <= i < |keys| => Watched(c, db, keys[i]))
  }

  function MarkEvents(db: nat, keys: seq<Key>): seq<Event> {
    seq(|keys|, i requires 0 <= i < |keys| => Marked(db, keys[i]))
  }

  function RunEvents(db: nat, queue: seq<Command>, n: nat, world: World): seq<Event>
    decreases |queue|
  {
    if queue == [] then []
    else MarkEvents(db, world(n, queue[0]).marks) + RunEvents(db, queue[1..], n + 1, world)
  }

  function Events(s: State, step: Step): seq<Event> {
    match step
    case WatchStep(c, keys) => if c in s.conns && !s.conns[c].inTransaction then WatchEvents(c, s.conns[c].db, keys) else []
    case Write(db, keys) => MarkEvents(db, keys)
    case ExecStep(c, world) =>
      if Exec(s, c, world).1.Results? then RunEvents(s.conns[c].db, s.conns[c].queue, 0, world) else []
    case _ => []
  }

  predicate IsWatch(e: Event, c: Client, key: Key) {
    e.Watched? && e.c == c && e.key == key
  }

  /** The database in which the client gave its latest WATCH of the key. */
  function Home(h: seq<Event>, c: Client, key: Key): nat {
    if h == [] then 0
    else if IsWatch(h[|h| - 1], c, key) then h[|h| - 1].home
    else Home(h[..|h| - 1], c, key)
  }

  /** The key was marked in the database after the client's latest WATCH of it. */
  predicate MarkedSinceWatch(h: seq<Event>, c: Client, db: nat, key: Key) {
    if h == [] then false
    else
      var last := h[|h| - 1];
      if IsWatch(last, c, key) then false
      else if last == Marked(db, key) then true
      else MarkedSinceWatch(h[..|h| - 1], c, db, key)
  }

  /** The client is in the database in which it watched all its keys. */
  ghost predicate AtHome(s: State, h: seq<Event>, c: Client)
    requires c in s.conns
  {
    forall k :: k in s.conns[c].watched ==> Home(h, c, k) == s.conns[c].db
  }

  /** Steps a client may take: it gives its watches back in the database in which it watched. */
  ghost predicate Disciplined(s: State, h: seq<Event>, step: Step) {
    match step
    case UnwatchStep(c, order) => c in s.conns ==> Enumerates(order, s.conns[c].watched) && AtHome(s, h, c)
    case _ => true
  }

  // ----- The invariant -----

  /** The watches that are alive in a shard. */
  ghost function Live(conns: map<Client, Conn>, h: seq<Event>, slot: Slot): set<(Client, Key)> {
    set c, k | c in conns && k in conns[c].watched && SlotOf(Home(h, c, k), k) == slot :: (c, k)
  }

  ghost predicate IsLive(conns: map<Client, Conn>, h: seq<Event>, slot: Slot, p: (Client, Key)) {
    p.0 in conns && p.1 in conns[p.0].watched && SlotOf(Home(h, p.0, p.1), p.1) == slot
  }

  lemma LiveIs(conns: map<Client, Conn>, h: seq<Event>, slot: Slot)
    ensures forall p :: p in Live(conns, h, slot) <==> IsLive(conns, h, slot, p)
  {
  }

  /** A shard never counts fewer watches than are alive in it, and no word has wrapped. */
  ghost predicate SlotInv(s: State, h: seq<Event>, slot: Slot) {
    var t := s.At(slot);
    && |Live(s.conns, h, slot)| <= t.active <= |h|
    && t.global <= |h|
    && forall k :: k in t.counters ==> t.counters[k] <= t.global
  }

  /** The counter of a watched key has moved exactly when the key was marked since, both in the
      database of the watch. */
  ghost predicate WatchInv(s: State, h: seq<Event>, c: Client, k: Key)
    requires c in s.conns && k in s.conns[c].watched
  {
    var baseline, home := s.conns[c].watched[k], Home(h, c, k);
    var counter := s.At(SlotOf(home, k)).Counter(k);
    && baseline <= counter
    && (counter > baseline <==> MarkedSinceWatch(h, c, home, k))
  }

  ghost predicate Inv(s: State, h: seq<Event>) {
    && (forall slot :: SlotInv(s, h, slot))
    && (forall c, k :: c in s.conns && k in s.conns[c].watched ==> WatchInv(s, h, c, k))
    && (forall c :: c in s.conns ==> !s.conns[c].aborted)
  }

  lemma MarkedSinceMore(h: seq<Event>, e: Event, c: Client, db: nat, k: Key)
    ensures Home(h + [e], c, k) == if IsWatch(e, c, k) then e.home else Home(h, c, k)
    ensures MarkedSinceWatch(h + [e], c, db, k) ==
      if IsWatch(e, c, k) then false
      else if e == Marked(db, k) then true
      else MarkedSinceWatch(h, c, db, k)
  {
    assert (h + [e])[..|h|] == h;
  }

  /** Marking a key: the counter moves for everyone who watches it, and the fast path is only
      taken when nobody does. */
  lemma MarkKeeps(s: State, h: seq<Event>, db: nat, key: Key)
    requires Inv(s, h) && |h| + 1 < WORD
    ensures Inv(MarkKey(s, db, key), h + [Marked(db, key)])
  {
    hide ShardIndex, MarkedSinceWatch, Home;
    var s', h' := MarkKey(s, db, key), h + [Marked(db, key)];
    forall sl ensures SlotInv(s', h', sl) {
      assert SlotInv(s, h, sl);
      LiveSame(s.conns, h, Marked(db, key), sl);
    }
    forall c, k | c in s'.conns && k in s'.conns[c].watched ensures WatchInv(s', h', c, k) {
      MarkKeepsWatch(s, h, db, key, c, k);
    }
  }

  lemma LiveSame(conns: map<Client, Conn>, h: seq<Event>, e: Event, slot: Slot)
    requires e.Marked?
    ensures Live(conns, h + [e], slot) == Live(conns, h, slot)
  {
    hide ShardIndex, Home;
    forall c, k ensures Home(h + [e], c, k) == Home(h, c, k) {
      MarkedSinceMore(h, e, c, 0, k);
    }
  }

  lemma MarkKeepsWatch(s: State, h: seq<Event>, db: nat, key: Key, c: Client, k: Key)
    requires |h| + 1 < WORD && c in s.conns && k in s.conns[c].watched
    requires WatchInv(s, h, c, k) && SlotInv(s, h, SlotOf(db, key))
    ensures WatchInv(MarkKey(s, db, key), h + [Marked(db, key)], c, k)
  {
    hide ShardIndex, MarkedSinceWatch, Home;
    MarkedSinceMore(h, Marked(db, key), c, Home(h, c, k), k);
    if SlotOf(Home(h, c, k), k) == SlotOf(db, key) {
      assert (c, k) in Live(s.conns, h, SlotOf(db, key));
    }
  }

  lemma {:induction false} MarkAllKeeps(s: State, h: seq<Event>, db: nat, keys: seq<Key>)
    requires Inv(s, h) && |h| + |keys| < WORD
    ensures Inv(MarkAll(s, db, keys), h + MarkEvents(db, keys))
    decreases |keys|
  {
    var es := MarkEvents(db, keys);
    if keys == [] {
      assert h + es == h;
    } else {
      MarkKeeps(s, h, db, keys[0]);
      MarkAllKeeps(MarkKey(s, db, keys[0]), h + [Marked(db, keys[0])], db, keys[1..]);
      assert h + es == h + [Marked(db, keys[0])] + MarkEvents(db, keys[1..]);
    }
  }

  /** Registering a watch. */
  lemma WatchKeeps(s: State, h: seq<Event>, c: Client, key: Key)
    requires Inv(s, h) && |h| + 1 < WORD && c in s.conns
    ensures Inv(WatchKey(s, c, key), h + [Watched(c, s.conns[c].db, key)])
  {
    hide ShardIndex, MarkedSinceWatch, Home;
    var e := Watched(c, s.conns[c].db, key);
    var s', h' := WatchKey(s, c, key), h + [e];
    forall sl ensures SlotInv(s', h', sl) {
      assert SlotInv(s, h, sl);
      LiveGrows(s.conns, s'.conns, h, e, sl);
    }
    forall d, k | d in s'.conns && k in s'.conns[d].watched ensures WatchInv(s', h', d, k) {
      MarkedSinceMore(h, e, d, Home(h', d, k), k);
      if (d, k) != (c, key) {
        assert WatchInv(s, h, d, k);
      }
    }
  }

  lemma LiveGrows(conns: map<Client, Conn>, conns': map<Client, Conn>, h: seq<Event>, e: Event, slot: Slot)
    requires e.Watched? && e.c in conns && e.c in conns' && conns' == conns[e.c := conns'[e.c]]
    requires conns'[e.c].watched.Keys == conns[e.c].watched.Keys + {e.key}
    ensures |Live(conns', h + [e], slot)| <= |Live(conns, h, slot)| + (if SlotOf(e.home, e.key) == slot then 1 else 0)
  {
    var a, b := Live(conns, h, slot), Live(conns', h + [e], slot);
    LiveIs(conns, h, slot);
    LiveIs(conns', h + [e], slot);
    hide ShardIndex, Live, Home;
    var more := if SlotOf(e.home, e.key) == slot then {(e.c, e.key)} else {};
    forall p | p in b ensures p in a + more {
      assert IsLive(conns', h + [e], slot, p);
      MarkedSinceMore(h, e, p.0, 0, p.1);
      assert IsLive(conns, h, slot, p) || p == (e.c, e.key);
    }
    assert b <= a + more;
    SubsetSize(b, a + more);
  }

  lemma {:induction false} WatchAllKeeps(s: State, h: seq<Event>, c: Client, keys: seq<Key>)
    requires Inv(s, h) && |h| + |keys| < WORD && c in s.conns
    ensures Inv(WatchAll(s, c, keys), h + WatchEvents(c, s.conns[c].db, keys))
    decreases |keys|
  {
    hide Inv, ShardIndex;
    var db := s.conns[c].db;
    var es := WatchEvents(c, db, keys);
    if keys == [] {
      assert h + es == h;
    } else {
      WatchKeeps(s, h, c, keys[0]);
      WatchAllKeeps(WatchKey(s, c, keys[0]), h + [Watched(c, db, keys[0])], c, keys[1..]);
      assert h + es == h + [Watched(c, db, keys[0])] + WatchEvents(c, db, keys[1..]);
    }
  }

  /** Giving one registered watch back, where it was registered. */
  lemma UnwatchKeeps(s: State, h: seq<Event>, c: Client, key: Key)
    requires Inv(s, h) && |h| < WORD && c in s.conns && key in s.conns[c].watched && Home(h, c, key) == s.conns[c].db
    ensures Inv(UnwatchKey(s, c, key), h)
  {
    hide ShardIndex, MarkedSinceWatch, Home, Live;
    var s' := UnwatchKey(s, c, key);
    forall sl ensures SlotInv(s', h, sl) {
      assert SlotInv(s, h, sl);
      LiveShrinks(s.conns, s'.conns, h, c, key, sl);
    }
    forall d, k | d in s'.conns && k in s'.conns[d].watched ensures WatchInv(s', h, d, k) {
      assert WatchInv(s, h, d, k);
    }
  }

  lemma LiveShrinks(conns: map<Client, Conn>, conns': map<Client, Conn>, h: seq<Event>, c: Client, key: Key, slot: Slot)
    requires c in conns && c in conns' && conns' == conns[c := conns'[c]] && key in conns[c].watched
    requires conns'[c].watched.Keys == conns[c].watched.Keys - {key}
    ensures |Live(conns', h, slot)| == |Live(conns, h, slot)| - (if SlotOf(Home(h, c, key), key) == slot then 1 else 0)
  {
    var a, b := Live(conns, h, slot), Live(conns', h, slot);
    LiveIs(conns, h, slot);
    LiveIs(conns', h, slot);
    hide ShardIndex, Live, Home;
    assert IsLive(conns, h, slot, (c, key)) <==> SlotOf(Home(h, c, key), key) == slot;
    forall p ensures p in b <==> p in a && p != (c, key) {
      assert IsLive(conns', h, slot, p) <==> IsLive(conns, h, slot, p) && p != (c, key);
    }
    assert b == a - {(c, key)};
  }

  lemma {:induction false} UnwatchAllKeeps(s: State, h: seq<Event>, c: Client, keys: seq<Key>)
    requires Inv(s, h) && |h| < WORD && c in s.conns && AtHome(s, h, c)
    requires forall i :: 0 <= i < |keys| ==> keys[i] in s.conns[c].watched
    requires forall i, j :: 0 <= i < j < |keys| ==> keys[i] != keys[j]
    ensures Inv(UnwatchAll(s, c, keys), h)
    decreases |keys|
  {
    hide Inv, ShardIndex, Home;
    if keys != [] {
      UnwatchKeeps(s, h, c, keys[0]);
      UnwatchAllKeeps(UnwatchKey(s, c, keys[0]), h, c, keys[1..]);
    }
  }

  /** Dropping watches without giving them back, or changing anything else about a connection, its
      database too, is harmless. */
  lemma ForgetKeeps(s: State, h: seq<Event>, s': State)
    requires Inv(s, h)
    requires s'.trackers == s.trackers
    requires forall c :: c in s'.conns ==> !s'.conns[c].aborted
    requires forall c, k :: c in s'.conns && k in s'.conns[c].watched ==>
      c in s.conns && k in s.conns[c].watched && s'.conns[c].watched[k] == s.conns[c].watched[k]
    ensures Inv(s', h)
  {
    hide ShardIndex, MarkedSinceWatch, Home;
    forall sl ensures SlotInv(s', h, sl) {
      assert SlotInv(s, h, sl);
      var a, b := Live(s.conns, h, sl), Live(s'.conns, h, sl);
      assert b <= a;
      SubsetSize(b, a);
    }
    forall c, k | c in s'.conns && k in s'.conns[c].watched ensures WatchInv(s', h, c, k) {
      assert WatchInv(s, h, c, k);
    }
  }

  lemma {:induction false} RunQueueKeeps(s: State, h: seq<Event>, db: nat, queue: seq<Command>, n: nat, world: World)
    requires Inv(s, h) && |h| + |RunEvents(db, queue, n, world)| < WORD
    ensures Inv(RunQueue(s, db, queue, n, world).0, h + RunEvents(db, queue, n, world))
    decreases |queue|
  {
    hide Inv, ShardIndex;
    var es := RunEvents(db, queue, n, world);
    if queue == [] {
      assert h + es == h;
    } else {
      var marks := world(n, queue[0]).marks;
      var s0 := s.(log := s.log + [queue[0]]);
      LogKeeps(s, h, s0);
      var rest := RunEvents(db, queue[1..], n + 1, world);
      assert es == MarkEvents(db, marks) + rest;
      MarkAllKeeps(s0, h, db, marks);
      RunQueueKeeps(MarkAll(s0, db, marks), h + MarkEvents(db, marks), db, queue[1..], n + 1, world);
      assert h + es == h + MarkEvents(db, marks) + rest;
    }
  }

  lemma LogKeeps(s: State, h: seq<Event>, s': State)
    requires Inv(s, h) && s'.trackers == s.trackers && s'.conns == s.conns
    ensures Inv(s', h)
  {
    ForgetKeeps(s, h, s');
  }

  /** Every step keeps the invariant. */
  lemma StepKeeps(s: State, h: seq<Event>, step: Step)
    requires Inv(s, h) && Disciplined(s, h, step)
    requires |h| + |Events(s, step)| < WORD
    ensures Inv(Next(s, step), h + Events(s, step))
  {
    hide ShardIndex, SlotInv, WatchInv, RunEvents, RunQueue, MarkAll, WatchAll, UnwatchAll;
    match step
    case WatchStep(c, keys) =>
      if c in s.conns && !s.conns[c].inTransaction { WatchAllKeeps(s, h, c, keys); } else { assert h + [] == h; }
    case UnwatchStep(c, order) =>
      assert h + [] == h;
      if c in s.conns { UnwatchAllKeeps(s, h, c, order); }
    case Write(db, keys) => MarkAllKeeps(s, h, db, keys);
    case ExecStep(c, world) => ExecKeeps(s, h, c, world);
    case _ =>
      assert h + [] == h;
      ForgetKeeps(s, h, Next(s, step));
  }

  lemma ExecKeeps(s: State, h: seq<Event>, c: Client, world: World)
    requires Inv(s, h) && |h| + |Events(s, ExecStep(c, world))| < WORD
    ensures Inv(Exec(s, c, world).0, h + Events(s, ExecStep(c, world)))
  {
    hide ShardIndex, SlotInv, WatchInv, RunEvents, RunQueue;
    assert h + [] == h;
    if c in s.conns && s.conns[c].inTransaction {
      var conn := s.conns[c];
      var s' := s.SetConn(c, NEW_CONN.(db := conn.db));
      ForgetKeeps(s, h, s');
      if !Violated(s, conn) && !conn.aborted {
        RunQueueKeeps(s', h, conn.db, conn.queue, 0, world);
      }
    }
  }

  // ----- Whole runs -----

  /** The state and the events after a run. */
  ghost function After(steps: seq<Step>): State {
    if steps == [] then START else Next(After(steps[..|steps| - 1]), steps[|steps| - 1])
  }

  ghost function History(steps: seq<Step>): seq<Event> {
    if steps == [] then []
    else
      var init := steps[..|steps| - 1];
      History(init) + Events(After(init), steps[|steps| - 1])
  }

  /** Clients give their watches back in the database in which they watched. */
  ghost predicate DisciplinedRun(steps: seq<Step>) {
    forall i :: 0 <= i < |steps| ==> Disciplined(After(steps[..i]), History(steps[..i]), steps[i])
  }

  lemma {:induction false} RunKeeps(steps: seq<Step>)
    requires DisciplinedRun(steps) && |History(steps)| < WORD
    ensures Inv(After(steps), History(steps))
    decreases |steps|
  {
    hide SlotInv, Next, Events, Disciplined;
    if steps == [] {
      StartInv();
    } else {
      var init, last := steps[..|steps| - 1], steps[|steps| - 1];
      assert Disciplined(After(steps[..|init|]), History(steps[..|init|]), steps[|init|]);
      assert forall i :: 0 <= i < |init| ==> init[..i] == steps[..i] && init[i] == steps[i];
      RunKeeps(init);
      StepKeeps(After(init), History(init), last);
    }
  }

  lemma StartInv()
    ensures Inv(START, [])
  {
    forall slot ensures SlotInv(START, [], slot) {
      assert Live(map[], [], slot) == {};
    }
  }

  /** No conflict is lost and none is invented: after any disciplined run, an EXEC that is given in the
      database of the watches runs its queue exactly when no watched key was marked since the client's
      latest WATCH of it and none has expired.  Where the client was in the meantime is of no account. */
  lemma ExecRunsIffUnmarked(steps: seq<Step>, c: Client, world: World)
    requires DisciplinedRun(steps) && |History(steps)| < WORD
    requires c in After(steps).conns && After(steps).conns[c].inTransaction && AtHome(After(steps), History(steps), c)
    ensures var s, conn := After(steps), After(steps).conns[c];
      Exec(s, c, world).1.Results? <==>
        forall k :: k in conn.watched ==>
          !MarkedSinceWatch(History(steps), c, conn.db, k) && (conn.db, k) !in s.expired
  {
    hide ShardIndex, SlotInv, MarkedSinceWatch, After, History, Home;
    RunKeeps(steps);
    var s, h := After(steps), History(steps);
    var conn := s.conns[c];
    forall k | k in conn.watched
      ensures s.ModifiedSince(conn.db, k, conn.watched[k]) <==>
        MarkedSinceWatch(h, c, conn.db, k) || (conn.db, k) in s.expired
    {
      assert WatchInv(s, h, c, k);
    }
  }

  // ----- Both halves of the guard are needed -----

  lemma MarkElsewhere(s: State, db: nat, key: Key, other: nat, k: Key)
    requires db != other
    ensures MarkKey(s, db, key).At(SlotOf(other, k)) == s.At(SlotOf(other, k))
  {
    hide ShardIndex;
  }

  /** An EXEC does not see what is written in other databases than the one it is given in. */
  lemma {:induction false} ExecIsBlindElsewhere(s: State, db: nat, keys: seq<Key>, c: Client, world: World)
    requires c in s.conns ==> s.conns[c].db != db
    ensures Exec(MarkAll(s, db, keys), c, world).1.Results? <==> Exec(s, c, world).1.Results?
    decreases |keys|
  {
    hide ShardIndex, RunQueue;
    if keys != [] {
      var s' := MarkKey(s, db, keys[0]);
      ExecIsBlindElsewhere(s', db, keys[1..], c, world);
      if c in s.conns {
        var conn := s.conns[c];
        forall k | k in conn.watched
          ensures s'.ModifiedSince(conn.db, k, conn.watched[k]) <==> s.ModifiedSince(conn.db, k, conn.watched[k])
        {
          MarkElsewhere(s, db, keys[0], conn.db, k);
        }
      }
    }
  }

  /** EXEC away from home: after any disciplined run, if a client is not in the database in which it
      watched some key, a write of that key there is a conflict that its EXEC does not see. */
  lemma ExecAwayLosesConflicts(steps: seq<Step>, c: Client, key: Key, world: World) returns (longer: seq<Step>)
    requires DisciplinedRun(steps) && c in After(steps).conns && key in After(steps).conns[c].watched
    requires Home(History(steps), c, key) != After(steps).conns[c].db
    requires Exec(After(steps), c, world).1.Results?
    ensures DisciplinedRun(longer) && c in After(longer).conns && key in After(longer).conns[c].watched
    ensures MarkedSinceWatch(History(longer), c, Home(History(longer), c, key), key)
    ensures Exec(After(longer), c, world).1.Results?
  {
    hide ShardIndex, RunQueue;
    var h, s := History(steps), After(steps);
    var home := Home(h, c, key);
    var step := Write(home, [key]);
    longer := steps + [step];
    AfterOneMore(steps, step);
    assert History(longer) == h + [Marked(home, key)];
    MarkedSinceMore(h, Marked(home, key), c, home, key);
    MarkAllExact(s, home, [key]);
    ExecIsBlindElsewhere(s, home, [key], c, world);
    forall i | 0 <= i < |longer| ensures Disciplined(After(longer[..i]), History(longer[..i]), longer[i]) {
      if i < |steps| {
        assert longer[..i] == steps[..i] && longer[i] == steps[i];
      }
    }
  }

  /** No shard counts fewer watches than are alive in it. */
  ghost predicate CountsCover(s: State, h: seq<Event>) {
    forall slot :: Covered(s, h, slot)
  }

  ghost predicate Covered(s: State, h: seq<Event>, slot: Slot) {
    |Live(s.conns, h, slot)| <= s.At(slot).active <= |h|
  }

  /** Shard by shard. */
  lemma CoveredAfter(s: State, h: seq<Event>, c: Client, key: Key, slot: Slot)
    requires SlotInv(s, h, slot) && |h| + 1 < WORD && c in s.conns && key in s.conns[c].watched
    ensures var found, home := SlotOf(s.conns[c].db, key), SlotOf(Home(h, c, key), key);
      Covered(UnwatchKey(s, c, key), h, slot) <==> slot != found || slot == home || |Live(s.conns, h, slot)| < s.At(slot).active
  {
    hide ShardIndex, Home, Live;
    LiveShrinks(s.conns, UnwatchKey(s, c, key).conns, h, c, key, slot);
  }

  /** Giving a watch back is harmless if and only if it is given back in the shard where it was
      registered, or that shard counts more watches than are alive in it. */
  lemma UnwatchHarmlessIff(s: State, h: seq<Event>, c: Client, key: Key)
    requires Inv(s, h) && |h| + 1 < WORD && c in s.conns && key in s.conns[c].watched
    ensures var found, home := SlotOf(s.conns[c].db, key), SlotOf(Home(h, c, key), key);
      CountsCover(UnwatchKey(s, c, key), h) <==> home == found || |Live(s.conns, h, found)| < s.At(found).active
  {
    hide ShardIndex, WatchInv, Home, Live, SlotInv, Covered;
    forall slot { CoveredAfter(s, h, c, key, slot); }
    var s', found := UnwatchKey(s, c, key), SlotOf(s.conns[c].db, key);
    assert CountsCover(s', h) ==> Covered(s', h, found);
  }

  /** UNWATCH away from home: it takes away a registration of the shard that it finds there.  If that was
      the last one, the next write in that shard leaves no trace, and nobody who watches there sees it. */
  lemma UnwatchAwayBlinds(s: State, c: Client, key: Key, k: Key)
    requires c in s.conns && SlotOf(s.conns[c].db, k) == SlotOf(s.conns[c].db, key)
    requires s.At(SlotOf(s.conns[c].db, key)).active == 1
    ensures var s', db := UnwatchKey(s, c, key), s.conns[c].db;
      && MarkKey(s', db, k).At(SlotOf(db, k)) == s'.At(SlotOf(db, k))
      && s'.At(SlotOf(db, k)).counters == s.At(SlotOf(db, k)).counters
  {
    hide ShardIndex;
  }

  /** EXEC runs the whole queue, each command once and in order, with one reply for each; and
      whatever the outcome, a transaction leaves the connection without queue and watches. */
  lemma ExecIsExact(s: State, c: Client, world: World)
    requires c in s.conns && s.conns[c].inTransaction
    ensures var (s', reply) := Exec(s, c, world);
      && s'.conns == s.conns[c := NEW_CONN.(db := s.conns[c].db)]
      && (reply == NullReply ==> s'.log == s.log && s'.trackers == s.trackers)
      && (reply.Results? ==>
            && s'.log == s.log + s.conns[c].queue
            && |reply.replies| == |s.conns[c].queue|
            && forall i :: 0 <= i < |reply.replies| ==> reply.replies[i] == world(i, s.conns[c].queue[i]).reply)
  {
    hide ShardIndex;
    var conn := s.conns[c];
    RunQueueExact(s.SetConn(c, NEW_CONN.(db := conn.db)), conn.db, conn.queue, 0, world);
  }

  lemma {:induction false} MarkAllExact(s: State, db: nat, keys: seq<Key>)
    ensures MarkAll(s, db, keys).conns == s.conns && MarkAll(s, db, keys).log == s.log
    decreases |keys|
  {
    hide ShardIndex;
    if keys != [] {
      MarkAllExact(MarkKey(s, db, keys[0]), db, keys[1..]);
    }
  }

  lemma {:induction false} RunQueueExact(s: State, db: nat, queue: seq<Command>, n: nat, world: World)
    ensures var (s', replies) := RunQueue(s, db, queue, n, world);
      && s'.conns == s.conns && s'.log == s.log + queue && |replies| == |queue|
      && forall i :: 0 <= i < |replies| ==> replies[i] == world(n + i, queue[i]).reply
    decreases |queue|
  {
    hide MarkAll;
    if queue != [] {
      var s0 := s.(log := s.log + [queue[0]]);
      var marks := world(n, queue[0]).marks;
      MarkAllExact(s0, db, marks);
      RunQueueExact(MarkAll(s0, db, marks), db, queue[1..], n + 1, world);
      assert s.log + [queue[0]] + queue[1..] == s.log + queue;
    }
  }

  /** Unwatching touches the client's own watches only. */
  lemma {:induction false} UnwatchAllConn(s: State, c: Client, keys: seq<Key>)
    requires c in s.conns
    ensures var s' := UnwatchAll(s, c, keys);
      && s'.conns == s.conns[c := s.conns[c].(watched := s.conns[c].watched - (set k | k in keys))]
      && s'.expired == s.expired && s'.log == s.log && (keys == [] ==> s' == s)
    decreases |keys|
  {
    hide ShardIndex;
    if keys == [] {
      assert s.conns[c].watched - (set k | k in keys) == s.conns[c].watched;
    } else {
      UnwatchAllConn(UnwatchKey(s, c, keys[0]), c, keys[1..]);
      assert s.conns[c].watched - {keys[0]} - (set k | k in keys[1..]) == s.conns[c].watched - (set k | k in keys);
    }
  }

  /** So does watching: every key named is watched afterwards. */
  lemma {:induction false} WatchAllConn(s: State, c: Client, keys: seq<Key>)
    requires c in s.conns
    ensures var s' := WatchAll(s, c, keys);
      && s'.conns.Keys == s.conns.Keys && (forall d :: d in s.conns && d != c ==> s'.conns[d] == s.conns[d])
      && s'.conns[c].(watched := map[]) == s.conns[c].(watched := map[])
      && s'.conns[c].watched.Keys == s.conns[c].watched.Keys + (set k | k in keys)
    decreases |keys|
  {
    hide ShardIndex;
    if keys != [] {
      WatchAllConn(WatchKey(s, c, keys[0]), c, keys[1..]);
      assert (set k | k in keys) == {keys[0]} + (set k | k in keys[1..]) by { HeadAndTail(keys); }
    }
  }

  lemma AfterOneMore(steps: seq<Step>, step: Step)
    ensures After(steps + [step]) == Next(After(steps), step)
    ensures History(steps + [step]) == History(steps) + Events(After(steps), step)
  {
    assert (steps + [step])[..|steps|] == steps;
  }

  lemma OneKey(s: State, c: Client, key: Key)
    requires c in s.conns
    ensures WatchAll(s, c, [key]) == WatchKey(s, c, key)
    ensures UnwatchAll(s, c, [key]) == UnwatchKey(s, c, key)
    ensures MarkAll(s, s.conns[c].db, [key]) == MarkKey(s, s.conns[c].db, key)
  {
    assert [key][1..] == [];
    assert WatchAll(WatchKey(s, c, key), c, []) == WatchKey(s, c, key);
    assert UnwatchAll(UnwatchKey(s, c, key), c, []) == UnwatchKey(s, c, key);
    assert MarkAll(MarkKey(s, s.conns[c].db, key), s.conns[c].db, []) == MarkKey(s, s.conns[c].db, key);
  }

  /** Two clients watch the same key in different databases. */
  lemma TwoWatchers(a: Client, c: Client, key: Key) returns (steps: seq<Step>)
    requires a != c
    ensures var s := After(steps);
      && s.conns.Keys == {a, c} && s.expired == {}
      && s.conns[a].db == 0 && s.conns[c] == Conn(1, false, [], map[key := 0], false)
      && Home(History(steps), c, key) == 1
      && s.At(SlotOf(1, key)) == Tracker(1, map[], 0)
  {
    hide ShardIndex, After, History, WatchAll, UnwatchAll, MarkAll;
    StartOfRun();
    steps := [] + [Connect(a)];
    AfterOneMore([], Connect(a));
    AfterOneMore(steps, Connect(c));
    steps := steps + [Connect(c)];
    OneKey(After(steps), a, key);
    AfterOneMore(steps, WatchStep(a, [key]));
    steps := steps + [WatchStep(a, [key])];
    AfterOneMore(steps, Select(c, 1));
    steps := steps + [Select(c, 1)];
    OneKey(After(steps), c, key);
    AfterOneMore(steps, WatchStep(c, [key]));
    var h := History(steps);
    steps := steps + [WatchStep(c, [key])];
    assert History(steps) == h + [Watched(c, 1, key)];
    MarkedSinceMore(h, Watched(c, 1, key), c, 1, key);
  }

  /** So it happens: a client that watches a key, changes to another database and gives its watches up
      there makes another client, which never left its database, lose a conflict. */
  lemma UnwatchAwayLosesConflicts(key: Key, world: World) returns (steps: seq<Step>, c: Client)
    ensures c in After(steps).conns && key in After(steps).conns[c].watched && AtHome(After(steps), History(steps), c)
    ensures MarkedSinceWatch(History(steps), c, After(steps).conns[c].db, key)
    ensures Exec(After(steps), c, world).1.Results?
  {
    hide ShardIndex, After, History, WatchAll, UnwatchAll, MarkAll, RunQueue, Home;
    var a: Client := 1;
    c := 2;
    steps := TwoWatchers(a, c, key);
    var h0 := History(steps);
    AfterOneMore(steps, Select(a, 1));
    steps := steps + [Select(a, 1)];
    OneKey(After(steps), a, key);
    AfterOneMore(steps, UnwatchStep(a, [key]));
    steps := steps + [UnwatchStep(a, [key])];
    assert After(steps).At(SlotOf(1, key)) == Tracker(0, map[], 0);
    OneKey(After(steps), c, key);
    assert History(steps) == h0 + [] + [] == h0;
    AfterOneMore(steps, Write(1, [key]));
    steps := steps + [Write(1, [key])];
    var h := History(steps);
    assert h == h0 + [Marked(1, key)];
    MarkedSinceMore(h0, Marked(1, key), c, 1, key);
    AfterOneMore(steps, Multi(c));
    steps := steps + [Multi(c)];
    assert History(steps) == h + [] == h;
  }

  /** And the other half is no less real: WATCH in one database, SELECT another, a write in the first,
      and EXEC runs. */
  lemma ExecAwayHappens(key: Key, world: World) returns (steps: seq<Step>, c: Client)
    ensures DisciplinedRun(steps) && c in After(steps).conns && key in After(steps).conns[c].watched
    ensures MarkedSinceWatch(History(steps), c, Home(History(steps), c, key), key)
    ensures Exec(After(steps), c, world).1.Results?
  {
    c := 1;
    steps := WatchThenSelect(c, key, world);
    steps := ExecAwayLosesConflicts(steps, c, key, world);
  }

  lemma WatchThenSelect(c: Client, key: Key, world: World) returns (steps: seq<Step>)
    ensures DisciplinedRun(steps) && c in After(steps).conns && key in After(steps).conns[c].watched
    ensures Home(History(steps), c, key) == 0 && After(steps).conns[c].db == 1
    ensures Exec(After(steps), c, world).1.Results?
  {
    hide ShardIndex, After, History, WatchAll, UnwatchAll, MarkAll, RunQueue, Home;
    StartOfRun();
    steps := [] + [Connect(c)];
    AfterOneMore([], Connect(c));
    OneKey(After(steps), c, key);
    AfterOneMore(steps, WatchStep(c, [key]));
    var h := History(steps);
    steps := steps + [WatchStep(c, [key])];
    assert History(steps) == h + [Watched(c, 0, key)];
    MarkedSinceMore(h, Watched(c, 0, key), c, 0, key);
    h := History(steps);
    AfterOneMore(steps, Select(c, 1));
    steps := steps + [Select(c, 1)];
    AfterOneMore(steps, Multi(c));
    steps := steps + [Multi(c)];
    assert History(steps) == h + [] + [] == h;
  }

  lemma StartOfRun()
    ensures After([]) == START && History([]) == []
  {
  }
}
