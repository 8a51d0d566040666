/** The transaction handlers of the server, as it runs them: loops over keys and queues that
    update the shards and the connections in place.  Each is proved to be the step of the
    same name in `Watch`. */
module WatchServer {
  import opened Bytes
  import opened Tables
  import opened Watch

  datatype Answer = Ok | Queued | WrongArguments | NotAllowedInMulti | Nested | WithoutMulti | InvalidKey | NoConnection

  /** The keys before the first argument that is not a key. */
  function LeadingKeys(args: seq<Option<Key>>): (keys: seq<Key>)
    ensures |keys| <= |args|
    ensures forall i :: 0 <= i < |keys| ==> args[i] == Some(keys[i])
    ensures |keys| < |args| ==> args[|keys|].None?
  {
    if args == [] || args[0].None? then [] else [args[0].value] + LeadingKeys(args[1..])
  }

  class Server {
    var trackers: map<Slot, Tracker>
    var conns: map<Client, Conn>
    var expired: set<(nat, Key)>
    var log: seq<Command>

    ghost function View(): State
      reads this
    {
      State(trackers, conns, expired, log)
    }

    constructor ()
      ensures View() == START
    {
      trackers, conns, expired, log := map[], map[], {}, [];
    }

    method Load(slot: Slot) returns (t: Tracker)
      ensures t == View().At(slot)
    {
      t := if slot in trackers then trackers[slot] else Tracker(0, map[], 0);
    }

    /** Marks a key as modified, unless nobody watches anything in its shard. */
    method MarkModified(db: nat, key: Key)
      modifies this`trackers
      ensures View() == MarkKey(old(View()), db, key)
    {
      var slot := SlotOf(db, key);
      var t := Load(slot);
      if t.active == 0 {
        trackers := trackers[slot := t];
        return;
      }
      var c := (t.global + 1) % WORD;
      trackers := trackers[slot := Tracker(t.active, t.counters[key := c], c)];
    }

    method MarkAllModified(db: nat, keys: seq<Key>)
      modifies this`trackers
      ensures View() == MarkAll(old(View()), db, keys)
    {
      assert keys[0..] == keys;
      for n := 0 to |keys|
        invariant MarkAll(View(), db, keys[n..]) == MarkAll(old(View()), db, keys)
      {
        assert keys[n..][1..] == keys[n + 1..];
        MarkModified(db, keys[n]);
      }
    }

    /** Registers a watch and returns the key's present counter. */
    method RegisterWatch(db: nat, key: Key) returns (baseline: nat)
      modifies this`trackers
      ensures baseline == old(View()).At(SlotOf(db, key)).Counter(key)
      ensures View() == old(View()).Set(SlotOf(db, key), old(View()).At(SlotOf(db, key)).Register())
    {
      var slot := SlotOf(db, key);
      var t := Load(slot);
      trackers := trackers[slot := t.(active := (t.active + 1) % WORD)];
      baseline := if key in t.counters then t.counters[key] else 0;
    }

    method UnregisterWatch(db: nat, key: Key)
      modifies this`trackers
      ensures View() == old(View()).Set(SlotOf(db, key), old(View()).At(SlotOf(db, key)).Unregister())
    {
      var slot := SlotOf(db, key);
      var t := Load(slot);
      trackers := trackers[slot := t.(active := (t.active + WORD - 1) % WORD)];
    }

    /** Explicit modification first, expiry second. */
    method WasModifiedSince(db: nat, key: Key, baseline: nat) returns (modified: bool)
      ensures modified <==> View().ModifiedSince(db, key, baseline)
    {
      var t := Load(SlotOf(db, key));
      var current := if key in t.counters then t.counters[key] else 0;
      if current > baseline {
        return true;
      }
      modified := (db, key) in expired;
    }

    /** WATCH: arguments before an invalid one are watched all the same. */
    method HandleWatch(c: Client, args: seq<Option<Key>>) returns (answer: Answer)
      requires c in conns
      modifies this`trackers, this`conns
      ensures old(View()).conns[c].inTransaction || args == [] ==> View() == old(View())
      ensures args != [] ==> View() == Next(old(View()), WatchStep(c, LeadingKeys(args)))
      ensures answer == if args == [] then WrongArguments
        else if old(View()).conns[c].inTransaction then NotAllowedInMulti
        else if |LeadingKeys(args)| < |args| then InvalidKey else Ok
    {
      hide ShardIndex;
      if args == [] {
        return WrongArguments;
      }
      if conns[c].inTransaction {
        return NotAllowedInMulti;
      }
      ghost var keys := LeadingKeys(args);
      assert keys[0..] == keys;
      var n := 0;
      while n < |args|
        invariant 0 <= n <= |keys| && c in conns
        invariant WatchAll(View(), c, keys[n..]) == WatchAll(old(View()), c, keys)
      {
        if args[n].None? {
          assert keys[n..] == [];
          return InvalidKey;
        }
        var key := args[n].value;
        assert keys[n..][0] == key && keys[n..][1..] == keys[n + 1..];
        var baseline := RegisterWatch(conns[c].db, key);
        conns := conns[c := conns[c].(watched := conns[c].watched[key := baseline])];
        n := n + 1;
      }
      assert keys[n..] == [];
      answer := Ok;
    }

    /** UNWATCH: every watched key is given back once, in whatever order the map is walked. */
    method HandleUnwatch(c: Client) returns (ghost order: seq<Key>)
      requires c in conns
      modifies this`trackers, this`conns
      ensures Enumerates(order, old(conns[c].watched))
      ensures View() == Next(old(View()), UnwatchStep(c, order))
      ensures c in conns && conns[c].watched == map[]
    {
      hide ShardIndex, UnwatchAll;
      var conn := conns[c];
      var keys := WalkKeys(conn.watched);
      order := keys;
      ghost var before := View();
      UnwatchAllConn(before, c, []);
      assert keys[..0] == [];
      for n := 0 to |keys|
        invariant conns == old(conns)
        invariant View() == UnwatchAll(before, c, keys[..n]).(conns := old(conns))
      {
        UnwatchAllConn(before, c, keys[..n]);
        UnwatchSnoc(before, c, keys[..n], keys[n]);
        assert keys[..n] + [keys[n]] == keys[..n + 1];
        UnregisterWatch(conn.db, keys[n]);
      }
      assert keys[..|keys|] == keys;
      UnwatchAllConn(before, c, keys);
      assert conn.watched - (set k | k in keys) == map[];
      conns := conns[c := conn.(watched := map[])];
    }

    /** MULTI. */
    method HandleMulti(c: Client) returns (answer: Answer)
      requires c in conns
      modifies this`conns
      ensures View() == Next(old(View()), Multi(c))
      ensures answer == if old(conns[c].inTransaction) then Nested else Ok
    {
      if conns[c].inTransaction {
        return Nested;
      }
      conns := conns[c := conns[c].(inTransaction := true, queue := [], aborted := false)];
      answer := Ok;
    }

    method HandleDiscard(c: Client) returns (answer: Answer)
      requires c in conns
      modifies this`conns
      ensures View() == Next(old(View()), Discard(c))
      ensures answer == if old(conns[c].inTransaction) then Ok else WithoutMulti
    {
      if !conns[c].inTransaction {
        return WithoutMulti;
      }
      conns := conns[c := conns[c].(inTransaction := false, queue := [], watched := map[], aborted := false)];
      answer := Ok;
    }

    method QueueCommand(c: Client, cmd: Command) returns (answer: Answer)
      requires c in conns && conns[c].inTransaction
      modifies this`conns
      ensures View() == Next(old(View()), Queue(c, cmd)) && answer == Queued
    {
      conns := conns[c := conns[c].(queue := conns[c].queue + [cmd])];
      answer := Queued;
    }

    /** The check of the watched keys: stops at the first one that was modified. */
    method AnyModified(db: nat, watched: map<Key, nat>) returns (found: bool)
      ensures found <==> exists k :: k in watched && View().ModifiedSince(db, k, watched[k])
    {
      var rest := watched.Keys;
      while rest != {}
        invariant rest <= watched.Keys
        invariant forall k :: k in watched && k !in rest ==> !View().ModifiedSince(db, k, watched[k])
        decreases |rest|
      {
        var key :| key in rest;
        var modified := WasModifiedSince(db, key, watched[key]);
        if modified {
          return true;
        }
        rest := rest - {key};
      }
      found := false;
    }

    /** EXEC: check, clear, run. */
    method HandleExec(c: Client, world: World) returns (reply: Reply)
      modifies this`trackers, this`conns, this`log
      ensures (View(), reply) == Exec(old(View()), c, world)
    {
      hide ShardIndex;
      if c !in conns || !conns[c].inTransaction {
        return NotInTransaction;
      }
      var conn := conns[c];
      var modified := AnyModified(conn.db, conn.watched);
      conns := conns[c := Conn(conn.db, false, [], map[], false)];
      if modified {
        return NullReply;
      }
      if conn.aborted {
        return NullReply;
      }
      var results := RunCommands(conn.db, conn.queue, world);
      reply := Results(results);
    }

    /** Runs the queued commands one after the other. */
    method RunCommands(db: nat, queue: seq<Command>, world: World) returns (results: seq<nat>)
      modifies this`trackers, this`log
      ensures (View(), results) == RunQueue(old(View()), db, queue, 0, world)
    {
      hide ShardIndex;
      results := [];
      assert queue[0..] == queue;
      ghost var all := RunQueue(View(), db, queue, 0, world);
      assert [] + all.1 == all.1;
      for n := 0 to |queue|
        invariant RunQueue(View(), db, queue[n..], n, world).0 == all.0
        invariant results + RunQueue(View(), db, queue[n..], n, world).1 == all.1
      {
        assert queue[n..][1..] == queue[n + 1..];
        var effect := world(n, queue[n]);
        log := log + [queue[n]];
        MarkAllModified(db, effect.marks);
        results := results + [effect.reply];
      }
      assert queue[|queue|..] == [] && results + [] == results;
    }
  }

  /** The keys of a map in some order. */
  method WalkKeys(m: map<Key, nat>) returns (order: seq<Key>)
    ensures Enumerates(order, m)
  {
    order := WalkSet(m.Keys);
    WalkCovers(order, m);
  }

  lemma {:induction false} UnwatchSnoc(s: State, c: Client, order: seq<Key>, key: Key)
    requires c in s.conns
    ensures c in UnwatchAll(s, c, order).conns
    ensures UnwatchAll(s, c, order + [key]) == UnwatchKey(UnwatchAll(s, c, order), c, key)
    decreases |order|
  {
    hide ShardIndex;
    if order == [] {
      assert (order + [key])[1..] == [];
    } else {
      assert (order + [key])[1..] == order[1..] + [key];
      UnwatchSnoc(UnwatchKey(s, c, order[0]), c, order[1..], key);
    }
  }
}
