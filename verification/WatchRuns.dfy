/** What a client may rely on, in terms of the steps that were taken and of nothing else: what it
    watches, what it has queued, and whether a key was written since. */
module WatchRuns {
  import opened Bytes
  import opened Watch

  /** A client as its own steps leave it: for each key it watches the database of its latest WATCH. */
  datatype Told = Told(connected: bool, db: nat, inMulti: bool, queue: seq<Command>, watching: map<Key, nat>)

  const STRANGER: Told := Told(false, 0, false, [], map[])

  /** SELECT sets the database.  WATCH outside MULTI adds every key it names; UNWATCH drops all, and so
      do EXEC and DISCARD when they end a transaction.  Commands are queued inside MULTI. */
  function Heed(t: Told, c: Client, step: Step): Told {
    match step
    case Connect(d) => if d == c && !t.connected then STRANGER.(connected := true) else t
    case Disconnect(d) => if d == c then STRANGER else t
    case Select(d, db) => if d == c && t.connected then t.(db := db) else t
    case WatchStep(d, keys) =>
      if d == c && t.connected && !t.inMulti then t.(watching := t.watching + map k | k in keys :: t.db) else t
    case UnwatchStep(d, _) => if d == c then t.(watching := map[]) else t
    case Multi(d) => if d == c && t.connected && !t.inMulti then t.(inMulti := true, queue := []) else t
    case Discard(d) => if d == c && t.inMulti then Told(true, t.db, false, [], map[]) else t
    case ExecStep(d, _) => if d == c && t.inMulti then Told(true, t.db, false, [], map[]) else t
    case Queue(d, cmd) => if d == c && t.inMulti then t.(queue := t.queue + [cmd]) else t
    case Write(_, _) => t
    case TimePasses(_) => t
  }

  function Tell(steps: seq<Step>, c: Client): Told {
    if steps == [] then STRANGER else Heed(Tell(steps[..|steps| - 1], c), c, steps[|steps| - 1])
  }

  /** The key was written in the database since the client's latest WATCH of it: by a plain command, or
      by a queued one that an EXEC has run. */
  ghost predicate WrittenSince(steps: seq<Step>, c: Client, db: nat, k: Key)
    decreases |steps|
  {
    steps != [] &&
    var init := steps[..|steps| - 1];
    match steps[|steps| - 1]
    case Write(d, keys) => (d == db && k in keys) || WrittenSince(init, c, db, k)
    case WatchStep(d, keys) =>
      !(d == c && Tell(init, c).connected && !Tell(init, c).inMulti && k in keys) && WrittenSince(init, c, db, k)
    case ExecStep(d, world) =>
      || (Exec(After(init), d, world).1.Results? && Tell(init, d).db == db && Writes(Tell(init, d).queue, 0, world, k))
      || WrittenSince(init, c, db, k)
    case _ => WrittenSince(init, c, db, k)
  }

  /** One of the commands writes the key; `n` of them were run before. */
  ghost predicate Writes(queue: seq<Command>, n: nat, world: World, k: Key) {
    exists i :: 0 <= i < |queue| && k in world(n + i, queue[i]).marks
  }

  // ----- The state agrees -----

  /** The connection is as the client's steps say. */
  ghost predicate Agrees(s: State, h: seq<Event>, c: Client, t: Told) {
    && (t.connected <==> c in s.conns)
    && (!t.connected ==> t == STRANGER)
    && (t.connected ==>
          var conn := s.conns[c];
          && conn.db == t.db && conn.inTransaction == t.inMulti && conn.queue == t.queue
          && conn.watched.Keys == t.watching.Keys
          && forall k :: k in t.watching ==> Home(h, c, k) == t.watching[k])
  }

  lemma {:induction false} HomeAfterWatch(h: seq<Event>, d: Client, db: nat, keys: seq<Key>, c: Client, k: Key, at: nat)
    ensures var h' := h + WatchEvents(d, db, keys);
      && Home(h', c, k) == (if d == c && k in keys then db else Home(h, c, k))
      && MarkedSinceWatch(h', c, at, k) == (!(d == c && k in keys) && MarkedSinceWatch(h, c, at, k))
    decreases |keys|
  {
    hide MarkedSinceWatch, Home;
    var es := WatchEvents(d, db, keys);
    if keys == [] {
      assert h + es == h;
    } else {
      var n := |keys| - 1;
      var init := WatchEvents(d, db, keys[..n]);
      HomeAfterWatch(h, d, db, keys[..n], c, k, at);
      MarkedSinceMore(h + init, Watched(d, db, keys[n]), c, at, k);
      assert h + es == h + init + [Watched(d, db, keys[n])];
      assert k in keys <==> k in keys[..n] || k == keys[n];
    }
  }

  lemma {:induction false} AfterMarks(h: seq<Event>, db: nat, keys: seq<Key>, c: Client, k: Key, at: nat)
    ensures var h' := h + MarkEvents(db, keys);
      && Home(h', c, k) == Home(h, c, k)
      && MarkedSinceWatch(h', c, at, k) == ((db == at && k in keys) || MarkedSinceWatch(h, c, at, k))
    decreases |keys|
  {
    hide MarkedSinceWatch, Home;
    var es := MarkEvents(db, keys);
    if keys == [] {
      assert h + es == h;
    } else {
      var n := |keys| - 1;
      var init := MarkEvents(db, keys[..n]);
      AfterMarks(h, db, keys[..n], c, k, at);
      MarkedSinceMore(h + init, Marked(db, keys[n]), c, at, k);
      assert h + es == h + init + [Marked(db, keys[n])];
      assert k in keys <==> k in keys[..n] || k == keys[n];
    }
  }

  lemma {:induction false} AfterRun(h: seq<Event>, db: nat, queue: seq<Command>, n: nat, world: World, c: Client, k: Key, at: nat)
    ensures var h' := h + RunEvents(db, queue, n, world);
      && Home(h', c, k) == Home(h, c, k)
      && MarkedSinceWatch(h', c, at, k) == ((db == at && Writes(queue, n, world, k)) || MarkedSinceWatch(h, c, at, k))
    decreases |queue|
  {
    hide MarkedSinceWatch, Home, MarkEvents;
    var es := RunEvents(db, queue, n, world);
    if queue == [] {
      assert h + es == h;
    } else {
      var marks := world(n, queue[0]).marks;
      var first, rest := MarkEvents(db, marks), RunEvents(db, queue[1..], n + 1, world);
      AfterMarks(h, db, marks, c, k, at);
      AfterRun(h + first, db, queue[1..], n + 1, world, c, k, at);
      assert h + es == h + first + rest;
      WritesCons(queue, n, world, k);
    }
  }

  lemma WritesCons(queue: seq<Command>, n: nat, world: World, k: Key)
    requires queue != []
    ensures Writes(queue, n, world, k) <==> k in world(n, queue[0]).marks || Writes(queue[1..], n + 1, world, k)
  {
    if i :| 0 <= i < |queue| && k in world(n + i, queue[i]).marks {
      if i > 0 { assert queue[1..][i - 1] == queue[i] && n + 1 + (i - 1) == n + i; }
    }
    if k in world(n, queue[0]).marks { assert n + 0 == n; }
    if i :| 0 <= i < |queue[1..]| && k in world(n + 1 + i, queue[1..][i]).marks {
      assert queue[i + 1] == queue[1..][i] && n + (i + 1) == n + 1 + i;
    }
  }

  /** What a step does to where a key was watched and whether it was marked since. */
  lemma StepEvents(s: State, h: seq<Event>, step: Step, c: Client, k: Key, at: nat)
    ensures var h' := h + Events(s, step);
      match step
      case WatchStep(d, keys) =>
        var told := d == c && d in s.conns && !s.conns[d].inTransaction && k in keys;
        && Home(h', c, k) == (if told then s.conns[d].db else Home(h, c, k))
        && MarkedSinceWatch(h', c, at, k) == (!told && MarkedSinceWatch(h, c, at, k))
      case Write(db, keys) =>
        && Home(h', c, k) == Home(h, c, k)
        && MarkedSinceWatch(h', c, at, k) == ((db == at && k in keys) || MarkedSinceWatch(h, c, at, k))
      case ExecStep(d, world) =>
        && Home(h', c, k) == Home(h, c, k)
        && MarkedSinceWatch(h', c, at, k) ==
             ((Exec(s, d, world).1.Results? && s.conns[d].db == at && Writes(s.conns[d].queue, 0, world, k)) || MarkedSinceWatch(h, c, at, k))
      case _ => Home(h', c, k) == Home(h, c, k) && MarkedSinceWatch(h', c, at, k) == MarkedSinceWatch(h, c, at, k)
  {
    hide MarkedSinceWatch, Home, WatchEvents, MarkEvents, RunEvents, RunQueue, Writes;
    assert h + [] == h;
    match step
    case WatchStep(d, keys) =>
      if d in s.conns && !s.conns[d].inTransaction { HomeAfterWatch(h, d, s.conns[d].db, keys, c, k, at); }
    case Write(db, keys) => AfterMarks(h, db, keys, c, k, at);
    case ExecStep(d, world) =>
      if Exec(s, d, world).1.Results? { AfterRun(h, s.conns[d].db, s.conns[d].queue, 0, world, c, k, at); }
    case _ =>
  }

  /** Every step keeps state and steps in agreement. */
  lemma StepAgrees(s: State, h: seq<Event>, step: Step, c: Client, t: Told)
    requires Agrees(s, h, c, t) && Disciplined(s, h, step)
    ensures Agrees(Next(s, step), h + Events(s, step), c, Heed(t, c, step))
  {
    hide WatchAll, UnwatchAll, MarkAll, RunQueue, Home, Events, AtHome;
    var s', h', t' := Next(s, step), h + Events(s, step), Heed(t, c, step);
    ConnAfter(s, step, c);
    forall k | k in t'.watching && t.connected ensures t'.connected ==> Home(h', c, k) == t'.watching[k] {
      StepEvents(s, h, step, c, k, 0);
    }
    match step
    case WatchStep(d, keys) =>
      assert t.connected && d == c && !t.inMulti ==> t'.watching.Keys == t.watching.Keys + (set k | k in keys);
    case _ =>
  }

  /** What a step does to a connection, apart from baselines. */
  lemma ConnAfter(s: State, step: Step, c: Client)
    requires step.UnwatchStep? && step.c in s.conns ==> Enumerates(step.order, s.conns[step.c].watched)
    ensures var s' := Next(s, step);
      && (c in s'.conns <==> (c in s.conns || step == Connect(c)) && step != Disconnect(c))
      && (c in s.conns && c in s'.conns ==>
            var old', new' := s.conns[c], s'.conns[c];
            match step
            case Select(d, db) => if d == c then new' == old'.(db := db) else new' == old'
            case WatchStep(d, keys) =>
              if d == c && !old'.inTransaction
              then new'.(watched := map[]) == old'.(watched := map[]) && new'.watched.Keys == old'.watched.Keys + (set k | k in keys)
              else new' == old'
            case UnwatchStep(d, _) => if d == c then new' == old'.(watched := map[]) else new' == old'
            case Multi(d) => if d == c && !old'.inTransaction then new' == old'.(inTransaction := true, queue := [], aborted := false) else new' == old'
            case Discard(d) => if d == c && old'.inTransaction then new' == NEW_CONN.(db := old'.db) else new' == old'
            case ExecStep(d, _) => if d == c && old'.inTransaction then new' == NEW_CONN.(db := old'.db) else new' == old'
            case Queue(d, cmd) => if d == c && old'.inTransaction then new' == old'.(queue := old'.queue + [cmd]) else new' == old'
            case _ => new' == old')
      && (c !in s.conns && c in s'.conns ==> s'.conns[c] == NEW_CONN)
  {
    hide WatchAll, UnwatchAll, MarkAll, RunQueue;
    match step
    case WatchStep(d, keys) => if d in s.conns { WatchAllConn(s, d, keys); }
    case UnwatchStep(d, order) =>
      if d in s.conns {
        UnwatchAllConn(s, d, order);
        assert s.conns[d].watched - (set k | k in order) == map[];
      }
    case Write(db, keys) => MarkAllExact(s, db, keys);
    case ExecStep(d, world) =>
      if d in s.conns && s.conns[d].inTransaction { ExecIsExact(s, d, world); }
    case _ =>
  }

  /** After every run a connection is exactly as its client's steps say: its database, whether it is in a
      transaction, the commands queued in the order in which they were given, every key watched and no
      other, and where. */
  lemma {:induction false} RunAgrees(steps: seq<Step>, c: Client)
    requires DisciplinedRun(steps)
    ensures Agrees(After(steps), History(steps), c, Tell(steps, c))
    decreases |steps|
  {
    hide Agrees, Next, Events, Disciplined, Heed;
    if steps == [] {
      NobodyThere(c);
    } else {
      var init, last := steps[..|steps| - 1], steps[|steps| - 1];
      InitDisciplined(steps);
      RunAgrees(init, c);
      StepAgrees(After(init), History(init), last, c, Tell(init, c));
    }
  }

  lemma InitDisciplined(steps: seq<Step>)
    requires DisciplinedRun(steps) && steps != []
    ensures var init := steps[..|steps| - 1];
      DisciplinedRun(init) && Disciplined(After(init), History(init), steps[|steps| - 1])
  {
    hide Disciplined, After, History;
    var init := steps[..|steps| - 1];
    assert forall i :: 0 <= i < |init| ==> init[..i] == steps[..i] && init[i] == steps[i];
  }

  lemma NobodyThere(c: Client)
    ensures Agrees(START, [], c, STRANGER) && After([]) == START && History([]) == [] && Tell([], c) == STRANGER
  {
  }

  /** A key is marked since the latest WATCH exactly when the steps wrote it since. */
  lemma {:induction false} MarkedIsWritten(steps: seq<Step>, c: Client, db: nat, k: Key)
    requires DisciplinedRun(steps)
    ensures MarkedSinceWatch(History(steps), c, db, k) <==> WrittenSince(steps, c, db, k)
    decreases |steps|
  {
    if steps == [] {
      NobodyThere(c);
    } else {
      var init, last := steps[..|steps| - 1], steps[|steps| - 1];
      InitDisciplined(steps);
      MarkedIsWritten(init, c, db, k);
      RunAgrees(init, c);
      if last.ExecStep? { RunAgrees(init, last.c); }
      var s, h := After(init), History(init);
      assert History(steps) == h + Events(s, last);
      hide After, History, MarkedSinceWatch, Home, Events, Next, Writes, Disciplined;
      StepEvents(s, h, last, c, k, db);
    }
  }

  /** The client is in the database in which it gave all its watches. */
  predicate InPlace(t: Told) {
    forall k :: k in t.watching ==> t.watching[k] == t.db
  }

  /** No conflict is lost and none is invented, in terms of the steps: an EXEC that ends a transaction in
      the database of the client's watches runs if and only if none of the keys it watches was written
      there since its latest WATCH of it, and none has expired; and then it runs exactly the commands that
      were queued, in the order in which they were given. */
  lemma ExecRunsIffUntouched(steps: seq<Step>, c: Client, world: World)
    requires DisciplinedRun(steps) && |History(steps)| < WORD
    requires Tell(steps, c).inMulti && InPlace(Tell(steps, c))
    ensures var t, s := Tell(steps, c), After(steps);
      var (s', reply) := Exec(s, c, world);
      && (reply.Results? <==>
            forall k :: k in t.watching ==> !WrittenSince(steps, c, t.db, k) && (t.db, k) !in s.expired)
      && s'.log == (if reply.Results? then s.log + t.queue else s.log)
      && (reply.Results? ==>
            && |reply.replies| == |t.queue|
            && forall i :: 0 <= i < |t.queue| ==> reply.replies[i] == world(i, t.queue[i]).reply)
      && (!reply.Results? ==> reply == NullReply)
  {
    RunAgrees(steps, c);
    var t, s := Tell(steps, c), After(steps);
    ExecIsExact(s, c, world);
    ExecRunsIffUnmarked(steps, c, world);
    forall k | k in t.watching ensures MarkedSinceWatch(History(steps), c, t.db, k) <==> WrittenSince(steps, c, t.db, k) {
      MarkedIsWritten(steps, c, t.db, k);
    }
  }
}
