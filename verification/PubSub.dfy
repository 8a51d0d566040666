/** The registry of subscriptions: what each connection subscribed to, and for each channel and each
    pattern the connections that did. */
module PubSub {
  import opened Bytes
  import Glob
  import opened Tables

  type Topic = bytes
  type Conn = nat

  /** What one connection subscribed to. */
  datatype Info = Info(channels: set<Topic>, patterns: set<Topic>)

  type Connections = map<Conn, Info>
  type Index = map<Topic, set<Conn>>

  datatype Kind = Channel | Pattern

  function Elements(ts: seq<Topic>): set<Topic> {
    set t | t in ts
  }

  function InfoOf(m: Connections, c: Conn): Info {
    if c in m then m[c] else Info({}, {})
  }

  function TopicsOf(info: Info, kind: Kind): set<Topic> {
    if kind.Channel? then info.channels else info.patterns
  }

  function WithTopics(info: Info, kind: Kind, ts: set<Topic>): Info {
    if kind.Channel? then info.(channels := ts) else info.(patterns := ts)
  }

  function Total(info: Info): nat {
    |info.channels| + |info.patterns|
  }

  // ----- The index is the inverse of the connections -----

  ghost predicate Listed(index: Index, t: Topic, c: Conn) {
    t in index && c in index[t]
  }

  ghost predicate Subscribed(m: Connections, kind: Kind, t: Topic, c: Conn) {
    t in TopicsOf(InfoOf(m, c), kind)
  }

  /** Exactly the inverse, without empty entries. */
  ghost predicate Inverse(index: Index, m: Connections, kind: Kind) {
    && (forall t :: t in index ==> index[t] != {})
    && (forall t, c :: Listed(index, t, c) <==> Subscribed(m, kind, t, c))
  }

  /** There is only one such index. */
  lemma InverseUnique(index: Index, index': Index, m: Connections, kind: Kind)
    requires Inverse(index, m, kind) && Inverse(index', m, kind)
    ensures index == index'
  {
    hide Subscribed;
    forall t ensures t in index <==> t in index' {
      if t in index { var c :| c in index[t]; assert Listed(index, t, c) && Listed(index', t, c); }
      if t in index' { var c :| c in index'[t]; assert Listed(index', t, c) && Listed(index, t, c); }
    }
    forall t | t in index ensures index[t] == index'[t] {
      forall c ensures c in index[t] <==> c in index'[t] {
        assert Listed(index, t, c) <==> Listed(index', t, c);
      }
    }
  }

  function Enter(index: Index, t: Topic, c: Conn): Index {
    index[t := (if t in index then index[t] else {}) + {c}]
  }

  function Leave(index: Index, t: Topic, c: Conn): Index {
    if t !in index then index
    else if index[t] - {c} == {} then index - {t}
    else index[t := index[t] - {c}]
  }

  lemma EnterKeepsInverse(index: Index, m: Connections, kind: Kind, t: Topic, c: Conn)
    requires Inverse(index, m, kind)
    ensures var info := InfoOf(m, c);
      Inverse(Enter(index, t, c), m[c := WithTopics(info, kind, TopicsOf(info, kind) + {t})], kind)
  {
    var info := InfoOf(m, c);
    var m' := m[c := WithTopics(info, kind, TopicsOf(info, kind) + {t})];
    forall u, d ensures Listed(Enter(index, t, c), u, d) <==> Subscribed(m', kind, u, d) {
      assert Listed(index, u, d) <==> Subscribed(m, kind, u, d);
    }
  }

  lemma LeaveKeepsInverse(index: Index, m: Connections, kind: Kind, t: Topic, c: Conn)
    requires Inverse(index, m, kind)
    ensures var info := InfoOf(m, c);
      Inverse(Leave(index, t, c), m[c := WithTopics(info, kind, TopicsOf(info, kind) - {t})], kind)
  {
    var info := InfoOf(m, c);
    var m' := m[c := WithTopics(info, kind, TopicsOf(info, kind) - {t})];
    forall u, d ensures Listed(Leave(index, t, c), u, d) <==> Subscribed(m', kind, u, d) {
      assert Listed(index, u, d) <==> Subscribed(m, kind, u, d);
      if t in index && d in index[t] && d != c { assert d in index[t] - {c}; }
    }
  }

  /** Only the topics of a kind matter to its index; an empty entry does not matter at all. */
  lemma SameTopics(index: Index, m: Connections, m': Connections, kind: Kind)
    requires Inverse(index, m, kind)
    requires forall c :: TopicsOf(InfoOf(m', c), kind) == TopicsOf(InfoOf(m, c), kind)
    ensures Inverse(index, m', kind)
  {
    forall t, c ensures Listed(index, t, c) <==> Subscribed(m', kind, t, c) {
      assert Listed(index, t, c) <==> Subscribed(m, kind, t, c);
    }
  }

  // ----- What the commands mean -----

  datatype Op =
    | Subscribe(conn: Conn, kind: Kind, topics: seq<Topic>)
    | Unsubscribe(conn: Conn, kind: Kind, which: Option<seq<Topic>>)
    | UnsubscribeAll(conn: Conn)

  /** A connection without subscriptions is forgotten. */
  function Tidied(m: Connections, c: Conn): Connections {
    if c in m && m[c] == Info({}, {}) then m - {c} else m
  }

  function After(m: Connections, op: Op): Connections {
    match op
    case Subscribe(c, kind, ts) =>
      m[c := WithTopics(InfoOf(m, c), kind, TopicsOf(InfoOf(m, c), kind) + Elements(ts))]
    case Unsubscribe(c, kind, which) =>
      if c !in m then m
      else Tidied(m[c := WithTopics(m[c], kind, if which.None? then {} else TopicsOf(m[c], kind) - Elements(which.value))], c)
    case UnsubscribeAll(c) => m - {c}
  }

  function Replay(ops: seq<Op>): Connections {
    if ops == [] then map[] else After(Replay(ops[..|ops| - 1]), ops[|ops| - 1])
  }

  ghost predicate Tidy(m: Connections) {
    forall c :: c in m ==> m[c] != Info({}, {})
  }

  /** A command leaves no empty entry behind unless it subscribes an unknown connection to nothing. */
  lemma TidyIff(m: Connections, op: Op)
    requires Tidy(m)
    ensures Tidy(After(m, op)) <==> !(op.Subscribe? && op.topics == [] && op.conn !in m)
  {
    var m' := After(m, op);
    if op.Subscribe? {
      if op.topics != [] {
        assert op.topics[0] in Elements(op.topics);
        assert op.topics[0] in TopicsOf(m'[op.conn], op.kind);
      } else if op.conn !in m {
        assert Elements(op.topics) == {};
        assert op.conn in m' && m'[op.conn] == Info({}, {});
      }
    }
  }

  lemma {:induction false} RunIsTidy(ops: seq<Op>)
    requires forall i :: 0 <= i < |ops| && ops[i].Subscribe? ==> ops[i].topics != []
    ensures Tidy(Replay(ops))
  {
    if ops != [] {
      RunIsTidy(ops[..|ops| - 1]);
      TidyIff(Replay(ops[..|ops| - 1]), ops[|ops| - 1]);
    }
  }

  // ----- The registry -----

  /** The confirmation of one topic. */
  datatype Confirmation = Confirmation(kind: Kind, topic: Topic, total: nat, isNew: bool)

  /** A connection after some more, or without some, topics of a kind. */
  function Plus(info: Info, kind: Kind, ts: seq<Topic>): Info {
    WithTopics(info, kind, TopicsOf(info, kind) + Elements(ts))
  }

  function Minus(info: Info, kind: Kind, ts: seq<Topic>): Info {
    WithTopics(info, kind, TopicsOf(info, kind) - Elements(ts))
  }

  /** Every topic is confirmed, duplicates too, with the number of subscriptions after it. */
  ghost predicate Confirmed(rs: seq<Confirmation>, kind: Kind, before: Info, ts: seq<Topic>, n: nat) {
    && n <= |ts| && |rs| == n
    && forall i :: 0 <= i < n ==>
         rs[i] == Confirmation(kind, ts[i], Total(Plus(before, kind, ts[..i + 1])), ts[i] !in TopicsOf(before, kind) && ts[i] !in ts[..i])
  }

  ghost predicate Released(rs: seq<Confirmation>, kind: Kind, before: Info, ts: seq<Topic>, n: nat) {
    && n <= |ts| && |rs| == n
    && forall i :: 0 <= i < n ==> rs[i] == Confirmation(kind, ts[i], Total(Minus(before, kind, ts[..i + 1])), false)
  }

  lemma ElementsMore(ts: seq<Topic>, n: nat)
    requires n < |ts|
    ensures Elements(ts[..n + 1]) == Elements(ts[..n]) + {ts[n]}
  {
    assert ts[..n + 1] == ts[..n] + [ts[n]];
  }

  lemma PlusNothing(before: Info, kind: Kind, ts: seq<Topic>)
    ensures Plus(before, kind, ts[..0]) == before == Minus(before, kind, ts[..0])
    ensures Plus(before, kind, ts[..|ts|]) == Plus(before, kind, ts) && Minus(before, kind, ts[..|ts|]) == Minus(before, kind, ts)
    ensures Confirmed([], kind, before, ts, 0) && Released([], kind, before, ts, 0)
  {
    assert TopicsOf(before, kind) + Elements(ts[..0]) == TopicsOf(before, kind);
    assert TopicsOf(before, kind) - Elements(ts[..0]) == TopicsOf(before, kind);
    assert ts[..|ts|] == ts;
  }

  lemma PlusMore(before: Info, kind: Kind, ts: seq<Topic>, n: nat)
    requires n < |ts|
    ensures var now, next := Plus(before, kind, ts[..n]), Plus(before, kind, ts[..n + 1]);
      && next == WithTopics(now, kind, TopicsOf(now, kind) + {ts[n]})
      && (ts[n] in TopicsOf(now, kind) ==> next == now)
      && (ts[n] in TopicsOf(now, kind) <==> ts[n] in TopicsOf(before, kind) || ts[n] in ts[..n])
  {
    ElementsMore(ts, n);
    var old' := TopicsOf(before, kind);
    assert old' + Elements(ts[..n + 1]) == old' + Elements(ts[..n]) + {ts[n]};
    if ts[n] in old' + Elements(ts[..n]) {
      assert old' + Elements(ts[..n + 1]) == old' + Elements(ts[..n]);
    }
  }

  lemma MinusMore(before: Info, kind: Kind, ts: seq<Topic>, n: nat)
    requires n < |ts|
    ensures var now, next := Minus(before, kind, ts[..n]), Minus(before, kind, ts[..n + 1]);
      && next == WithTopics(now, kind, TopicsOf(now, kind) - {ts[n]})
      && (ts[n] !in TopicsOf(now, kind) ==> next == now)
  {
    ElementsMore(ts, n);
    var old' := TopicsOf(before, kind);
    assert old' - Elements(ts[..n + 1]) == old' - Elements(ts[..n]) - {ts[n]};
    if ts[n] !in old' - Elements(ts[..n]) {
      assert old' - Elements(ts[..n + 1]) == old' - Elements(ts[..n]);
    }
  }

  lemma MinusAll(before: Info, kind: Kind, ts: seq<Topic>)
    requires Elements(ts) == TopicsOf(before, kind)
    ensures Minus(before, kind, ts) == WithTopics(before, kind, {})
  {
    assert TopicsOf(before, kind) - Elements(ts) == {};
  }

  class Registry {
    var channels: Index
    var patterns: Index
    var connections: Connections

    ghost predicate Valid()
      reads this
    {
      Inverse(channels, connections, Channel) && Inverse(patterns, connections, Pattern)
    }

    constructor ()
      ensures Valid() && connections == map[]
    {
      channels, patterns, connections := map[], map[], map[];
    }

    /** Enters one topic of a connection in both directions. */
    method EnterTopic(c: Conn, kind: Kind, t: Topic)
      requires Valid() && c in connections
      modifies this
      ensures Valid()
      ensures connections == old(connections)[c := WithTopics(old(connections[c]), kind, TopicsOf(old(connections[c]), kind) + {t})]
    {
      hide Inverse;
      var info := connections[c];
      ghost var before := connections;
      connections := connections[c := WithTopics(info, kind, TopicsOf(info, kind) + {t})];
      if kind.Channel? {
        EnterKeepsInverse(channels, before, kind, t, c);
        SameTopics(patterns, before, connections, Pattern);
        channels := Enter(channels, t, c);
      } else {
        EnterKeepsInverse(patterns, before, kind, t, c);
        SameTopics(channels, before, connections, Channel);
        patterns := Enter(patterns, t, c);
      }
    }

    method LeaveTopic(c: Conn, kind: Kind, t: Topic)
      requires Valid() && c in connections
      modifies this
      ensures Valid()
      ensures connections == old(connections)[c := WithTopics(old(connections[c]), kind, TopicsOf(old(connections[c]), kind) - {t})]
    {
      hide Inverse;
      var info := connections[c];
      ghost var before := connections;
      connections := connections[c := WithTopics(info, kind, TopicsOf(info, kind) - {t})];
      if kind.Channel? {
        LeaveKeepsInverse(channels, before, kind, t, c);
        SameTopics(patterns, before, connections, Pattern);
        channels := Leave(channels, t, c);
      } else {
        LeaveKeepsInverse(patterns, before, kind, t, c);
        SameTopics(channels, before, connections, Channel);
        patterns := Leave(patterns, t, c);
      }
    }

    /** SUBSCRIBE and PSUBSCRIBE. */
    method SubscribeTo(c: Conn, kind: Kind, ts: seq<Topic>) returns (rs: seq<Confirmation>)
      requires Valid()
      modifies this
      ensures Valid() && connections == After(old(connections), Subscribe(c, kind, ts))
      ensures Confirmed(rs, kind, old(InfoOf(connections, c)), ts, |ts|)
    {
      hide Inverse, Total, Plus, Elements;
      ghost var m, before := connections, InfoOf(connections, c);
      if c !in connections {
        connections := connections[c := Info({}, {})];
        SameTopics(channels, m, connections, Channel);
        SameTopics(patterns, m, connections, Pattern);
      }
      rs := [];
      PlusNothing(before, kind, ts);
      for n := 0 to |ts|
        invariant Valid() && Confirmed(rs, kind, before, ts, n)
        invariant connections == m[c := Plus(before, kind, ts[..n])]
      {
        hide TopicsOf, WithTopics;
        PlusMore(before, kind, ts, n);
        var isNew := ts[n] !in TopicsOf(connections[c], kind);
        if isNew {
          EnterTopic(c, kind, ts[n]);
        }
        rs := rs + [Confirmation(kind, ts[n], Total(connections[c]), isNew)];
      }
      SubscribedMeans(m, c, kind, ts);
    }

    /** UNSUBSCRIBE and PUNSUBSCRIBE; without topics, all of them. */
    method UnsubscribeFrom(c: Conn, kind: Kind, which: Option<seq<Topic>>) returns (rs: seq<Confirmation>)
      requires Valid()
      modifies this
      ensures Valid() && connections == After(old(connections), Unsubscribe(c, kind, which))
      ensures c !in old(connections) ==> rs == []
      ensures c in old(connections) ==> exists ts ::
        && (if which.Some? then ts == which.value else Elements(ts) == TopicsOf(old(connections[c]), kind) && |ts| == |Elements(ts)|)
        && Released(rs, kind, old(connections[c]), ts, |ts|)
    {
      hide Inverse, Total, Minus;
      rs := [];
      if c !in connections {
        return;
      }
      ghost var m, before := connections, connections[c];
      var ts;
      if which.Some? {
        ts := which.value;
      } else {
        ts := WalkSet(TopicsOf(connections[c], kind));
        MinusAll(before, kind, ts);
      }
      rs := LeaveTopics(c, kind, ts);
      UnsubscribedMeans(m, c, kind, which, ts);
      Forget(c);
    }

    method LeaveTopics(c: Conn, kind: Kind, ts: seq<Topic>) returns (rs: seq<Confirmation>)
      requires Valid() && c in connections
      modifies this
      ensures Valid() && connections == old(connections)[c := Minus(old(connections[c]), kind, ts)]
      ensures Released(rs, kind, old(connections[c]), ts, |ts|)
    {
      hide Inverse, Total, Minus, Elements, TopicsOf, WithTopics;
      ghost var m, before := connections, connections[c];
      rs := [];
      PlusNothing(before, kind, ts);
      for n := 0 to |ts|
        invariant Valid() && Released(rs, kind, before, ts, n)
        invariant connections == m[c := Minus(before, kind, ts[..n])]
      {
        MinusMore(before, kind, ts, n);
        if ts[n] in TopicsOf(connections[c], kind) {
          LeaveTopic(c, kind, ts[n]);
        }
        rs := rs + [Confirmation(kind, ts[n], Total(connections[c]), false)];
      }
    }

    method Forget(c: Conn)
      requires Valid() && c in connections
      modifies this
      ensures Valid() && connections == Tidied(old(connections), c)
    {
      hide Inverse;
      ghost var last := connections;
      if connections[c].channels == {} && connections[c].patterns == {} {
        connections := connections - {c};
        SameTopics(channels, last, connections, Channel);
        SameTopics(patterns, last, connections, Pattern);
      }
    }

    /** Each connection receives a message once: as a subscriber of the channel if it is one,
        otherwise by one of its own patterns that match. */
    method Publish(channel: Topic) returns (rs: seq<Receiver>)
      requires Valid()
      ensures OncePerConnection(rs)
      ensures forall i :: 0 <= i < |rs| ==> Rightly(connections, channel, rs[i])
      ensures forall c :: Receives(rs, c) <==>
        channel in InfoOf(connections, c).channels || exists p :: ByPattern(connections, channel, c, p)
    {
      hide Inverse, Reached, Matching, Rightly, Receives, OncePerConnection, InfoOf, ByPattern, Seen;
      NobodySeen();
      var seen: set<Conn> := {};
      rs := [];
      if channel in channels {
        rs, seen := AddReceivers([], {}, channels[channel], None);
      }
      ghost var direct := seen;
      DirectReached(channels, patterns, channel, direct, rs, connections);
      var walk := WalkSet(patterns.Keys);
      for n := 0 to |walk|
        invariant Reached(channels, patterns, channel, walk[..n], direct, seen, rs, connections)
      {
        var p := walk[n];
        assert walk[..n + 1] == walk[..n] + [p];
        var matches := Glob.ChannelPatternMatches(Symbols(p), Symbols(channel));
        MatchingMeans(p, channel);
        ReachedSeen(channels, patterns, channel, walk[..n], direct, seen, rs, connections);
        ghost var rs0, seen0 := rs, seen;
        if matches {
          rs, seen := AddReceivers(rs, seen, patterns[p], Some(p));
        }
        ReachedMore(channels, patterns, channel, walk[..n], p, direct, seen0, rs0, seen, rs, connections);
      }
      assert walk[..|walk|] == walk;
      WalkCovers(walk, patterns);
      AllReached(channels, patterns, channel, walk, direct, seen, rs, connections);
    }

    /** A connection goes away. */
    method Disconnect(c: Conn)
      requires Valid()
      modifies this
      ensures Valid() && connections == After(old(connections), UnsubscribeAll(c))
    {
      hide Inverse;
      RemovedKeepsInverse(channels, connections, Channel, c);
      RemovedKeepsInverse(patterns, connections, Pattern, c);
      channels := RemoveEverywhere(channels, c);
      patterns := RemoveEverywhere(patterns, c);
      connections := connections - {c};
    }

    /** Any run from an empty registry. */
    method Run(ops: seq<Op>)
      requires Valid() && connections == map[]
      modifies this
      ensures Valid() && connections == Replay(ops)
    {
      hide Valid, After;
      for n := 0 to |ops|
        invariant Valid() && connections == Replay(ops[..n])
      {
        assert ops[..n + 1][..n] == ops[..n];
        var rs;
        match ops[n]
        case Subscribe(c, kind, ts) => rs := SubscribeTo(c, kind, ts);
        case Unsubscribe(c, kind, which) => rs := UnsubscribeFrom(c, kind, which);
        case UnsubscribeAll(c) => Disconnect(c);
      }
      assert ops[..|ops|] == ops;
    }
  }

  lemma SubscribedMeans(m: Connections, c: Conn, kind: Kind, ts: seq<Topic>)
    ensures m[c := Plus(InfoOf(m, c), kind, ts)] == After(m, Subscribe(c, kind, ts))
  {
  }

  lemma UnsubscribedMeans(m: Connections, c: Conn, kind: Kind, which: Option<seq<Topic>>, ts: seq<Topic>)
    requires c in m
    requires if which.Some? then ts == which.value else Minus(m[c], kind, ts) == WithTopics(m[c], kind, {})
    ensures Tidied(m[c := Minus(m[c], kind, ts)], c) == After(m, Unsubscribe(c, kind, which))
  {
  }

  // ----- Disconnecting -----

  ghost function Removed(index: Index, c: Conn): Index {
    map t | t in index && index[t] - {c} != {} :: index[t] - {c}
  }

  lemma RemovedKeepsInverse(index: Index, m: Connections, kind: Kind, c: Conn)
    requires Inverse(index, m, kind)
    ensures Inverse(Removed(index, c), m - {c}, kind)
  {
    forall t, d ensures Listed(Removed(index, c), t, d) <==> Subscribed(m - {c}, kind, t, d) {
      assert Listed(index, t, d) <==> Subscribed(m, kind, t, d);
      if t in index && d in index[t] && d != c { assert d in index[t] - {c}; }
    }
  }

  /** First out of every entry, then the empty entries. */
  method RemoveEverywhere(index: Index, c: Conn) returns (r: Index)
    ensures r == Removed(index, c)
  {
    var walk := WalkSet(index.Keys);
    WalkCovers(walk, index);
    var all, empty := TakeOut(index, walk, c);
    r := all;
    for n := 0 to |empty|
      invariant r == map t | t in all && t !in empty[..n] :: all[t]
    {
      assert empty[..n + 1] == empty[..n] + [empty[n]];
      r := r - {empty[n]};
    }
    assert empty[..|empty|] == empty;
  }

  method TakeOut(index: Index, walk: seq<Topic>, c: Conn) returns (all: Index, empty: seq<Topic>)
    requires forall t :: t in walk <==> t in index
    ensures all.Keys == index.Keys && forall t :: t in index ==> all[t] == index[t] - {c}
    ensures forall t :: t in empty <==> t in index && index[t] - {c} == {}
  {
    all, empty := index, [];
    for n := 0 to |walk|
      invariant all.Keys == index.Keys
      invariant forall t :: t in index ==> all[t] == if t in walk[..n] then index[t] - {c} else index[t]
      invariant forall t :: t in empty <==> t in walk[..n] && all[t] == {}
    {
      var t := walk[n];
      assert forall u :: u in walk[..n + 1] <==> u in walk[..n] || u == t;
      assert all[t] - {c} == index[t] - {c};
      all := all[t := all[t] - {c}];
      if all[t] == {} {
        empty := empty + [t];
      }
    }
    assert walk[..|walk|] == walk;
  }

  // ----- Publishing -----

  /** Patterns and channels are matched byte by byte. */
  function Symbols(s: bytes): (r: seq<Glob.Symbol>)
    ensures |r| == |s| && forall i :: 0 <= i < |s| ==> r[i] == s[i] as nat
  {
    seq(|s|, i requires 0 <= i < |s| => s[i] as nat)
  }

  ghost predicate Matching(p: Topic, channel: Topic) {
    Glob.Matches(false, Symbols(p), Symbols(channel))
  }

  /** A receiver, with the pattern that made it one unless it subscribed to the channel itself. */
  datatype Receiver = Receiver(conn: Conn, pattern: Option<Topic>)

  ghost predicate ByPattern(m: Connections, channel: Topic, c: Conn, p: Topic) {
    p in InfoOf(m, c).patterns && Matching(p, channel)
  }

  ghost predicate Rightly(m: Connections, channel: Topic, r: Receiver) {
    if r.pattern.None? then channel in InfoOf(m, r.conn).channels
    else channel !in InfoOf(m, r.conn).channels && ByPattern(m, channel, r.conn, r.pattern.value)
  }

  ghost predicate Receives(rs: seq<Receiver>, c: Conn) {
    exists i :: 0 <= i < |rs| && rs[i].conn == c
  }

  ghost predicate OncePerConnection(rs: seq<Receiver>) {
    forall i, j :: 0 <= i < j < |rs| ==> rs[i].conn != rs[j].conn
  }

  ghost predicate Seen(rs: seq<Receiver>, seen: set<Conn>) {
    OncePerConnection(rs) && forall c :: c in seen <==> Receives(rs, c)
  }

  lemma NobodySeen()
    ensures Seen([], {})
  {
  }

  lemma SeenMore(rs: seq<Receiver>, seen: set<Conn>, r: Receiver)
    requires Seen(rs, seen) && r.conn !in seen
    ensures Seen(rs + [r], seen + {r.conn})
  {
    var rs' := rs + [r];
    forall i | 0 <= i < |rs| ensures rs[i].conn != r.conn {
      assert Receives(rs, rs[i].conn);
    }
    forall c ensures c in seen + {r.conn} <==> Receives(rs', c) {
      if Receives(rs, c) {
        var i :| 0 <= i < |rs| && rs[i].conn == c;
        assert rs'[i].conn == c;
      }
      assert rs'[|rs|].conn == r.conn;
      if i :| 0 <= i < |rs'| && rs'[i].conn == c {
        if i < |rs| { assert rs[i].conn == c; }
      }
    }
  }

  /** Adds the connections that were not seen before. */
  method AddReceivers(rs: seq<Receiver>, seen: set<Conn>, subs: set<Conn>, tag: Option<Topic>)
    returns (rs': seq<Receiver>, seen': set<Conn>)
    requires Seen(rs, seen)
    ensures Seen(rs', seen') && seen' == seen + subs
    ensures |rs| <= |rs'| && rs'[..|rs|] == rs
    ensures forall i :: |rs| <= i < |rs'| ==> rs'[i].conn in subs - seen && rs'[i].pattern == tag
  {
    hide Seen;
    rs', seen' := rs, seen;
    var rest := subs;
    while rest != {}
      invariant rest <= subs && Seen(rs', seen') && seen' == seen + (subs - rest)
      invariant |rs| <= |rs'| && rs'[..|rs|] == rs
      invariant forall i :: |rs| <= i < |rs'| ==> rs'[i].conn in subs - seen && rs'[i].pattern == tag
      decreases |rest|
    {
      var c :| c in rest;
      if c !in seen' {
        SeenMore(rs', seen', Receiver(c, tag));
        seen' := seen' + {c};
        rs' := rs' + [Receiver(c, tag)];
      }
      rest := rest - {c};
    }
  }

  ghost predicate ByWalked(patterns: Index, channel: Topic, walked: seq<Topic>, c: Conn) {
    exists p :: p in walked && Matching(p, channel) && Listed(patterns, p, c)
  }

  /** The receivers so far: the direct ones and those of the patterns walked. */
  ghost predicate Reached(channels: Index, patterns: Index, channel: Topic, walked: seq<Topic>, direct: set<Conn>,
                          seen: set<Conn>, rs: seq<Receiver>, m: Connections) {
    && Seen(rs, seen)
    && (forall c :: c in direct <==> Listed(channels, channel, c))
    && (forall c :: c in seen <==> c in direct || ByWalked(patterns, channel, walked, c))
    && (forall i :: 0 <= i < |rs| ==> Rightly(m, channel, rs[i]))
  }

  lemma ReachedSeen(channels: Index, patterns: Index, channel: Topic, walked: seq<Topic>, direct: set<Conn>,
                    seen: set<Conn>, rs: seq<Receiver>, m: Connections)
    requires Reached(channels, patterns, channel, walked, direct, seen, rs, m)
    ensures Seen(rs, seen)
  {
  }

  lemma MatchingMeans(p: Topic, channel: Topic)
    ensures Matching(p, channel) <==> Glob.Matches(false, Symbols(p), Symbols(channel))
  {
  }

  lemma DirectReached(channels: Index, patterns: Index, channel: Topic, direct: set<Conn>, rs: seq<Receiver>, m: Connections)
    requires Inverse(channels, m, Channel) && Seen(rs, direct)
    requires direct == if channel in channels then channels[channel] else {}
    requires forall i :: 0 <= i < |rs| ==> rs[i].conn in direct && rs[i].pattern == None
    ensures Reached(channels, patterns, channel, [], direct, direct, rs, m)
  {
    hide Seen, Matching;
    forall i | 0 <= i < |rs| ensures Rightly(m, channel, rs[i]) {
      assert Listed(channels, channel, rs[i].conn);
      assert Subscribed(m, Channel, channel, rs[i].conn);
    }
  }

  lemma ReachedMore(channels: Index, patterns: Index, channel: Topic, walked: seq<Topic>, p: Topic, direct: set<Conn>,
                    seen: set<Conn>, rs: seq<Receiver>, seen': set<Conn>, rs': seq<Receiver>, m: Connections)
    requires Inverse(channels, m, Channel) && Inverse(patterns, m, Pattern)
    requires Reached(channels, patterns, channel, walked, direct, seen, rs, m) && p in patterns && Seen(rs', seen')
    requires !Matching(p, channel) ==> seen' == seen && rs' == rs
    requires Matching(p, channel) ==>
      && seen' == seen + patterns[p] && |rs| <= |rs'| && rs'[..|rs|] == rs
      && forall i :: |rs| <= i < |rs'| ==> rs'[i].conn in patterns[p] - seen && rs'[i].pattern == Some(p)
    ensures Reached(channels, patterns, channel, walked + [p], direct, seen', rs', m)
  {
    hide Seen, Matching;
    forall c ensures c in seen' <==> c in direct || ByWalked(patterns, channel, walked + [p], c) {
      WalkedMore(patterns, channel, walked, p, c);
    }
    forall i | 0 <= i < |rs'| ensures Rightly(m, channel, rs'[i]) {
      if i < |rs| {
        assert rs'[i] == rs[i];
      } else {
        var c := rs'[i].conn;
        assert Listed(patterns, p, c);
        assert Subscribed(m, Pattern, p, c);
        assert !Listed(channels, channel, c);
        assert !Subscribed(m, Channel, channel, c);
      }
    }
  }

  lemma WalkedMore(patterns: Index, channel: Topic, walked: seq<Topic>, p: Topic, c: Conn)
    ensures ByWalked(patterns, channel, walked + [p], c) <==>
      ByWalked(patterns, channel, walked, c) || (Matching(p, channel) && Listed(patterns, p, c))
  {
    hide Matching, Listed;
    assert p in walked + [p];
  }

  lemma AllReached(channels: Index, patterns: Index, channel: Topic, walked: seq<Topic>, direct: set<Conn>,
                   seen: set<Conn>, rs: seq<Receiver>, m: Connections)
    requires Inverse(channels, m, Channel) && Inverse(patterns, m, Pattern)
    requires Reached(channels, patterns, channel, walked, direct, seen, rs, m)
    requires forall p :: p in walked <==> p in patterns
    ensures OncePerConnection(rs)
    ensures forall i :: 0 <= i < |rs| ==> Rightly(m, channel, rs[i])
    ensures forall c :: Receives(rs, c) <==> channel in InfoOf(m, c).channels || exists p :: ByPattern(m, channel, c, p)
  {
    hide Matching, Receives, OncePerConnection;
    forall c ensures Receives(rs, c) <==> channel in InfoOf(m, c).channels || exists p :: ByPattern(m, channel, c, p) {
      assert Listed(channels, channel, c) <==> Subscribed(m, Channel, channel, c);
      if p :| ByPattern(m, channel, c, p) {
        assert Subscribed(m, Pattern, p, c);
        assert Listed(patterns, p, c);
      }
      if ByWalked(patterns, channel, walked, c) {
        var p :| p in walked && Matching(p, channel) && Listed(patterns, p, c);
        assert Subscribed(m, Pattern, p, c);
        assert ByPattern(m, channel, c, p);
      }
    }
  }

  // ----- The numbers in confirmations -----

  lemma ElementsAre(ts: seq<Topic>, t: Topic)
    ensures t in Elements(ts) <==> t in ts
  {
  }

  /** After each topic the confirmation counts the channels and the patterns then held. */
  lemma ConfirmedTotals(rs: seq<Confirmation>, before: Info, ts: seq<Topic>, n: nat, i: nat)
    requires i < n <= |ts|
    ensures Confirmed(rs, Channel, before, ts, n) ==> rs[i].total == |before.channels + Elements(ts[..i + 1])| + |before.patterns|
    ensures Confirmed(rs, Pattern, before, ts, n) ==> rs[i].total == |before.channels| + |before.patterns + Elements(ts[..i + 1])|
  {
    hide Elements;
  }

  lemma ReleasedTotals(rs: seq<Confirmation>, before: Info, ts: seq<Topic>, n: nat, i: nat)
    requires i < n <= |ts|
    ensures Released(rs, Channel, before, ts, n) ==> rs[i].total == |before.channels - Elements(ts[..i + 1])| + |before.patterns|
    ensures Released(rs, Pattern, before, ts, n) ==> rs[i].total == |before.channels| + |before.patterns - Elements(ts[..i + 1])|
  {
    hide Elements;
  }

  /** What the commands do to a connection's own subscriptions. */
  lemma CommandsMean(m: Connections, c: Conn, ts: seq<Topic>)
    ensures InfoOf(After(m, Subscribe(c, Channel, ts)), c) == Info(InfoOf(m, c).channels + (set t | t in ts), InfoOf(m, c).patterns)
    ensures InfoOf(After(m, Subscribe(c, Pattern, ts)), c) == Info(InfoOf(m, c).channels, InfoOf(m, c).patterns + (set t | t in ts))
    ensures InfoOf(After(m, Unsubscribe(c, Channel, Some(ts))), c) == Info(InfoOf(m, c).channels - (set t | t in ts), InfoOf(m, c).patterns)
    ensures InfoOf(After(m, Unsubscribe(c, Pattern, Some(ts))), c) == Info(InfoOf(m, c).channels, InfoOf(m, c).patterns - (set t | t in ts))
    ensures InfoOf(After(m, Unsubscribe(c, Channel, None)), c) == Info({}, InfoOf(m, c).patterns)
    ensures InfoOf(After(m, Unsubscribe(c, Pattern, None)), c) == Info(InfoOf(m, c).channels, {})
    ensures InfoOf(After(m, UnsubscribeAll(c)), c) == Info({}, {})
  {
  }
}
