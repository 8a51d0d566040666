/** A database as the server keeps it, in shards, with the commands that iterate over it. */
module Keyspace {
  import opened Bytes
  import opened KeyOrder
  import opened Scan
  import Rdb
  import opened Tables
  import Watch

  type Stored = Rdb.Stored
  type Value = Rdb.Value
  type Shard = map<bytes, Stored>

  /** Every key is in the shard its hash names. */
  ghost predicate Sharded(shards: seq<Shard>) {
    && |shards| == Watch.SHARDS
    && forall i, k :: 0 <= i < |shards| && k in shards[i] ==> Watch.ShardIndex(k) == i
  }

  ghost function KeysOf(shards: seq<Shard>): set<bytes> {
    set i, k | 0 <= i < |shards| && k in shards[i] :: k
  }

  /** The database without its shards. */
  ghost function Merged(shards: seq<Shard>): Shard
    requires Sharded(shards)
  {
    map k | k in KeysOf(shards) :: shards[Watch.ShardIndex(k)][k]
  }

  function TypeName(v: Value): string {
    match v
    case Str(_) => "string"
    case List(_) => "list"
    case Set(_) => "set"
    case Hash(_) => "hash"
    case ZSet(_) => "zset"
    case Log(_, _, _) => "stream"
  }

  predicate Eligible(s: Stored, kind: Option<string>, now: nat) {
    Rdb.Alive(s, now) && (kind.Some? ==> TypeName(s.value) == kind.value)
  }

  /** The live keys of the type asked for. */
  ghost function EligibleKeys(m: Shard, kind: Option<string>, now: nat): set<bytes> {
    set k | k in m && Eligible(m[k], kind, now)
  }

  method CollectShard(shard: Shard, kind: Option<string>, now: nat) returns (ks: seq<bytes>)
    ensures Distinct(ks) && forall k :: k in ks <==> k in shard && Eligible(shard[k], kind, now)
  {
    hide Eligible;
    var walk := WalkSet(shard.Keys);
    ks := [];
    for n := 0 to |walk|
      invariant Distinct(ks)
      invariant forall k :: k in ks <==> k in walk[..n] && Eligible(shard[k], kind, now)
    {
      assert walk[..n + 1] == walk[..n] + [walk[n]];
      if Eligible(shard[walk[n]], kind, now) {
        ks := ks + [walk[n]];
      }
    }
    assert walk[..|walk|] == walk;
    forall k ensures k in walk <==> k in shard {
      assert k in shard.Keys <==> k in (set m | m in walk);
    }
  }

  lemma DistinctJoin(a: seq<bytes>, b: seq<bytes>)
    requires Distinct(a) && Distinct(b) && forall k :: k in a ==> k !in b
    ensures Distinct(a + b)
  {
    forall i, j | 0 <= i < j < |a + b| ensures (a + b)[i] != (a + b)[j] {
      if i < |a| <= j {
        assert a[i] in a && b[j - |a|] in b;
      }
    }
  }

  class Database {
    var shards: seq<Shard>

    ghost predicate Valid()
      reads this
    {
      Sharded(shards)
    }

    ghost function Contents(): Shard
      requires Valid()
      reads this
    {
      Merged(shards)
    }

    constructor ()
      ensures Valid() && Contents() == map[]
    {
      shards := seq(Watch.SHARDS, _ => map[]);
    }

    method Put(key: bytes, s: Stored)
      requires Valid()
      modifies this
      ensures Valid() && Contents() == old(Contents())[key := s]
    {
      hide Watch.ShardIndex;
      var i := Watch.ShardIndex(key);
      shards := shards[i := shards[i][key := s]];
      forall k ensures k in KeysOf(shards) <==> k in old(KeysOf(shards)) || k == key {
        if k in old(KeysOf(shards)) { assert k in shards[Watch.ShardIndex(k)]; }
        assert key in shards[i];
      }
    }

    method Remove(key: bytes)
      requires Valid()
      modifies this
      ensures Valid() && Contents() == old(Contents()) - {key}
    {
      hide Watch.ShardIndex;
      var i := Watch.ShardIndex(key);
      shards := shards[i := shards[i] - {key}];
      forall k ensures k in KeysOf(shards) <==> k in old(KeysOf(shards)) && k != key {
        if k in old(KeysOf(shards)) && k != key { assert k in shards[Watch.ShardIndex(k)]; }
      }
    }

    /** The keys of all shards, in the order in which they happen to be met. */
    method Collect(kind: Option<string>, now: nat) returns (all: seq<bytes>)
      requires Valid()
      ensures Distinct(all) && (set k | k in all) == EligibleKeys(Contents(), kind, now)
    {
      hide Watch.ShardIndex, Eligible;
      all := [];
      for i := 0 to |shards|
        invariant Distinct(all)
        invariant forall k :: k in all <==> k in Contents() && Watch.ShardIndex(k) < i && Eligible(Contents()[k], kind, now)
      {
        var ks := CollectShard(shards[i], kind, now);
        forall k ensures k in ks <==> k in Contents() && Watch.ShardIndex(k) == i && Eligible(Contents()[k], kind, now) {
          if k in shards[i] { assert k in KeysOf(shards); }
        }
        DistinctJoin(all, ks);
        all := all + ks;
      }
      forall k | k in Contents() ensures Watch.ShardIndex(k) < |shards| {}
    }

    method Scan(cursor: nat, f: Filter, kind: Option<string>, count: nat, now: nat) returns (next: nat, page: seq<bytes>)
      requires Valid()
      ensures IsPage(f, Listing(EligibleKeys(Contents(), kind, now)), cursor, count, next, page)
    {
      hide IsPage, EligibleKeys;
      var all := Collect(kind, now);
      all := SortKeys(all);
      next, page := PageOf(f, all, cursor, count);
    }

    /** Scanning until the cursor is 0 again, with any counts, comes to an end and returns the
        wanted live keys of all shards, each once. */
    method ScanAll(f: Filter, kind: Option<string>, counts: nat -> nat, now: nat) returns (all: seq<bytes>)
      requires Valid()
      ensures Ascending(all)
      ensures forall k :: k in all <==> k in Contents() && Eligible(Contents()[k], kind, now) && Wanted(f, k)
    {
      hide Eligible, Wanted, Kept;
      ghost var ks := Listing(EligibleKeys(Contents(), kind, now));
      var calls: nat := 1;
      var cursor, page := Scan(0, f, kind, counts(0), now);
      all := page;
      ghost var at := if cursor == 0 then |ks| else cursor;
      NothingKept(f, ks);
      assert ks[0..at] == ks[..at];
      while cursor != 0
        invariant at == if cursor == 0 then |ks| else cursor
        invariant at <= |ks| && all == Kept(f, ks[..at])
        decreases |ks| - at, cursor
      {
        cursor, page := Scan(cursor, f, kind, counts(calls), now);
        ghost var stop := if cursor == 0 then |ks| else cursor;
        KeptOnwards(f, ks, at, stop);
        all, calls, at := all + page, calls + 1, stop;
      }
      assert ks[..|ks|] == ks;
      KeptIs(f, ks);
    }
  }

  lemma KeptOnwards(f: Filter, ks: seq<bytes>, at: nat, stop: nat)
    requires at <= stop <= |ks|
    ensures Kept(f, ks[..stop]) == Kept(f, ks[..at]) + Kept(f, ks[at..stop])
  {
    hide Wanted;
    assert ks[..stop] == ks[..at] + ks[at..stop];
    KeptJoin(f, ks[..at], ks[at..stop]);
  }

  // ----- One collection -----

  /** The answer to a scan of one key. */
  datatype Reply<T> = Page(next: nat, items: seq<T>) | WrongType

  /** Small collections come back whole, in any order; others page by page. */
  ghost predicate IsMemberPage(f: Filter, members: set<bytes>, cursor: nat, count: nat, next: nat, ms: seq<bytes>) {
    if |members| <= MaxCount(count) && cursor == 0 && f.pattern.None?
    then next == 0 && Distinct(ms) && (set m | m in ms) == members
    else IsPage(f, Listing(members), cursor, count, next, ms)
  }

  method SortMembers(members: set<bytes>) returns (ms: seq<bytes>)
    ensures ms == Listing(members)
  {
    ms := WalkSet(members);
    ms := SortKeys(ms);
  }

  method SScan(v: Option<Value>, cursor: nat, f: Filter, count: nat) returns (r: Reply<bytes>)
    ensures match v
      case None => r == Page(0, [])
      case Some(Set(s)) => r.Page? && IsMemberPage(f, s, cursor, count, r.next, r.items)
      case Some(_) => r.WrongType?
  {
    if v.None? {
      return Page(0, []);
    }
    if !v.value.Set? {
      return WrongType;
    }
    hide IsPage;
    var s := v.value.members;
    if |s| <= MaxCount(count) && cursor == 0 && f.pattern.None? {
      var ms := WalkSet(s);
      return Page(0, ms);
    }
    var ms := SortMembers(s);
    var next, page := PageOf(f, ms, cursor, count);
    r := Page(next, page);
  }

  /** Members with their scores. */
  function WithScores(ms: seq<bytes>, scores: map<bytes, bytes>): seq<(bytes, bytes)>
    requires forall m :: m in ms ==> m in scores
  {
    seq(|ms|, i requires 0 <= i < |ms| => (ms[i], scores[ms[i]]))
  }

  method ZScan(v: Option<Value>, cursor: nat, f: Filter, count: nat) returns (r: Reply<(bytes, bytes)>)
    ensures match v
      case None => r == Page(0, [])
      case Some(ZSet(scores)) => r.Page? && exists ms ::
        && IsMemberPage(f, scores.Keys, cursor, count, r.next, ms)
        && (forall m :: m in ms ==> m in scores) && r.items == WithScores(ms, scores)
      case Some(_) => r.WrongType?
  {
    if v.None? {
      return Page(0, []);
    }
    if !v.value.ZSet? {
      return WrongType;
    }
    hide IsPage, WithScores;
    var scores := v.value.scores;
    var ms := SortMembers(scores.Keys);
    ListingDistinct(scores.Keys);
    if |ms| <= MaxCount(count) && cursor == 0 && f.pattern.None? {
      return Page(0, WithScores(ms, scores));
    }
    var next, page := PageOf(f, ms, cursor, count);
    PageMembers(f, scores.Keys, cursor, count, next, page);
    r := Page(next, WithScores(page, scores));
  }

  lemma ListingDistinct(s: set<bytes>)
    ensures Distinct(Listing(s)) && (set m | m in Listing(s)) == s && |Listing(s)| == |s|
  {
    var ks := Listing(s);
    DistinctSize(ks, s);
    forall i, j | 0 <= i < j < |ks| ensures ks[i] != ks[j] {
      LexTotal(ks[i], ks[j]);
    }
  }

  lemma PageMembers(f: Filter, s: set<bytes>, cursor: nat, count: nat, next: nat, page: seq<bytes>)
    requires IsPage(f, Listing(s), cursor, count, next, page)
    ensures forall m :: m in page ==> m in s
  {
    hide Kept, Wanted;
    var ks := Listing(s);
    if cursor < |ks| {
      var stop := if next == 0 then |ks| else next;
      KeptIs(f, ks[cursor..stop]);
    }
  }

  /** Fields, each followed by its value unless only fields are asked for. */
  function Flattened(fs: seq<bytes>, hash: map<bytes, bytes>, noValues: bool): (r: seq<bytes>)
    requires forall m :: m in fs ==> m in hash
    ensures |r| == if noValues then |fs| else 2 * |fs|
  {
    if fs == [] then []
    else
      var last := fs[|fs| - 1];
      Flattened(fs[..|fs| - 1], hash, noValues) + if noValues then [last] else [last, hash[last]]
  }

  method HScan(v: Option<Value>, cursor: nat, f: Filter, count: nat, noValues: bool) returns (r: Reply<bytes>)
    ensures match v
      case None => r == Page(0, [])
      case Some(Hash(hash)) => r.Page? && exists fs ::
        && IsMemberPage(f, hash.Keys, cursor, count, r.next, fs)
        && (forall m :: m in fs ==> m in hash) && r.items == Flattened(fs, hash, noValues)
      case Some(_) => r.WrongType?
  {
    if v.None? {
      return Page(0, []);
    }
    if !v.value.Hash? {
      return WrongType;
    }
    hide IsPage, Flattened;
    var hash := v.value.fields;
    if |hash| <= MaxCount(count) && cursor == 0 && f.pattern.None? {
      var fs, items := HashWhole(hash, noValues);
      assert |hash| == |hash.Keys|;
      return Page(0, items);
    }
    var fields := SortMembers(hash.Keys);
    ghost var fs;
    var next, items;
    next, items, fs := HashPage(f, hash, fields, cursor, count, noValues);
    r := Page(next, items);
  }

  method HashWhole(hash: map<bytes, bytes>, noValues: bool) returns (ghost fs: seq<bytes>, items: seq<bytes>)
    ensures Distinct(fs) && (set m | m in fs) == hash.Keys
    ensures (forall m :: m in fs ==> m in hash) && items == Flattened(fs, hash, noValues)
  {
    var walk := WalkSet(hash.Keys);
    items := [];
    for n := 0 to |walk|
      invariant items == Flattened(walk[..n], hash, noValues)
    {
      assert walk[..n + 1][..n] == walk[..n];
      items := items + [walk[n]];
      if !noValues {
        items := items + [hash[walk[n]]];
      }
    }
    assert walk[..|walk|] == walk;
    fs := walk;
  }

  lemma FlattenedNext(fs: seq<bytes>, last: bytes, hash: map<bytes, bytes>, noValues: bool)
    requires (forall m :: m in fs ==> m in hash) && last in hash
    ensures Flattened(fs + [last], hash, noValues) == Flattened(fs, hash, noValues) + if noValues then [last] else [last, hash[last]]
  {
    assert (fs + [last])[..|fs|] == fs;
  }

  /** Every member comes with its score. */
  lemma MemberWithScore(ms: seq<bytes>, scores: map<bytes, bytes>, i: nat)
    requires (forall m :: m in ms ==> m in scores) && i < |ms|
    ensures WithScores(ms, scores)[i].0 == ms[i] && WithScores(ms, scores)[i].1 == scores[ms[i]]
  {
  }

  /** Every field stands before its value, in order. */
  lemma {:induction false} FieldThenValue(fs: seq<bytes>, hash: map<bytes, bytes>, i: nat)
    requires (forall m :: m in fs ==> m in hash) && i < |fs|
    ensures Flattened(fs, hash, false)[2 * i] == fs[i] && Flattened(fs, hash, false)[2 * i + 1] == hash[fs[i]]
    ensures Flattened(fs, hash, true)[i] == fs[i]
    decreases |fs|
  {
    if i < |fs| - 1 {
      FieldThenValue(fs[..|fs| - 1], hash, i);
    }
  }

  lemma KeptNext(f: Filter, ks: seq<bytes>, from: nat, pos: nat)
    requires from <= pos < |ks|
    ensures Kept(f, ks[from..pos + 1]) == Kept(f, ks[from..pos]) + if Wanted(f, ks[pos]) then [ks[pos]] else []
  {
    hide Wanted;
    assert ks[from..pos + 1][..pos - from] == ks[from..pos];
  }

  /** The loop of HSCAN so far: the fields from the cursor to a position, filtered. */
  ghost predicate HashSoFar(f: Filter, hash: map<bytes, bytes>, fields: seq<bytes>, cursor: nat, pos: nat,
                            noValues: bool, items: seq<bytes>, fs: seq<bytes>) {
    && cursor <= pos <= |fields| && fs == Kept(f, fields[cursor..pos])
    && (forall m :: m in fs ==> m in hash) && items == Flattened(fs, hash, noValues)
  }

  lemma HashStart(f: Filter, hash: map<bytes, bytes>, fields: seq<bytes>, cursor: nat, noValues: bool)
    requires cursor <= |fields|
    ensures HashSoFar(f, hash, fields, cursor, cursor, noValues, [], [])
  {
  }

  lemma HashNext(f: Filter, hash: map<bytes, bytes>, fields: seq<bytes>, cursor: nat, pos: nat,
                 noValues: bool, items: seq<bytes>, fs: seq<bytes>)
    requires HashSoFar(f, hash, fields, cursor, pos, noValues, items, fs) && pos < |fields| && fields[pos] in hash
    ensures |items| == if noValues then |fs| else 2 * |fs|
    ensures var x := fields[pos];
      if Wanted(f, x) then HashSoFar(f, hash, fields, cursor, pos + 1, noValues, items + (if noValues then [x] else [x, hash[x]]), fs + [x])
      else HashSoFar(f, hash, fields, cursor, pos + 1, noValues, items, fs)
  {
    hide Kept, Wanted;
    KeptNext(f, fields, cursor, pos);
    FlattenedNext(fs, fields[pos], hash, noValues);
  }

  /** The loop of HSCAN counts matches by the length of its answer. */
  method HashPage(f: Filter, hash: map<bytes, bytes>, fields: seq<bytes>, cursor: nat, count: nat, noValues: bool)
    returns (next: nat, items: seq<bytes>, ghost fs: seq<bytes>)
    requires forall m :: m in fields ==> m in hash
    ensures IsPage(f, fields, cursor, count, next, fs)
    ensures (forall m :: m in fs ==> m in hash) && items == Flattened(fs, hash, noValues)
  {
    hide Wanted;
    fs := [];
    if cursor >= |fields| {
      return 0, [], [];
    }
    HashStart(f, hash, fields, cursor, noValues);
    var max := MaxCount(count);
    var examined, pos := 0, cursor;
    items := [];
    while examined < max * 10 && |items| / (if noValues then 1 else 2) < max
      invariant pos == cursor + examined && examined <= max * 10 && |fs| <= max
      invariant HashSoFar(f, hash, fields, cursor, pos, noValues, items, fs)
      invariant |items| == if noValues then |fs| else 2 * |fs|
    {
      hide HashSoFar, Kept;
      if pos >= |fields| { break; }
      var wanted := Include(f, fields[pos]);
      HashNext(f, hash, fields, cursor, pos, noValues, items, fs);
      if wanted {
        fs := fs + [fields[pos]];
        items := items + (if noValues then [fields[pos]] else [fields[pos], hash[fields[pos]]]);
      }
      pos := pos + 1;
      examined := examined + 1;
    }
    next := if pos >= |fields| then 0 else pos;
  }

  // ----- Whole iterations over one collection -----

  /** Calls of SSCAN, or of the others by their members, over a collection that does not change. */
  ghost predicate MemberIteration(f: Filter, members: set<bytes>, calls: seq<Call>) {
    && calls != [] && calls[0].cursor == 0 && calls[|calls| - 1].next == 0
    && (forall i :: 0 <= i < |calls| ==>
          && calls[i].keys == members
          && IsMemberPage(f, members, calls[i].cursor, calls[i].count, calls[i].next, calls[i].page))
    && (forall i :: 0 <= i < |calls| - 1 ==> calls[i].next != 0 && calls[i + 1].cursor == calls[i].next)
  }

  /** They return every wanted member exactly once, whether or not the collection came back whole. */
  lemma MembersOnce(f: Filter, members: set<bytes>, calls: seq<Call>)
    requires MemberIteration(f, members, calls)
    ensures Distinct(Returned(calls))
    ensures forall m :: m in Returned(calls) <==> m in members && Wanted(f, m)
  {
    hide IsPage;
    if |members| <= MaxCount(calls[0].count) && f.pattern.None? {
      assert |calls| == 1;
      assert Returned(calls[1..]) == [] && Returned(calls) == calls[0].page + [];
    } else {
      hide Wanted;
      forall i | 0 <= i < |calls| ensures Answered(f, calls[i]) {
        if i > 0 { assert calls[i].cursor == calls[i - 1].next; }
      }
      FullIteration(f, calls, members);
      forall i, j | 0 <= i < j < |Returned(calls)| ensures Returned(calls)[i] != Returned(calls)[j] {
        LexTotal(Returned(calls)[i], Returned(calls)[j]);
      }
    }
  }

  // ----- Types and expiry -----

  /** A TYPE filter keeps the values of that type, and an expired key is nowhere. */
  lemma TypeFilterKeeps(s: Stored, now: nat)
    requires s.expiry == None || s.expiry.value >= now
    ensures Eligible(s, None, now)
    ensures Eligible(s, Some("string"), now) <==> s.value.Str?
    ensures Eligible(s, Some("list"), now) <==> s.value.List?
    ensures Eligible(s, Some("set"), now) <==> s.value.Set?
    ensures Eligible(s, Some("hash"), now) <==> s.value.Hash?
    ensures Eligible(s, Some("zset"), now) <==> s.value.ZSet?
    ensures Eligible(s, Some("stream"), now) <==> s.value.Log?
  {
    var t := TypeName(s.value);
    assert "string"[0] == 's' && "list"[0] == 'l' && "set"[1] == 'e' && "hash"[0] == 'h' && "zset"[0] == 'z' && "stream"[2] == 'r';
    assert "string"[3] == 'i' && "stream"[3] == 'e' && |"set"| == 3 && |"string"| == 6;
  }

  lemma ExpiredIsNowhere(s: Stored, kind: Option<string>, now: nat)
    requires s.expiry.Some? && s.expiry.value < now
    ensures !Eligible(s, kind, now)
  {
  }
}
