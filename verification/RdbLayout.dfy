/** Values laid out for writing: hash tables in the order in which they happen to be walked. */
module RdbLayout {
  import opened Bytes
  import opened Tables
  import opened StreamId
  import opened Stream
  import opened RdbFormat
  import opened Rdb

  // ----- Hash tables in the order in which they are walked -----

  /** Pairs that list a map, each key once. */
  ghost predicate Lists(ps: seq<Pair>, m: map<bytes, bytes>) {
    && ToMap(ps) == m && |ps| == |m|
    && forall i :: 0 <= i < |ps| ==> ps[i].key in m && m[ps[i].key] == ps[i].value
  }

  lemma {:induction false} Tabulated(ks: seq<bytes>, m: map<bytes, bytes>, ps: seq<Pair>)
    requires |ps| == |ks| && forall i :: 0 <= i < |ks| ==> ks[i] in m && ps[i] == Pair(ks[i], m[ks[i]])
    ensures ToMap(ps) == map k | k in ks :: m[k]
  {
    if ks != [] {
      var n := |ks| - 1;
      Tabulated(ks[..n], m, ps[..n]);
      assert forall k :: k in ks <==> k in ks[..n] || k == ks[n];
    }
  }

  method WalkMap(m: map<bytes, bytes>) returns (ps: seq<Pair>)
    ensures Lists(ps, m)
  {
    var ks := WalkSet(m.Keys);
    ps := seq(|ks|, i requires 0 <= i < |ks| && ks[i] in m => Pair(ks[i], m[ks[i]]));
    Tabulated(ks, m, ps);
    assert |m| == |m.Keys|;
  }

  ghost predicate ListsScores(ms: seq<Scored>, m: map<bytes, bytes>) {
    && ToScores(ms) == m && |ms| == |m|
    && forall i :: 0 <= i < |ms| ==> ms[i].member in m && m[ms[i].member] == ms[i].score
  }

  lemma {:induction false} ScoresAsPairs(ps: seq<Pair>, ms: seq<Scored>)
    requires |ps| == |ms| && forall i :: 0 <= i < |ps| ==> ms[i] == Scored(ps[i].key, ps[i].value)
    ensures ToScores(ms) == ToMap(ps)
  {
    if ps != [] {
      ScoresAsPairs(ps[..|ps| - 1], ms[..|ms| - 1]);
    }
  }

  method WalkScores(m: map<bytes, bytes>) returns (ms: seq<Scored>)
    ensures ListsScores(ms, m)
  {
    var ps := WalkMap(m);
    ms := seq(|ps|, i requires 0 <= i < |ps| => Scored(ps[i].key, ps[i].value));
    ScoresAsPairs(ps, ms);
  }

  method WalkEntries(es: seq<Entry>) returns (raw: seq<RawEntry>)
    ensures ToEntries(raw) == es
    ensures forall i :: 0 <= i < |es| ==> raw[i].id == es[i].id && Lists(raw[i].fields, es[i].fields)
  {
    raw := [];
    for n := 0 to |es|
      invariant |raw| == n
      invariant forall i :: 0 <= i < n ==> raw[i].id == es[i].id && Lists(raw[i].fields, es[i].fields)
    {
      var ps := WalkMap(es[n].fields);
      raw := raw + [RawEntry(es[n].id, ps)];
    }
  }

  /** A value laid out for writing. */
  method LayOut(v: Value) returns (raw: Raw)
    ensures ToValue(raw) == v && (FitValue(v) ==> Fit(raw))
  {
    match v
    case Str(t) => raw := RawStr(t);
    case List(xs) => raw := RawList(xs);
    case Set(s) => var ms := WalkSet(s); raw := RawSet(ms);
    case Hash(m) => var ps := WalkMap(m); raw := RawHash(ps);
    case ZSet(m) => var ms := WalkScores(m); raw := RawZSet(ms);
      FitScores(m, ms);
    case Log(es, lastId, groups) => var rs := WalkEntries(es); raw := RawLog(rs, lastId, groups);
      FitLog(v, raw);
  }

  lemma FitScores(m: map<bytes, bytes>, ms: seq<Scored>)
    requires ListsScores(ms, m)
    ensures FitValue(ZSet(m)) ==> Fit(RawZSet(ms))
  {
    if FitValue(ZSet(m)) && m != map[] { assert |ms| > 0; }
  }

  lemma FitLog(v: Value, raw: Raw)
    requires v.Log? && raw.RawLog? && |raw.entries| == |v.entries|
    requires forall i :: 0 <= i < |v.entries| ==> raw.entries[i].id == v.entries[i].id && Lists(raw.entries[i].fields, v.entries[i].fields)
    ensures FitValue(v) ==> Fit(raw)
  {
    hide FitEntry, FitFields, Lists;
    var es, rs := v.entries, raw.entries;
    ItemTotalIs(es, rs);
    if FitValue(v) {
      forall i | 0 <= i < |rs| ensures FitEntry(rs[i]) && (es[i].fields != map[] ==> rs[i].fields != []) {
        FitOne(es[i], rs[i]);
      }
    }
  }

  lemma FitOne(e: Entry, r: RawEntry)
    requires r.id == e.id && Lists(r.fields, e.fields) && FitFields(e)
    ensures FitEntry(r) && (e.fields != map[] ==> r.fields != [])
  {
    if e.fields != map[] { assert |r.fields| > 0; }
  }

  ghost function ItemTotal(es: seq<Entry>): nat {
    if es == [] then 0 else 2 + 2 * |es[0].fields| + ItemTotal(es[1..])
  }

  lemma {:induction false} ItemTotalIs(es: seq<Entry>, rs: seq<RawEntry>)
    requires |rs| == |es| && forall i :: 0 <= i < |es| ==> Lists(rs[i].fields, es[i].fields)
    ensures ItemCount(rs) == ItemTotal(es)
    decreases |es|
  {
    if es != [] {
      ItemTotalIs(es[1..], rs[1..]);
    }
  }

  ghost predicate ShortMap(m: map<bytes, bytes>) {
    forall k :: k in m ==> |k| < U32 && |m[k]| < U32
  }

  ghost predicate FitFields(e: Entry) {
    0 < e.id <= MAX_ID && |e.fields| < U32 && ShortMap(e.fields)
  }

  /** Values whose bytes are read as they were meant: everything in range, no list that looks like a
      stream, no stream whose last entry has no field. */
  ghost predicate FitValue(v: Value) {
    match v
    case Str(t) => |t| < U32
    case List(xs) => (xs != [] ==> xs[0] != MARKER) && |xs| < U32 && Short(xs)
    case Set(s) => |s| < U32 && forall m :: m in s ==> |m| < U32
    case Hash(m) => |m| < U32 && ShortMap(m)
    case ZSet(m) => |m| < U32 && ShortMap(m) && forall k :: k in m ==> |m[k]| == 8
    case Log(es, _, _) =>
      (es != [] ==> es[|es| - 1].fields != map[]) && 1 + ItemTotal(es) < U32 && Increasing(es) && forall i :: 0 <= i < |es| ==> FitFields(es[i])
  }
}
