/** Members and scores of sorted sets, and the order the skip list keeps them in. */
module ScoreOrder {
  import opened Bytes

  type Key = bytes

  /** An IEEE double up to rounding: the two zeros are one value, NaN is kept. */
  datatype Score = NegInf | Finite(value: real) | PosInf | NaN

  /** `a < b` on doubles: false as soon as one side is NaN. */
  predicate ScoreLess(a: Score, b: Score) {
    && !a.NaN? && !b.NaN?
    && match (a, b)
       case (Finite(x), Finite(y)) => x < y
       case (NegInf, _) => !b.NegInf?
       case (_, PosInf) => !a.PosInf?
       case _ => false
  }

  /** `a == b` on doubles. */
  predicate ScoreEqual(a: Score, b: Score) {
    !a.NaN? && a == b
  }

  predicate ScoreAtMost(a: Score, b: Score) {
    ScoreLess(a, b) || ScoreEqual(a, b)
  }

  datatype Ordering = Less | Equal | Greater

  datatype Item = Item(key: Key, value: Score)

  function CompareKeys(a: Key, b: Key): Ordering {
    if a == b then Equal else if LexLess(a, b) then Less else Greater
  }

  /** Score first, key second; NaN counts as larger than every other score. */
  function Compare(a: Item, b: Item): Ordering {
    if ScoreEqual(a.value, b.value) then CompareKeys(a.key, b.key)
    else if ScoreLess(a.value, b.value) then Less
    else if ScoreLess(b.value, a.value) then Greater
    else if a.value.NaN? && b.value.NaN? then CompareKeys(a.key, b.key)
    else if a.value.NaN? then Greater
    else Less
  }

  predicate Before(a: Item, b: Item) {
    Compare(a, b) == Less
  }

  /** With NaN ordered last, the comparison is a strict total order. */
  lemma CompareTotal(a: Item, b: Item)
    ensures Compare(a, b) == Equal <==> a == b
    ensures Compare(a, b) == Greater <==> Before(b, a)
    ensures Before(a, b) ==> !Before(b, a)
  {
    LexTotal(a.key, b.key);
  }

  lemma BeforeTransitive(a: Item, b: Item, c: Item)
    requires Before(a, b) && Before(b, c)
    ensures Before(a, c)
  {
    if a.value == b.value == c.value {
      LexTransitive(a.key, b.key, c.key);
      LexTotal(a.key, c.key);
    }
  }

  /** Scores are ordered as numbers, between the two infinities. */
  lemma ScoresAreNumbers(x: real, y: real, s: Score)
    ensures ScoreLess(Finite(x), Finite(y)) <==> x < y
    ensures ScoreLess(NegInf, s) <==> s.Finite? || s.PosInf?
    ensures ScoreLess(s, PosInf) <==> s.Finite? || s.NegInf?
    ensures !ScoreLess(s, NegInf) && !ScoreLess(PosInf, s) && !ScoreLess(s, NaN) && !ScoreLess(NaN, s)
  {
  }

  /** The smaller score comes first, and of equal scores the smaller key; NaN comes last. */
  lemma BeforeIff(a: Item, b: Item)
    ensures !a.value.NaN? && !b.value.NaN? ==>
      (Before(a, b) <==> ScoreLess(a.value, b.value) || (a.value == b.value && LexLess(a.key, b.key)))
    ensures a.value.NaN? && b.value.NaN? ==> (Before(a, b) <==> LexLess(a.key, b.key))
    ensures a.value.NaN? != b.value.NaN? ==> (Before(a, b) <==> b.value.NaN?)
  {
    LexTotal(a.key, b.key);
  }

  ghost predicate Sorted(s: seq<Item>) {
    forall i, j :: 0 <= i < j < |s| ==> Before(s[i], s[j])
  }

  /** A strictly sorted sequence is determined by the set of its items. */
  lemma {:induction false} SortedUnique(s: seq<Item>, t: seq<Item>)
    requires Sorted(s) && Sorted(t)
    requires forall x :: x in s <==> x in t
    ensures s == t
  {
    if s == [] {
      if t != [] { SomethingIn(t); }
    } else {
      assert s[0] in t;
      FirstIsLeast(s, t);
      forall x ensures x in s[1..] <==> x in t[1..] {
        TailDrops(s, x);
        TailDrops(t, x);
      }
      SortedUnique(s[1..], t[1..]);
      assert s == [s[0]] + s[1..] && t == [t[0]] + t[1..];
    }
  }

  lemma SomethingIn(t: seq<Item>)
    requires t != []
    ensures exists x :: x in t
  {
    assert t[0] in t;
  }

  lemma FirstIsLeast(s: seq<Item>, t: seq<Item>)
    requires Sorted(s) && Sorted(t) && s != [] && t != []
    requires forall x :: x in s <==> x in t
    ensures s[0] == t[0]
  {
    assert s[0] in t && t[0] in s;
    var i :| 0 <= i < |t| && t[i] == s[0];
    var j :| 0 <= j < |s| && s[j] == t[0];
    CompareTotal(s[0], t[0]);
  }

  lemma TailDrops(s: seq<Item>, x: Item)
    requires Sorted(s) && s != []
    ensures x in s[1..] <==> x in s && x != s[0]
  {
    CompareTotal(s[0], s[0]);
    if x in s && x != s[0] {
      var i :| 0 <= i < |s| && s[i] == x;
      assert s[1..][i - 1] == x;
    }
  }

  /** How many items of `s` come strictly before `q`. */
  function CountBefore(s: seq<Item>, q: Item): nat {
    if s == [] then 0 else (if Before(s[0], q) then 1 else 0) + CountBefore(s[1..], q)
  }

  /** In a sorted sequence the rank of an item is the number of items before it. */
  lemma {:induction false} RankCounts(s: seq<Item>, r: nat)
    requires Sorted(s) && r < |s|
    ensures CountBefore(s, s[r]) == r
  {
    if r == 0 {
      NoneBefore(s, s[0]);
    } else {
      assert s[1..][r - 1] == s[r];
      RankCounts(s[1..], r - 1);
    }
  }

  lemma {:induction false} NoneBefore(s: seq<Item>, q: Item)
    requires forall i :: 0 <= i < |s| ==> s[i] == q || Before(q, s[i])
    ensures CountBefore(s, q) == 0
  {
    if s != [] {
      CompareTotal(s[0], q);
      NoneBefore(s[1..], q);
    }
  }

  predicate InRange(x: Item, min: Score, max: Score) {
    !ScoreLess(x.value, min) && ScoreAtMost(x.value, max)
  }

  /** The items whose score lies between the bounds, in order. */
  function FilterRange(s: seq<Item>, min: Score, max: Score): seq<Item> {
    if s == [] then []
    else (if InRange(s[0], min, max) then [s[0]] else []) + FilterRange(s[1..], min, max)
  }

  /** Both bounds belong to the range. */
  lemma RangeHasItsEnds(k: Key, x: real, lo: real, hi: real)
    ensures InRange(Item(k, Finite(x)), Finite(lo), Finite(hi)) <==> lo <= x <= hi
    ensures InRange(Item(k, Finite(x)), NegInf, Finite(hi)) <==> x <= hi
    ensures InRange(Item(k, Finite(x)), Finite(lo), PosInf) <==> lo <= x
    ensures InRange(Item(k, Finite(x)), NegInf, PosInf)
    ensures InRange(Item(k, PosInf), Finite(lo), PosInf) && InRange(Item(k, NegInf), NegInf, Finite(hi))
    ensures !InRange(Item(k, PosInf), Finite(lo), Finite(hi)) && !InRange(Item(k, NegInf), Finite(lo), Finite(hi))
  {
  }

  /** The filtered items are those in the range, in the same order. */
  lemma {:induction false} FilterRangeIs(s: seq<Item>, min: Score, max: Score)
    requires Sorted(s)
    ensures Sorted(FilterRange(s, min, max))
    ensures forall x :: x in FilterRange(s, min, max) <==> x in s && InRange(x, min, max)
  {
    hide Compare, InRange;
    if s != [] {
      FilterRangeIs(s[1..], min, max);
      HeadAndTail(s);
      forall x | x in FilterRange(s[1..], min, max) ensures Before(s[0], x) {
        var i :| 0 <= i < |s| - 1 && s[1..][i] == x;
        assert s[i + 1] == x;
      }
    }
  }

  /** Scores below a lower bound come first, scores above an upper bound last. */
  lemma BoundsAlongOrder(a: Item, b: Item, min: Score, max: Score)
    requires Before(a, b)
    ensures ScoreLess(b.value, min) ==> ScoreLess(a.value, min)
    ensures ScoreAtMost(b.value, max) ==> ScoreAtMost(a.value, max)
  {
  }

  lemma {:induction false} FilterRangeIsSlice(s: seq<Item>, min: Score, max: Score, lo: nat, hi: nat)
    requires lo <= hi <= |s|
    requires forall i :: 0 <= i < |s| ==> (InRange(s[i], min, max) <==> lo <= i < hi)
    ensures FilterRange(s, min, max) == s[lo..hi]
  {
    if s != [] {
      var t := s[1..];
      var lo', hi' := if lo == 0 then 0 else lo - 1, if hi == 0 then 0 else hi - 1;
      forall i | 0 <= i < |t| ensures InRange(t[i], min, max) <==> lo' <= i < hi' {
        assert t[i] == s[i + 1];
      }
      FilterRangeIsSlice(t, min, max, lo', hi');
      if lo > 0 {
        assert t[lo - 1..hi - 1] == s[lo..hi];
      } else if hi > 0 {
        assert [s[0]] + t[0..hi - 1] == s[0..hi];
      }
    }
  }
}
