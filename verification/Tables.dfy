/** Hash tables are walked in an order of their own. */
module Tables {
  import opened Bytes

  /** The elements of a set, each once, in any order. */
  method WalkSet(s: set<bytes>) returns (ms: seq<bytes>)
    ensures (set m | m in ms) == s && |ms| == |s|
    ensures forall i :: 0 <= i < |ms| ==> ms[i] in s
    ensures forall i, j :: 0 <= i < j < |ms| ==> ms[i] != ms[j]
  {
    ms := [];
    var rest := s;
    while rest != {}
      invariant rest <= s && |ms| + |rest| == |s|
      invariant forall m :: m in s ==> (m in ms <==> m !in rest)
      invariant forall i :: 0 <= i < |ms| ==> ms[i] in s && ms[i] !in rest
      invariant forall i, j :: 0 <= i < j < |ms| ==> ms[i] != ms[j]
      decreases |rest|
    {
      var m :| m in rest;
      ms := ms + [m];
      rest := rest - {m};
    }
  }

  lemma WalkCovers<V>(walk: seq<bytes>, m: map<bytes, V>)
    requires (set k | k in walk) == m.Keys
    ensures forall k :: k in walk <==> k in m
  {
    forall k ensures k in walk <==> k in m {
      assert k in (set x | x in walk) <==> k in m.Keys;
    }
  }

  lemma {:induction false} SubsetSize<T>(a: set<T>, b: set<T>)
    requires a <= b
    ensures |a| <= |b|
  {
    if a != {} {
      var x :| x in a;
      SubsetSize(a - {x}, b - {x});
    }
  }
}
