/** Sets of keys listed in ascending order. */
module KeyOrder {
  import opened Bytes
  import opened Tables

  type Key = bytes

  predicate Ascending(ks: seq<Key>) {
    forall i, j :: 0 <= i < j < |ks| ==> LexLess(ks[i], ks[j])
  }

  ghost predicate IsListing(ks: seq<Key>, s: set<Key>) {
    Ascending(ks) && forall k :: k in ks <==> k in s
  }

  ghost predicate IsLeast(s: set<Key>, m: Key) {
    m in s && forall k :: k in s && k != m ==> LexLess(m, k)
  }

  lemma {:induction false} LeastExists(s: set<Key>) returns (m: Key)
    requires s != {}
    ensures IsLeast(s, m)
    decreases |s|
  {
    m :| m in s;
    var rest := s - {m};
    assert s == rest + {m};
    if rest != {} {
      var least := LeastExists(rest);
      LexTotal(m, least);
      if LexLess(least, m) {
        m := least;
      } else {
        forall k | k in s && k != m ensures LexLess(m, k) {
          if k != least { LexTransitive(m, least, k); }
        }
      }
    }
  }

  /** The keys of a set in ascending order. */
  ghost function Listing(s: set<Key>): (ks: seq<Key>)
    ensures IsListing(ks, s)
    decreases |s|
  {
    if s == {} then []
    else
      assert exists m :: IsLeast(s, m) by { var m := LeastExists(s); }
      var m :| IsLeast(s, m);
      var rest := Listing(s - {m});
      ConsListing(m, rest, s);
      [m] + rest
  }

  lemma ConsListing(m: Key, ks: seq<Key>, s: set<Key>)
    requires IsLeast(s, m) && IsListing(ks, s - {m})
    ensures IsListing([m] + ks, s)
  {
    var r := [m] + ks;
    forall i, j | 0 <= i < j < |r| ensures LexLess(r[i], r[j]) {
      assert r[j] == ks[j - 1];
      if i == 0 {
        assert ks[j - 1] in s - {m};
      } else {
        assert r[i] == ks[i - 1];
      }
    }
  }

  /** There is only one way to list a set. */
  lemma {:induction false} ListingUnique(ks: seq<Key>, ks': seq<Key>, s: set<Key>)
    requires IsListing(ks, s) && IsListing(ks', s)
    ensures ks == ks'
    decreases |ks|
  {
    DistinctSize(ks, s);
    DistinctSize(ks', s);
    if ks != [] {
      var m := ks[0];
      assert m in ks';
      assert ks'[0] in ks;
      LexTotal(m, ks'[0]);
      assert m == ks'[0];
      TailListing(ks, s);
      TailListing(ks', s);
      ListingUnique(ks[1..], ks'[1..], s - {m});
      HeadAndTail(ks);
      HeadAndTail(ks');
    }
  }

  lemma TailListing(ks: seq<Key>, s: set<Key>)
    requires IsListing(ks, s) && ks != []
    ensures IsListing(ks[1..], s - {ks[0]})
  {
    forall k | k in ks[1..] ensures k != ks[0] {
      LexTotal(ks[0], k);
    }
    assert forall k :: k in ks <==> k == ks[0] || k in ks[1..] by { HeadAndTail(ks); }
  }

  // ----- The position of a key is the number of smaller ones -----

  ghost function Below(s: set<Key>, k: Key): set<Key> {
    set x | x in s && LexLess(x, k)
  }

  lemma {:induction false} DistinctSize(ks: seq<Key>, s: set<Key>)
    requires IsListing(ks, s)
    ensures |ks| == |s|
    decreases |ks|
  {
    if ks == [] {
      assert s == {};
    } else {
      TailListing(ks, s);
      DistinctSize(ks[1..], s - {ks[0]});
    }
  }

  lemma Position(s: set<Key>, k: Key) returns (i: nat)
    requires k in s
    ensures i < |Listing(s)| && Listing(s)[i] == k && i == |Below(s, k)|
  {
    var ks := Listing(s);
    i :| 0 <= i < |ks| && ks[i] == k;
    forall x ensures x in ks[..i] <==> x in Below(s, k) {
      if x in Below(s, k) {
        var j :| 0 <= j < |ks| && ks[j] == x;
        LexTotal(x, k);
        assert j < i;
        assert ks[..i][j] == x;
      }
    }
    DistinctSize(ks[..i], Below(s, k));
  }

  /** Adding keys moves the others to the right only. */
  lemma PositionGrows(s: set<Key>, s': set<Key>, k: Key)
    requires s <= s'
    ensures |Below(s, k)| <= |Below(s', k)|
  {
    SubsetSize(Below(s, k), Below(s', k));
  }

  /** The first keys of the listing. */
  ghost function Passed(s: set<Key>, n: nat): set<Key> {
    var ks := Listing(s);
    var first := ks[..if n <= |ks| then n else |ks|];
    set k | k in first
  }

  lemma PassedSize(s: set<Key>, n: nat, k: Key)
    requires k in s && n <= |Below(s, k)|
    ensures |Passed(s, n)| == n && forall x :: x in Passed(s, n) ==> LexLess(x, k)
  {
    var ks := Listing(s);
    var p := Position(s, k);
    DistinctSize(ks[..n], Passed(s, n));
    forall x | x in Passed(s, n) ensures LexLess(x, k) {
      var i :| 0 <= i < n && ks[i] == x;
    }
  }

  /** A key that is not among the first `n` is still not among the first `n` after the set has changed
      if and only if no more of those were removed than there are others below it now. */
  lemma StaysBehindIff(s: set<Key>, s': set<Key>, n: nat, k: Key)
    requires k in s && n <= |Below(s, k)|
    ensures n <= |Below(s', k)| <==> |Passed(s, n) - s'| <= |Below(s' - Passed(s, n), k)|
  {
    var passed := Passed(s, n);
    PassedSize(s, n, k);
    hide Passed;
    assert Below(s', k) == passed * s' + Below(s' - passed, k);
    assert passed == passed * s' + (passed - s');
  }

  // ----- Sorting -----

  predicate Distinct(ks: seq<Key>) {
    forall i, j :: 0 <= i < j < |ks| ==> ks[i] != ks[j]
  }

  method InsertInto(ks: seq<Key>, k: Key) returns (r: seq<Key>)
    requires Ascending(ks) && k !in ks
    ensures Ascending(r) && forall x :: x in r <==> x in ks || x == k
  {
    var i := 0;
    while i < |ks| && LexLess(ks[i], k)
      invariant i <= |ks|
      invariant forall j :: 0 <= j < i ==> LexLess(ks[j], k)
    {
      i := i + 1;
    }
    r := ks[..i] + [k] + ks[i..];
    forall j | i <= j < |ks| ensures LexLess(k, ks[j]) {
      LexTotal(ks[i], k);
      if j > i { LexTransitive(k, ks[i], ks[j]); }
    }
    forall x ensures x in r <==> x in ks || x == k {
      assert ks == ks[..i] + ks[i..];
    }
  }

  method SortKeys(keys: seq<Key>) returns (ks: seq<Key>)
    requires Distinct(keys)
    ensures ks == Listing(set k | k in keys)
  {
    ks := [];
    for n := 0 to |keys|
      invariant Ascending(ks) && forall x :: x in ks <==> x in keys[..n]
    {
      assert keys[..n + 1] == keys[..n] + [keys[n]];
      ks := InsertInto(ks, keys[n]);
    }
    assert keys[..|keys|] == keys;
    ListingUnique(ks, Listing(set k | k in keys), set k | k in keys);
  }
}
