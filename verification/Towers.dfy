/** The shape of a skip list, without its nodes: the sequence of tower heights along the
    bottom chain.  Position 0 is the sentinel. */
module Towers {

  /** The first position from `q` on whose tower is taller than `l`; the length if none is. */
  function Next(h: seq<nat>, q: nat, l: nat): (r: nat)
    requires q <= |h|
    ensures q <= r <= |h|
    ensures r < |h| ==> h[r] > l
    decreases |h| - q
  {
    if q == |h| || h[q] > l then q else Next(h, q + 1, l)
  }

  lemma {:induction false} NextSkips(h: seq<nat>, q: nat, l: nat)
    requires q <= |h|
    ensures forall i :: q <= i < Next(h, q, l) ==> h[i] <= l
    decreases |h| - q
  {
    if q < |h| && h[q] <= l { NextSkips(h, q + 1, l); }
  }

  lemma {:induction false} NextIs(h: seq<nat>, q: nat, l: nat, r: nat)
    requires q <= r <= |h|
    requires r < |h| ==> h[r] > l
    requires forall i :: q <= i < r ==> h[i] <= l
    ensures Next(h, q, l) == r
    decreases r - q
  {
    if q < r { NextIs(h, q + 1, l, r); }
  }

  function InsertAt<T>(s: seq<T>, at: nat, x: T): (r: seq<T>)
    requires at <= |s|
    ensures |r| == |s| + 1 && r[at] == x
    ensures forall i :: 0 <= i < at ==> r[i] == s[i]
    ensures forall i :: at < i < |r| ==> r[i] == s[i - 1]
  {
    s[..at] + [x] + s[at..]
  }

  function RemoveAt<T>(s: seq<T>, at: nat): (r: seq<T>)
    requires at < |s|
    ensures |r| == |s| - 1
  {
    s[..at] + s[at + 1..]
  }

  lemma RemoveThenInsert<T>(s: seq<T>, at: nat)
    requires at < |s|
    ensures InsertAt(RemoveAt(s, at), at, s[at]) == s
  {
    var r := RemoveAt(s, at);
    assert r[..at] == s[..at] && r[at..] == s[at + 1..];
  }

  /** `u` is the last position up to `p` whose tower is taller than `l`. */
  ghost predicate Predecessor(h: seq<nat>, p: nat, l: nat, u: nat) {
    u <= p < |h| && h[u] > l && forall r :: u < r <= p ==> h[r] <= l
  }

  /** Exactly one position before `p + 1` links past it at a given level. */
  lemma PredecessorLinks(h: seq<nat>, p: nat, l: nat, u: nat, r: nat)
    requires Predecessor(h, p, l, u) && r <= p && h[r] > l
    ensures Next(h, r + 1, l) > p <==> r == u
    ensures r == u ==> Next(h, r + 1, l) == Next(h, p + 1, l)
  {
    NextSkips(h, r + 1, l);
    if r == u {
      NextSkips(h, p + 1, l);
      NextIs(h, r + 1, l, Next(h, p + 1, l));
    }
  }

  /** Where a position of the old sequence is found once something is put in at `at`. */
  function Up(at: nat, x: nat): nat {
    if x < at then x else x + 1
  }

  /** The links after a tower of height `n` is put in behind position `p`: predecessors lead
      to the new tower, every other link to where it led before. */
  lemma ShapeInsert(h: seq<nat>, p: nat, n: nat, u: nat, r: nat, l: nat)
    requires p < |h| && r < |h| && l < h[r]
    requires l < n ==> Predecessor(h, p, l, u)
    ensures Next(InsertAt(h, p + 1, n), Up(p + 1, r) + 1, l) ==
      if l < n && r == u then p + 1 else Up(p + 1, Next(h, r + 1, l))
  {
    var h' := InsertAt(h, p + 1, n);
    NextSkips(h, r + 1, l);
    if l < n && r <= p { PredecessorLinks(h, p, l, u, r); }
    NextIs(h', Up(p + 1, r) + 1, l, if l < n && r == u then p + 1 else Up(p + 1, Next(h, r + 1, l)));
  }

  lemma ShapeInserted(h: seq<nat>, p: nat, n: nat, l: nat)
    requires p < |h|
    ensures Next(InsertAt(h, p + 1, n), p + 2, l) == Up(p + 1, Next(h, p + 1, l))
  {
    NextSkips(h, p + 1, l);
    NextIs(InsertAt(h, p + 1, n), p + 2, l, Next(h, p + 1, l) + 1);
  }

  /** Read the other way round: once that tower is taken out again, its predecessors take
      over its own links. */
  lemma ShapeRemove(h: seq<nat>, p: nat, n: nat, u: nat, r: nat, l: nat)
    requires p < |h| && r < |h| && l < h[r]
    requires l < n ==> Predecessor(h, p, l, u)
    ensures var h' := InsertAt(h, p + 1, n);
      Up(p + 1, Next(h, r + 1, l)) ==
        if l < n && r == u then Next(h', p + 2, l) else Next(h', Up(p + 1, r) + 1, l)
  {
    ShapeInsert(h, p, n, u, r, l);
    if l < n && r == u {
      PredecessorLinks(h, p, l, u, u);
      ShapeInserted(h, p, n, l);
    }
  }

  /** Bytes taken by a node: the node itself and one link for each level. */
  const NODE_BYTES: nat := 56
  const LINK_BYTES: nat := 16

  function NodeSize(levels: nat): nat {
    NODE_BYTES + levels * LINK_BYTES
  }

  function TotalSize(h: seq<nat>): nat {
    if h == [] then 0 else NodeSize(h[0]) + TotalSize(h[1..])
  }

  lemma {:induction false} TotalSizeInsert(h: seq<nat>, at: nat, n: nat)
    requires at <= |h|
    ensures TotalSize(InsertAt(h, at, n)) == TotalSize(h) + NodeSize(n)
  {
    var h' := InsertAt(h, at, n);
    if at == 0 {
      assert h'[1..] == h;
    } else {
      assert h'[1..] == InsertAt(h[1..], at - 1, n);
      TotalSizeInsert(h[1..], at - 1, n);
    }
  }
}
