/** Iterating with a cursor: SCAN over the shards of a database, HSCAN, SSCAN and ZSCAN over one
    collection.  A cursor is a position in the sorted list of keys as it is at the time of the call. */
module Scan {
  import opened Bytes
  import opened KeyOrder
  import Glob

  // ----- Pages -----

  /** What a caller asks for: a glob pattern, read through a decoder of bytes into characters. */
  datatype Filter = Filter(pattern: Option<bytes>, decode: bytes -> seq<Glob.Symbol>)

  ghost predicate Wanted(f: Filter, k: bytes) {
    f.pattern.Some? ==> Glob.Matches(true, f.decode(f.pattern.value), f.decode(k))
  }

  ghost function Kept(f: Filter, ks: seq<bytes>): seq<bytes> {
    if ks == [] then []
    else Kept(f, ks[..|ks| - 1]) + if Wanted(f, ks[|ks| - 1]) then [ks[|ks| - 1]] else []
  }

  lemma {:induction false} KeptJoin(f: Filter, a: seq<bytes>, b: seq<bytes>)
    ensures Kept(f, a + b) == Kept(f, a) + Kept(f, b)
  {
    hide Wanted;
    if b == [] {
      assert a + b == a;
    } else {
      var n := |b| - 1;
      assert (a + b)[..|a| + n] == a + b[..n];
      KeptJoin(f, a, b[..n]);
    }
  }

  /** Filtering keeps exactly the wanted keys, each once, in order. */
  lemma {:induction false} KeptIs(f: Filter, ks: seq<bytes>)
    requires Ascending(ks)
    ensures Ascending(Kept(f, ks))
    ensures forall k :: k in Kept(f, ks) <==> k in ks && Wanted(f, k)
  {
    hide Wanted;
    if ks != [] {
      var n := |ks| - 1;
      KeptIs(f, ks[..n]);
      assert ks == ks[..n] + [ks[n]];
      forall k | k in Kept(f, ks[..n]) ensures LexLess(k, ks[n]) {
        assert k in ks[..n];
      }
    }
  }

  function MaxCount(count: nat): (max: nat)
    ensures 1 <= max <= 1000
  {
    var c := if count == 0 then 10 else count;
    if c <= 1000 then c else 1000
  }

  /** A page starts at the cursor and goes on until there are enough matches, enough keys were
      looked at, or the keys are at an end; the next cursor is the position after it, or 0. */
  ghost predicate IsPage(f: Filter, ks: seq<bytes>, cursor: nat, count: nat, next: nat, page: seq<bytes>) {
    if cursor >= |ks| then next == 0 && page == []
    else
      var stop := if next == 0 then |ks| else next;
      && next < |ks| && cursor < stop
      && page == Kept(f, ks[cursor..stop])
      && |page| <= MaxCount(count) && stop - cursor <= 10 * MaxCount(count)
      && (next != 0 ==> |page| == MaxCount(count) || stop - cursor == 10 * MaxCount(count))
  }

  method Include(f: Filter, k: bytes) returns (r: bool)
    ensures r <==> Wanted(f, k)
  {
    if f.pattern.None? {
      return true;
    }
    r := Glob.KeyPatternMatches(f.decode(f.pattern.value), f.decode(k));
  }

  method PageOf(f: Filter, ks: seq<bytes>, cursor: nat, count: nat) returns (next: nat, page: seq<bytes>)
    ensures IsPage(f, ks, cursor, count, next, page)
  {
    hide Wanted;
    if cursor >= |ks| && ks != [] {
      return 0, [];
    }
    var max := MaxCount(count);
    var examined, pos := 0, cursor;
    page := [];
    while examined < max * 10 && |page| < max
      invariant pos == cursor + examined && examined <= max * 10 && |page| <= max
      invariant cursor <= |ks| ==> pos <= |ks| && page == Kept(f, ks[cursor..pos])
      invariant pos > |ks| ==> ks == [] && examined == 0 && page == []
    {
      if pos >= |ks| { break; }
      var wanted := Include(f, ks[pos]);
      assert ks[cursor..pos + 1][..pos - cursor] == ks[cursor..pos];
      if wanted {
        page := page + [ks[pos]];
      }
      pos := pos + 1;
      examined := examined + 1;
    }
    next := if pos >= |ks| then 0 else pos;
  }

  // ----- Whole iterations -----

  /** One call: the keys there were at that time, what was asked and what came back. */
  datatype Call = Call(keys: set<bytes>, cursor: nat, count: nat, next: nat, page: seq<bytes>)

  ghost predicate Answered(f: Filter, c: Call) {
    IsPage(f, Listing(c.keys), c.cursor, c.count, c.next, c.page)
  }

  /** Calls that each pass on the cursor of the one before, until it is 0. */
  ghost predicate Iteration(f: Filter, calls: seq<Call>) {
    && calls != [] && calls[|calls| - 1].next == 0
    && (forall i :: 0 <= i < |calls| ==> Answered(f, calls[i]))
    && (forall i :: 0 <= i < |calls| - 1 ==> calls[i].next != 0 && calls[i + 1].cursor == calls[i].next)
  }

  function Returned(calls: seq<Call>): seq<bytes> {
    if calls == [] then [] else calls[0].page + Returned(calls[1..])
  }

  lemma TailIteration(f: Filter, calls: seq<Call>)
    requires Iteration(f, calls) && |calls| > 1
    ensures Iteration(f, calls[1..])
  {
    hide Answered;
  }

  /** Over keys that do not change, the pages make up what is left from the cursor on. */
  lemma {:induction false} PagesMakeRest(f: Filter, calls: seq<Call>, keys: set<bytes>)
    requires Iteration(f, calls) && forall i :: 0 <= i < |calls| ==> calls[i].keys == keys
    requires calls[0].cursor <= |Listing(keys)|
    ensures Returned(calls) == Kept(f, Listing(keys)[calls[0].cursor..])
    decreases |calls|
  {
    var ks, c := Listing(keys), calls[0];
    hide Kept, IsListing, Iteration;
    FirstCall(f, calls);
    PageIs(f, ks, c.cursor, c.count, c.next, c.page);
    if |calls| == 1 {
      assert calls[1..] == [] && c.page + [] == c.page;
    } else {
      TailIteration(f, calls);
      PagesMakeRest(f, calls[1..], keys);
    }
  }

  lemma FirstCall(f: Filter, calls: seq<Call>)
    requires Iteration(f, calls)
    ensures Answered(f, calls[0]) && (calls[0].next == 0 <==> |calls| == 1)
    ensures |calls| > 1 ==> calls[1].cursor == calls[0].next
  {
    hide Answered;
  }

  /** A page and what is left after it make up what was left before it. */
  lemma PageIs(f: Filter, ks: seq<bytes>, cursor: nat, count: nat, next: nat, page: seq<bytes>)
    requires IsPage(f, ks, cursor, count, next, page) && cursor <= |ks|
    ensures next <= |ks| && Kept(f, ks[cursor..]) == page + if next == 0 then [] else Kept(f, ks[next..])
  {
    hide Wanted;
    NothingKept(f, ks);
    if cursor < |ks| {
      var stop := if next == 0 then |ks| else next;
      assert ks[cursor..] == ks[cursor..stop] + ks[stop..];
      KeptJoin(f, ks[cursor..stop], ks[stop..]);
    }
  }

  lemma NothingKept(f: Filter, ks: seq<bytes>)
    ensures Kept(f, ks[|ks|..]) == []
  {
  }

  /** A whole iteration over keys that do not change returns every wanted key exactly once, in
      order, whatever the counts. */
  lemma FullIteration(f: Filter, calls: seq<Call>, keys: set<bytes>)
    requires Iteration(f, calls) && calls[0].cursor == 0
    requires forall i :: 0 <= i < |calls| ==> calls[i].keys == keys
    ensures Ascending(Returned(calls))
    ensures forall k :: k in Returned(calls) <==> k in keys && Wanted(f, k)
  {
    hide Wanted, Kept;
    PagesMakeRest(f, calls, keys);
    assert Listing(keys)[0..] == Listing(keys);
    KeptIs(f, Listing(keys));
  }

  /** Each call moves the cursor on, so that an iteration has at most as many calls as keys. */
  lemma {:induction false} IterationEnds(f: Filter, calls: seq<Call>, keys: set<bytes>)
    requires Iteration(f, calls) && forall i :: 0 <= i < |calls| ==> calls[i].keys == keys
    ensures |calls| > 1 ==> calls[0].cursor + |calls| <= |keys|
    decreases |calls|
  {
    hide Kept;
    DistinctSize(Listing(keys), keys);
    if |calls| > 1 {
      assert Answered(f, calls[0]);
      TailIteration(f, calls);
      IterationEnds(f, calls[1..], keys);
    }
  }

  /** A wanted key is on the page exactly when its position is on it. */
  lemma OnPageIff(f: Filter, c: Call, k: bytes)
    requires Answered(f, c) && Wanted(f, k) && k in c.keys
    ensures k in c.page <==> c.cursor <= |Below(c.keys, k)| && (c.next == 0 || |Below(c.keys, k)| < c.next)
  {
    hide Wanted, Kept, Below;
    var ks := Listing(c.keys);
    var p := Position(c.keys, k);
    var stop := if c.next == 0 then |ks| else c.next;
    if c.cursor < |ks| {
      KeptIs(f, ks[c.cursor..stop]);
      InSliceIff(ks, c.cursor, stop, p);
    }
  }

  lemma InSliceIff(ks: seq<bytes>, from: nat, to: nat, p: nat)
    requires Ascending(ks) && from <= to <= |ks| && p < |ks|
    ensures ks[p] in ks[from..to] <==> from <= p < to
  {
    if from <= p < to {
      assert ks[from..to][p - from] == ks[p];
    }
    if ks[p] in ks[from..to] {
      var i :| 0 <= i < to - from && ks[from..to][i] == ks[p];
      LexTotal(ks[from + i], ks[p]);
    }
  }

  /** Between a call and the next one no more of the keys before the cursor were removed than there are
      others below `k` now. */
  ghost predicate Balanced(c: Call, keys: set<bytes>, k: bytes) {
    |Passed(c.keys, c.next) - keys| <= |Below(keys - Passed(c.keys, c.next), k)|
  }

  /** A key that is still to come after a call is still to come at the next one if and only if the
      changes in between are balanced. */
  lemma StaysAheadIff(f: Filter, c: Call, next: Call, k: bytes)
    requires Answered(f, c) && Wanted(f, k) && k in c.keys && k in next.keys && next.cursor == c.next
    requires c.cursor <= |Below(c.keys, k)| && k !in c.page
    ensures c.next > 0
    ensures next.cursor <= |Below(next.keys, k)| <==> Balanced(c, next.keys, k)
  {
    hide Wanted, Answered;
    OnPageIff(f, c, k);
    StaysBehindIff(c.keys, next.keys, c.next, k);
  }

  ghost predicate Present(calls: seq<Call>, k: bytes) {
    forall j :: 0 <= j < |calls| ==> k in calls[j].keys
  }

  /** As long as `k` has not been returned, the changes between the calls are balanced. */
  ghost predicate BalancedUntilReturned(calls: seq<Call>, k: bytes) {
    forall j :: 0 <= j < |calls| - 1 && NotYet(calls, j, k) ==> Balanced(calls[j], calls[j + 1].keys, k)
  }

  ghost predicate NotYet(calls: seq<Call>, j: nat, k: bytes) {
    forall i :: 0 <= i <= j && i < |calls| ==> k !in calls[i].page
  }

  lemma BalancedTail(calls: seq<Call>, k: bytes)
    requires |calls| > 1 && k !in calls[0].page
    ensures BalancedUntilReturned(calls, k) <==>
      Balanced(calls[0], calls[1].keys, k) && BalancedUntilReturned(calls[1..], k)
  {
    hide Balanced;
    var tail := calls[1..];
    assert NotYet(calls, 0, k);
    forall j | 0 <= j < |tail| - 1 ensures NotYet(tail, j, k) <==> NotYet(calls, j + 1, k) {
      if NotYet(calls, j + 1, k) {
        forall i | 0 <= i <= j && i < |tail| ensures k !in tail[i].page {
          assert tail[i] == calls[i + 1];
        }
      }
      if NotYet(tail, j, k) {
        forall i | 0 <= i <= j + 1 && i < |calls| ensures k !in calls[i].page {
          if i > 0 { assert calls[i] == tail[i - 1]; }
        }
      }
    }
    if BalancedUntilReturned(calls, k) {
      forall j | 0 <= j < |tail| - 1 && NotYet(tail, j, k) ensures Balanced(tail[j], tail[j + 1].keys, k) {
        assert NotYet(calls, j + 1, k);
        assert Balanced(calls[j + 1], calls[j + 2].keys, k);
      }
    }
    if Balanced(calls[0], calls[1].keys, k) && BalancedUntilReturned(tail, k) {
      forall j | 0 <= j < |calls| - 1 && NotYet(calls, j, k) ensures Balanced(calls[j], calls[j + 1].keys, k) {
        if j > 0 {
          assert NotYet(tail, j - 1, k);
          assert Balanced(tail[j - 1], tail[j].keys, k);
        }
      }
    }
  }

  /** A wanted key that is there throughout is not missed, if the changes between the calls are
      balanced. */
  lemma {:induction false} NothingMissed(f: Filter, calls: seq<Call>, k: bytes) returns (i: nat)
    requires Iteration(f, calls) && Wanted(f, k) && Present(calls, k)
    requires BalancedUntilReturned(calls, k) && calls[0].cursor <= |Below(calls[0].keys, k)|
    ensures i < |calls| && k in calls[i].page
    decreases |calls|
  {
    var c := calls[0];
    FirstCall(f, calls);
    hide Wanted, Iteration, Answered, Below, Balanced, BalancedUntilReturned;
    if k in c.page {
      i := 0;
    } else {
      OnPageIff(f, c, k);
      StaysAheadIff(f, c, calls[1], k);
      BalancedTail(calls, k);
      TailIteration(f, calls);
      i := NothingMissed(f, calls[1..], k);
      i := i + 1;
    }
  }

  /** Adding keys is balanced, whatever is added. */
  lemma AddingIsBalanced(c: Call, keys: set<bytes>, k: bytes)
    requires c.keys <= keys
    ensures Balanced(c, keys, k)
  {
    assert Passed(c.keys, c.next) - keys == {};
  }

  lemma {:induction false} GrowingMissesNothing(f: Filter, calls: seq<Call>, k: bytes) returns (i: nat)
    requires Iteration(f, calls) && Wanted(f, k) && calls[0].cursor == 0 && k in calls[0].keys
    requires forall j :: 0 <= j < |calls| - 1 ==> calls[j].keys <= calls[j + 1].keys
    ensures i < |calls| && k in calls[i].page
  {
    forall j | 0 <= j < |calls| - 1 ensures Balanced(calls[j], calls[j + 1].keys, k) {
      AddingIsBalanced(calls[j], calls[j + 1].keys, k);
    }
    for j := 0 to |calls|
      invariant forall l :: 0 <= l <= j && l < |calls| ==> k in calls[l].keys
    {
      if j + 1 < |calls| { assert calls[j].keys <= calls[j + 1].keys; }
    }
    hide Iteration, Wanted, Balanced;
    i := NothingMissed(f, calls, k);
  }

  /** Once the cursor is past a key and keys are only removed, it is not returned any more. */
  lemma {:induction false} BehindForGood(f: Filter, calls: seq<Call>, k: bytes)
    requires Iteration(f, calls) && Wanted(f, k) && Present(calls, k)
    requires Shrinking(calls)
    requires calls[0].cursor > |Below(calls[0].keys, k)|
    ensures !IsReturned(calls, k)
    decreases |calls|
  {
    FirstCall(f, calls);
    CursorMoves(f, calls[0]);
    OnPageIff(f, calls[0], k);
    hide Wanted, Iteration, Answered, Below;
    if |calls| > 1 {
      PositionGrows(calls[1].keys, calls[0].keys, k);
      TailIteration(f, calls);
      BehindForGood(f, calls[1..], k);
      TailReturns(calls, k);
    }
  }

  lemma CursorMoves(f: Filter, c: Call)
    requires Answered(f, c)
    ensures c.next == 0 || c.next > c.cursor
  {
    hide Kept;
  }

  /** Where keys are only removed between the calls, a wanted key that is there throughout is returned
      if and only if the removals are balanced until then. */
  lemma {:induction false} RemovalsMissIff(f: Filter, calls: seq<Call>, k: bytes)
    requires Iteration(f, calls) && Wanted(f, k) && Present(calls, k)
    requires Shrinking(calls)
    requires calls[0].cursor <= |Below(calls[0].keys, k)|
    ensures IsReturned(calls, k) <==> BalancedUntilReturned(calls, k)
    decreases |calls|
  {
    var c := calls[0];
    FirstCall(f, calls);
    StillThere(calls, k);
    hide Wanted, Iteration, Answered, Below, Balanced, BalancedUntilReturned, IsReturned, Present, Shrinking;
    OnPageIff(f, c, k);
    if k in c.page {
      ReturnedAtOnce(calls, k);
    } else {
      StaysAheadIff(f, c, calls[1], k);
      BalancedTail(calls, k);
      TailIteration(f, calls);
      TailReturns(calls, k);
      if Balanced(c, calls[1].keys, k) {
        RemovalsMissIff(f, calls[1..], k);
      } else {
        BehindForGood(f, calls[1..], k);
      }
    }
  }

  lemma ReturnedAtOnce(calls: seq<Call>, k: bytes)
    requires calls != [] && k in calls[0].page
    ensures IsReturned(calls, k) && BalancedUntilReturned(calls, k)
  {
    assert forall j :: 0 <= j < |calls| - 1 ==> !NotYet(calls, j, k);
  }

  lemma StillThere(calls: seq<Call>, k: bytes)
    requires calls != [] && Present(calls, k) && Shrinking(calls)
    ensures k in calls[0].keys && (|calls| > 1 ==> k in calls[1].keys && Present(calls[1..], k) && Shrinking(calls[1..]))
  {
  }

  ghost predicate IsReturned(calls: seq<Call>, k: bytes) {
    exists i :: 0 <= i < |calls| && k in calls[i].page
  }

  ghost predicate Shrinking(calls: seq<Call>) {
    forall j :: 0 <= j < |calls| - 1 ==> calls[j + 1].keys <= calls[j].keys
  }

  lemma TailReturns(calls: seq<Call>, k: bytes)
    requires |calls| > 1 && k !in calls[0].page
    ensures IsReturned(calls, k) <==> IsReturned(calls[1..], k)
  {
    if i :| 0 <= i < |calls| && k in calls[i].page {
      assert calls[1..][i - 1] == calls[i];
    }
    if i :| 0 <= i < |calls[1..]| && k in calls[1..][i].page {
      assert calls[i + 1] == calls[1..][i];
    }
  }

  lemma ThreeKeys()
    ensures Listing({[1], [2], [3]}) == [[1], [2], [3]] && Listing({[2], [3]}) == [[2], [3]]
  {
    var a: bytes, b: bytes, c: bytes := [1], [2], [3];
    assert LexLess(a, b) && LexLess(b, c) && LexLess(a, c);
    ListingUnique([a, b, c], Listing({a, b, c}), {a, b, c});
    ListingUnique([b, c], Listing({b, c}), {b, c});
  }

  lemma KeptOne(decode: bytes -> seq<Glob.Symbol>, ks: seq<bytes>, i: nat)
    requires i < |ks|
    ensures Kept(Filter(None, decode), ks[i..i + 1]) == [ks[i]]
  {
    var one := ks[i..i + 1];
    assert one[..0] == [] && one == [ks[i]];
  }

  /** Removing a key before the cursor makes the iteration step over another one. */
  lemma RemovalHidesKeys(decode: bytes -> seq<Glob.Symbol>)
    ensures var f := Filter(None, decode);
      var calls := [Call({[1], [2], [3]}, 0, 1, 1, [[1]]), Call({[2], [3]}, 1, 1, 0, [[3]])];
      Iteration(f, calls) && [2] in calls[0].keys && [2] in calls[1].keys && [2] !in Returned(calls)
  {
    hide Listing, Kept, Wanted;
    var f := Filter(None, decode);
    var ks, ks': seq<bytes> := [[1], [2], [3]], [[2], [3]];
    ThreeKeys();
    KeptOne(decode, ks, 0);
    KeptOne(decode, ks', 1);
    var first, second := Call({[1], [2], [3]}, 0, 1, 1, [[1]]), Call({[2], [3]}, 1, 1, 0, [[3]]);
    assert Answered(f, first) && Answered(f, second);
    assert [first, second][1..] == [second] && [second][1..] == [];
    assert Returned([second]) == [[3]];
    assert Returned([first, second]) == [[1], [3]];
  }

  // ----- COUNT -----

  /** Without COUNT, or with 0, ten; never more than a thousand. */
  lemma CountIs(n: nat)
    ensures MaxCount(0) == 10 && (1 <= n <= 1000 ==> MaxCount(n) == n) && (n > 1000 ==> MaxCount(n) == 1000)
  {
  }

  lemma {:induction false} NoPatternKeepsAll(f: Filter, ks: seq<bytes>)
    requires f.pattern == None
    ensures Kept(f, ks) == ks
  {
    if ks != [] {
      NoPatternKeepsAll(f, ks[..|ks| - 1]);
    }
  }

  /** Without a pattern COUNT n gives n keys if more are left, and otherwise what is left. */
  lemma PageSize(f: Filter, ks: seq<bytes>, cursor: nat, n: nat, next: nat, page: seq<bytes>)
    requires f.pattern == None && 1 <= n <= 1000 && IsPage(f, ks, cursor, n, next, page)
    ensures cursor + n < |ks| ==> page == ks[cursor..cursor + n] && next == cursor + n
    ensures cursor < |ks| <= cursor + n ==> page == ks[cursor..] && next == 0
  {
    if cursor < |ks| {
      var stop := if next == 0 then |ks| else next;
      NoPatternKeepsAll(f, ks[cursor..stop]);
    }
  }
}
