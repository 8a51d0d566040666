/** The two glob matchers of the server.

    Channel patterns are matched byte by byte (src/pubsub.rs), key patterns character by
    character (src/storage/engine.rs).  Both are iterative matchers that remember a single
    backtrack point, the last `*` they met.  `Matches` is the declarative meaning they are
    proved equal to: a `*` stands for any stretch of text whatsoever. */
module Glob {
  import opened Bytes

  /** A byte of a channel name or a Unicode scalar value of a key. */
  type Symbol = nat

  const STAR: Symbol := 42        // '*'
  const QUESTION: Symbol := 63    // '?'
  const BACKSLASH: Symbol := 92   // '\'
  const OPEN: Symbol := 91        // '['
  const CLOSE: Symbol := 93       // ']'
  const CARET: Symbol := 94       // '^'
  const DASH: Symbol := 45        // '-'

  /** What a pattern asks of the next symbol of the text: `width` symbols of the pattern
      are used up, and `accepts` says whether the symbol will do. */
  datatype Atom = Atom(width: nat, accepts: Symbol -> bool)

  /** The position of the first `]`, or the length when there is none. */
  function ClassEnd(p: seq<Symbol>): (n: nat)
    ensures n <= |p|
    ensures n < |p| ==> p[n] == CLOSE
    ensures forall i :: 0 <= i < n ==> p[i] != CLOSE
  {
    if p == [] then 0
    else if p[0] == CLOSE then 0
    else 1 + ClassEnd(p[1..])
  }

  /** Membership in the body of a character class: single symbols and ranges `a-z`. */
  predicate ClassHas(body: seq<Symbol>, c: Symbol) {
    if body == [] then false
    else if 2 < |body| && body[1] == DASH then
      body[0] <= c <= body[2] || ClassHas(body[3..], c)
    else
      body[0] == c || ClassHas(body[1..], c)
  }

  /** A class body that starts with `^` (and is not empty) is negated. */
  predicate ClassAccepts(body: seq<Symbol>, c: Symbol) {
    if body != [] && body[0] == CARET then !ClassHas(body[1..], c) else ClassHas(body, c)
  }

  /** The first atom of a pattern that does not start with a star.  An unclosed class
      accepts no symbol at all; a backslash at the very end stands for itself. */
  function FirstAtom(classes: bool, p: seq<Symbol>): (a: Atom)
    requires p != [] && p[0] != STAR
    ensures 1 <= a.width <= |p|
  {
    if p[0] == QUESTION then Atom(1, (c: Symbol) => true)
    else if classes && p[0] == OPEN then
      var end := ClassEnd(p);
      if end < |p| then
        assert end != 0;
        Atom(end + 1, (c: Symbol) => ClassAccepts(p[1..end], c))
      else Atom(1, (c: Symbol) => false)
    else if p[0] == BACKSLASH && 1 < |p| then Atom(2, (c: Symbol) => c == p[1])
    else Atom(1, (c: Symbol) => c == p[0])
  }

  /** The meaning of a pattern; `classes` says whether `[...]` is special. */
  ghost predicate Matches(classes: bool, p: seq<Symbol>, t: seq<Symbol>)
    decreases |p|
  {
    if p == [] then t == []
    else if p[0] == STAR then exists k :: 0 <= k <= |t| && Matches(classes, p[1..], t[k..])
    else
      var a := FirstAtom(classes, p);
      t != [] && a.accepts(t[0]) && Matches(classes, p[a.width..], t[1..])
  }

  /** `Matches` between positions of a fixed pattern and a fixed text. */
  ghost predicate From(classes: bool, p: seq<Symbol>, t: seq<Symbol>, i: nat, j: nat) {
    i <= |p| && j <= |t| && Matches(classes, p[i..], t[j..])
  }

  /** The pattern after the star at `star` matches the text from `k` on. */
  ghost predicate AfterStar(classes: bool, p: seq<Symbol>, t: seq<Symbol>, star: nat, k: nat) {
    From(classes, p, t, star + 1, k)
  }

  lemma FromAtEnd(classes: bool, p: seq<Symbol>, t: seq<Symbol>, j: nat)
    requires j <= |t|
    ensures From(classes, p, t, |p|, j) <==> j == |t|
  {
  }

  /** A step over one atom. */
  lemma FromAtom(classes: bool, p: seq<Symbol>, t: seq<Symbol>, i: nat, j: nat)
    requires i < |p| && p[i] != STAR && j <= |t|
    ensures var a := FirstAtom(classes, p[i..]);
      From(classes, p, t, i, j)
      <==> j < |t| && a.accepts(t[j]) && From(classes, p, t, i + a.width, j + 1)
  {
    var a := FirstAtom(classes, p[i..]);
    assert p[i..][a.width..] == p[i + a.width..];
    if j < |t| {
      assert t[j..][1..] == t[j + 1..];
    }
  }

  /** A star followed by the rest of the pattern: any later position will do. */
  lemma FromStar(classes: bool, p: seq<Symbol>, t: seq<Symbol>, i: nat, j: nat)
    requires i < |p| && p[i] == STAR && j <= |t|
    ensures From(classes, p, t, i, j) <==> exists k :: j <= k <= |t| && AfterStar(classes, p, t, i, k)
  {
    assert p[i..][1..] == p[i + 1..];
    forall k | 0 <= k <= |t| - j ensures t[j..][k..] == t[j + k..] {}
    if From(classes, p, t, i, j) {
      var k :| 0 <= k <= |t[j..]| && Matches(classes, p[i..][1..], t[j..][k..]);
      assert AfterStar(classes, p, t, i, j + k);
    }
    if k :| j <= k <= |t| && AfterStar(classes, p, t, i, k) {
      assert t[j..][k - j..] == t[k..];
      assert Matches(classes, p[i..][1..], t[j..][k - j..]);
    }
  }

  /** A star before the position reached so far can still absorb more of the text. */
  lemma StarAbsorbs(classes: bool, p: seq<Symbol>, t: seq<Symbol>, i: nat, j: nat, j': nat)
    requires i < |p| && p[i] == STAR && j <= j' <= |t|
    requires From(classes, p, t, i, j')
    ensures From(classes, p, t, i, j)
  {
    FromStar(classes, p, t, i, j');
    FromStar(classes, p, t, i, j);
  }

  /** The backtrack point is adequate: whatever the pattern after the remembered star can
      match from a later position, the current pattern position can match from the position
      shifted by as much as has been consumed since the star. */
  ghost predicate Shift(classes: bool, p: seq<Symbol>, t: seq<Symbol>, star: nat, mark: nat, i: nat, j: nat) {
    mark <= j &&
    forall k :: mark <= k <= |t| && AfterStar(classes, p, t, star, k) ==>
      k + (j - mark) <= |t| && From(classes, p, t, i, k + (j - mark))
  }

  /** Some position after the mark starts a match of the pattern after the star. */
  ghost predicate Later(classes: bool, p: seq<Symbol>, t: seq<Symbol>, star: nat, mark: nat) {
    exists k :: mark < k <= |t| && AfterStar(classes, p, t, star, k)
  }

  /** What the loop of either matcher maintains. */
  ghost predicate LoopInv(classes: bool, p: seq<Symbol>, t: seq<Symbol>,
                          i: nat, j: nat, star: Option<nat>, mark: nat) {
    && i <= |p| && j <= |t| && mark <= j
    && (star.Some? ==>
          && star.value < i && p[star.value] == STAR
          && Shift(classes, p, t, star.value, mark, i, j))
    && (Matches(classes, p, t) <==>
          From(classes, p, t, i, j) || (star.Some? && Later(classes, p, t, star.value, mark)))
  }

  lemma LoopStart(classes: bool, p: seq<Symbol>, t: seq<Symbol>)
    ensures LoopInv(classes, p, t, 0, 0, None, 0)
  {
    assert p[0..] == p && t[0..] == t;
  }

  /** An accepted atom moves both positions on. */
  lemma LoopAccept(classes: bool, p: seq<Symbol>, t: seq<Symbol>, i: nat, j: nat, star: Option<nat>, mark: nat)
    requires LoopInv(classes, p, t, i, j, star, mark)
    requires i < |p| && j < |t| && p[i] != STAR
    requires FirstAtom(classes, p[i..]).accepts(t[j])
    ensures LoopInv(classes, p, t, i + FirstAtom(classes, p[i..]).width, j + 1, star, mark)
  {
    FromAtom(classes, p, t, i, j);
    if star.Some? {
      forall k | mark <= k <= |t| && AfterStar(classes, p, t, star.value, k)
        ensures k + (j + 1 - mark) <= |t|
        ensures From(classes, p, t, i + FirstAtom(classes, p[i..]).width, k + (j + 1 - mark))
      {
        FromAtom(classes, p, t, i, k + (j - mark));
      }
    }
  }

  /** A new star makes the older one superfluous: this is the exchange argument. */
  lemma LoopStar(classes: bool, p: seq<Symbol>, t: seq<Symbol>, i: nat, j: nat, star: Option<nat>, mark: nat)
    requires LoopInv(classes, p, t, i, j, star, mark)
    requires i < |p| && p[i] == STAR
    ensures LoopInv(classes, p, t, i + 1, j, Some(i), j)
  {
    FromStar(classes, p, t, i, j);
    assert AfterStar(classes, p, t, i, j) <==> From(classes, p, t, i + 1, j);
    if star.Some? && Later(classes, p, t, star.value, mark) {
      var k :| mark < k <= |t| && AfterStar(classes, p, t, star.value, k);
      StarAbsorbs(classes, p, t, i, j, k + (j - mark));
    }
  }

  /** When the current attempt is dead the next position after the star is tried. */
  lemma LoopBacktrack(classes: bool, p: seq<Symbol>, t: seq<Symbol>, i: nat, j: nat, star: nat, mark: nat)
    requires LoopInv(classes, p, t, i, j, Some(star), mark)
    requires j < |t| && !From(classes, p, t, i, j)
    ensures LoopInv(classes, p, t, star + 1, mark + 1, Some(star), mark + 1)
  {
    assert AfterStar(classes, p, t, star, mark + 1) <==> From(classes, p, t, star + 1, mark + 1);
  }

  lemma LoopDead(classes: bool, p: seq<Symbol>, t: seq<Symbol>, i: nat, j: nat)
    requires i <= |p| && j < |t|
    requires i == |p| || (p[i] != STAR && !FirstAtom(classes, p[i..]).accepts(t[j]))
    ensures !From(classes, p, t, i, j)
  {
    if i < |p| {
      FromAtom(classes, p, t, i, j);
    }
  }

  /** Once the text is used up, the remembered star is of no further help. */
  lemma LoopEnd(classes: bool, p: seq<Symbol>, t: seq<Symbol>, i: nat, star: Option<nat>, mark: nat)
    requires LoopInv(classes, p, t, i, |t|, star, mark)
    ensures Matches(classes, p, t) <==> From(classes, p, t, i, |t|)
  {
  }

  lemma TrailingStar(classes: bool, p: seq<Symbol>, t: seq<Symbol>, i: nat)
    requires i < |p|
    ensures p[i] == STAR ==> (From(classes, p, t, i, |t|) <==> From(classes, p, t, i + 1, |t|))
    ensures p[i] != STAR ==> !From(classes, p, t, i, |t|)
  {
    if p[i] == STAR {
      FromStar(classes, p, t, i, |t|);
      assert AfterStar(classes, p, t, i, |t|) <==> From(classes, p, t, i + 1, |t|);
    } else {
      FromAtom(classes, p, t, i, |t|);
    }
  }

  /** The loop that runs after the text is exhausted: only stars may be left. */
  method SkipTrailingStars(ghost classes: bool, p: seq<Symbol>, ghost t: seq<Symbol>, start: nat) returns (r: bool)
    requires start <= |p|
    ensures r <==> From(classes, p, t, start, |t|)
  {
    var i := start;
    while i < |p| && p[i] == STAR
      invariant start <= i <= |p|
      invariant From(classes, p, t, start, |t|) <==> From(classes, p, t, i, |t|)
    {
      TrailingStar(classes, p, t, i);
      i := i + 1;
    }
    if i < |p| {
      TrailingStar(classes, p, t, i);
    } else {
      FromAtEnd(classes, p, t, |t|);
    }
    r := i == |p|;
  }

  /** Channel patterns: `*`, `?` and backslash. */
  method ChannelPatternMatches(p: seq<Symbol>, t: seq<Symbol>) returns (r: bool)
    ensures r <==> Matches(false, p, t)
  {
    hide Matches, From, Shift, Later, ClassEnd;
    var i: nat, j: nat := 0, 0;
    var star: Option<nat>, mark: nat := None, 0;
    LoopStart(false, p, t);
    while j < |t|
      invariant LoopInv(false, p, t, i, j, star, mark)
      decreases |t| - mark, |p| - i
    {
      if i < |p| {
        if p[i] == QUESTION {
          LoopAccept(false, p, t, i, j, star, mark);
          i, j := i + 1, j + 1;
          continue;
        } else if p[i] == STAR {
          LoopStar(false, p, t, i, j, star, mark);
          star, mark, i := Some(i), j, i + 1;
          continue;
        } else if p[i] == BACKSLASH && i + 1 < |p| {
          if p[i + 1] == t[j] {
            LoopAccept(false, p, t, i, j, star, mark);
            i, j := i + 2, j + 1;
            continue;
          }
        } else if p[i] == t[j] {
          LoopAccept(false, p, t, i, j, star, mark);
          i, j := i + 1, j + 1;
          continue;
        }
      }
      LoopDead(false, p, t, i, j);
      if star.Some? {
        LoopBacktrack(false, p, t, i, j, star.value, mark);
        i, mark := star.value + 1, mark + 1;
        j := mark;
      } else {
        return false;
      }
    }
    LoopEnd(false, p, t, i, star, mark);
    r := SkipTrailingStars(false, p, t, i);
  }

  /** The search for the closing bracket. */
  method FindClassEnd(p: seq<Symbol>, i: nat) returns (end: nat)
    requires i < |p|
    ensures end == i + ClassEnd(p[i..])
  {
    end := i;
    while end < |p| && p[end] != CLOSE
      invariant i <= end <= |p|
      invariant i + ClassEnd(p[i..]) == end + ClassEnd(p[end..])
    {
      assert p[end..][1..] == p[end + 1..];
      end := end + 1;
    }
  }

  /** The loop over the items of a character class. */
  method ScanClass(p: seq<Symbol>, start: nat, end: nat, c: Symbol) returns (matched: bool)
    requires start <= end <= |p|
    ensures matched <==> ClassHas(p[start..end], c)
  {
    matched := false;
    var i := start;
    while i < end
      invariant start <= i <= end
      invariant ClassHas(p[start..end], c) <==> ClassHas(p[i..end], c)
    {
      if i + 2 < end && p[i + 1] == DASH {
        assert p[i..end][3..] == p[i + 3..end];
        if p[i] <= c <= p[i + 2] {
          return true;
        }
        i := i + 3;
      } else {
        assert p[i..end][1..] == p[i + 1..end];
        if p[i] == c {
          return true;
        }
        i := i + 1;
      }
    }
  }

  /** One character class against one symbol of the text; `next` is the pattern position
      after the class. */
  method MatchClass(p: seq<Symbol>, i: nat, c: Symbol) returns (accepted: bool, next: nat)
    requires i < |p| && p[i] == OPEN
    ensures var a := FirstAtom(true, p[i..]); accepted == a.accepts(c) && next == i + a.width
  {
    var end := FindClassEnd(p, i);
    if end < |p| {
      assert p[i..][1..end - i] == p[i + 1..end];
      var negate := i + 1 < end && p[i + 1] == CARET;
      var start := if negate then i + 2 else i + 1;
      assert negate ==> p[i + 1..end][1..] == p[start..end];
      var matched := ScanClass(p, start, end, c);
      accepted, next := matched != negate, end + 1;
    } else {
      accepted, next := false, i + 1;
    }
  }

  /** Key patterns: as channel patterns, with character classes. */
  method KeyPatternMatches(p: seq<Symbol>, t: seq<Symbol>) returns (r: bool)
    ensures r <==> Matches(true, p, t)
  {
    hide Matches, From, Shift, Later, ClassEnd;
    var i: nat, j: nat := 0, 0;
    var star: Option<nat>, mark: nat := None, 0;
    LoopStart(true, p, t);
    while j < |t|
      invariant LoopInv(true, p, t, i, j, star, mark)
      decreases |t| - mark, |p| - i
    {
      if i < |p| {
        if p[i] == QUESTION {
          LoopAccept(true, p, t, i, j, star, mark);
          i, j := i + 1, j + 1;
          continue;
        } else if p[i] == STAR {
          LoopStar(true, p, t, i, j, star, mark);
          star, mark, i := Some(i), j, i + 1;
          continue;
        } else if p[i] == OPEN {
          var accepted, next := MatchClass(p, i, t[j]);
          if accepted {
            LoopAccept(true, p, t, i, j, star, mark);
            i, j := next, j + 1;
            continue;
          }
        } else if p[i] == BACKSLASH && i + 1 < |p| {
          if p[i + 1] == t[j] {
            LoopAccept(true, p, t, i, j, star, mark);
            i, j := i + 2, j + 1;
            continue;
          }
        } else if p[i] == t[j] {
          LoopAccept(true, p, t, i, j, star, mark);
          i, j := i + 1, j + 1;
          continue;
        }
      }
      LoopDead(true, p, t, i, j);
      if star.Some? {
        LoopBacktrack(true, p, t, i, j, star.value, mark);
        i, mark := star.value + 1, mark + 1;
        j := mark;
      } else {
        return false;
      }
    }
    LoopEnd(true, p, t, i, star, mark);
    r := SkipTrailingStars(true, p, t, i);
  }

  /** Without an opening bracket the two matchers cannot be told apart. */
  lemma {:induction false} MatchersAgree(p: seq<Symbol>, t: seq<Symbol>)
    requires OPEN !in p
    ensures Matches(true, p, t) <==> Matches(false, p, t)
    decreases |p|
  {
    if p != [] {
      if p[0] == STAR {
        forall k | 0 <= k <= |t|
          ensures Matches(true, p[1..], t[k..]) <==> Matches(false, p[1..], t[k..])
        {
          MatchersAgree(p[1..], t[k..]);
        }
      } else if t != [] {
        var a, b := FirstAtom(true, p), FirstAtom(false, p);
        assert p[0] != OPEN;
        assert a.width == b.width && a.accepts(t[0]) == b.accepts(t[0]);
        MatchersAgree(p[a.width..], t[1..]);
      }
    }
  }

  /** Escaping every symbol yields a pattern that matches exactly the given text. */
  function Escape(t: seq<Symbol>): seq<Symbol> {
    if t == [] then [] else [BACKSLASH, t[0]] + Escape(t[1..])
  }

  lemma {:induction false} EscapeMatchesOnlyItself(classes: bool, t: seq<Symbol>, u: seq<Symbol>)
    ensures Matches(classes, Escape(t), u) <==> u == t
  {
    if t != [] {
      var p := Escape(t);
      assert p[2..] == Escape(t[1..]);
      if u != [] {
        EscapeMatchesOnlyItself(classes, t[1..], u[1..]);
        assert u == [u[0]] + u[1..] && t == [t[0]] + t[1..];
      }
    }
  }

  /** A pattern without an opening bracket around which stars are put finds it anywhere:
      `*` + escaped text + `*` matches exactly the texts that contain it. */
  lemma ContainsPattern(classes: bool, needle: seq<Symbol>, t: seq<Symbol>)
    ensures Matches(classes, [STAR] + Escape(needle) + [STAR], t)
       <==> exists k, m :: 0 <= k <= m <= |t| && t[k..m] == needle
  {
    var p := [STAR] + Escape(needle) + [STAR];
    assert p[1..] == Escape(needle) + [STAR];
    forall k | 0 <= k <= |t|
      ensures Matches(classes, p[1..], t[k..]) <==> k + |needle| <= |t| && t[k..k + |needle|] == needle
    {
      EscapeThenStar(classes, needle, t[k..]);
      if k + |needle| <= |t| {
        assert t[k..][..|needle|] == t[k..k + |needle|];
      }
    }
    if k, m :| 0 <= k <= m <= |t| && t[k..m] == needle {
      assert m == k + |needle|;
      assert Matches(classes, p[1..], t[k..]);
    }
  }

  lemma {:induction false} EscapeThenStar(classes: bool, needle: seq<Symbol>, t: seq<Symbol>)
    ensures Matches(classes, Escape(needle) + [STAR], t) <==> |needle| <= |t| && t[..|needle|] == needle
  {
    var p := Escape(needle) + [STAR];
    if needle == [] {
      assert p == [STAR] && p[1..] == [];
      assert t[|t|..] == [];
      assert Matches(classes, p[1..], t[|t|..]);
      assert t[..0] == [];
    } else {
      assert p[2..] == Escape(needle[1..]) + [STAR];
      if t != [] {
        EscapeThenStar(classes, needle[1..], t[1..]);
        if |needle| <= |t| {
          assert t[1..][..|needle| - 1] == t[1..|needle|];
          assert t[..|needle|] == [t[0]] + t[1..|needle|];
          assert needle == [needle[0]] + needle[1..];
        }
      }
    }
  }

  // ----- What patterns mean, symbol by symbol -----

  /** `?` takes any one symbol, `*` any stretch. */
  lemma Wildcards(classes: bool, rest: seq<Symbol>, t: seq<Symbol>)
    ensures Matches(classes, [63] + rest, t) <==> t != [] && Matches(classes, rest, t[1..])
    ensures Matches(classes, [42] + rest, t) <==> exists k :: 0 <= k <= |t| && Matches(classes, rest, t[k..])
    ensures Matches(classes, [63], t) <==> |t| == 1
  {
    assert ([63] + rest)[1..] == rest && ([42] + rest)[1..] == rest && [63][1..] == [];
    if t != [] {
      assert Matches(classes, [63], t) <==> Matches(classes, [], t[1..]);
    }
  }

  predicate IsSpecial(c: Symbol) {
    c == 42 || c == 63 || c == 91 || c == 92
  }

  /** A pattern without special symbols matches only itself. */
  lemma {:induction false} PlainMatchesOnlyItself(classes: bool, p: seq<Symbol>, t: seq<Symbol>)
    requires forall i :: 0 <= i < |p| ==> !IsSpecial(p[i])
    ensures Matches(classes, p, t) <==> t == p
    decreases |p|
  {
    if p != [] {
      assert !IsSpecial(p[0]);
      if t != [] {
        PlainMatchesOnlyItself(classes, p[1..], t[1..]);
        HeadAndTail(p);
        HeadAndTail(t);
      }
    }
  }

  /** A backslash takes the next symbol as it is, and at the very end stands for itself. */
  lemma Backslash(classes: bool, c: Symbol, rest: seq<Symbol>, t: seq<Symbol>)
    ensures Matches(classes, [92, c] + rest, t) <==> t != [] && t[0] == c && Matches(classes, rest, t[1..])
    ensures Matches(classes, [92], t) <==> t == [92]
  {
    assert ([92, c] + rest)[2..] == rest && [92][1..] == [];
    if t != [] {
      HeadAndTail(t);
    }
  }

  /** What stands in a character class. */
  datatype ClassItem = One(symbol: Symbol) | Range(from: Symbol, to: Symbol)

  function ItemSymbols(x: ClassItem): (s: seq<Symbol>)
    ensures s != []
  {
    match x
    case One(c) => [c]
    case Range(a, b) => [a, 45, b]
  }

  function Layout(xs: seq<ClassItem>): seq<Symbol> {
    if xs == [] then [] else ItemSymbols(xs[0]) + Layout(xs[1..])
  }

  predicate InItem(x: ClassItem, c: Symbol) {
    match x
    case One(d) => c == d
    case Range(a, b) => a <= c && c <= b
  }

  predicate InSome(xs: seq<ClassItem>, c: Symbol) {
    exists i :: 0 <= i < |xs| && InItem(xs[i], c)
  }

  /** A dash that stands for itself is the first item or the last. */
  predicate DashesAtEnds(xs: seq<ClassItem>) {
    forall i :: 0 < i < |xs| && ItemSymbols(xs[i])[0] == 45 ==> i == |xs| - 1 && xs[i] == One(45)
  }

  lemma {:induction false} ClassHasItems(xs: seq<ClassItem>, c: Symbol)
    requires DashesAtEnds(xs)
    ensures ClassHas(Layout(xs), c) <==> InSome(xs, c)
    decreases |xs|
  {
    if xs != [] {
      var rest := Layout(xs[1..]);
      var body := Layout(xs);
      LaterItems(xs);
      ClassHasItems(xs[1..], c);
      SomeCons(xs, c);
      if xs[0].Range? {
        assert body[3..] == rest && body[0] == xs[0].from && body[1] == 45 && body[2] == xs[0].to;
      } else {
        assert body[1..] == rest && body[0] == xs[0].symbol;
        if |xs| > 1 {
          assert body[1] == ItemSymbols(xs[1])[0];
          if body[1] == 45 {
            assert xs[1..][1..] == [] && rest == [45] + [];
          }
        }
      }
    }
  }

  lemma LaterItems(xs: seq<ClassItem>)
    requires xs != [] && DashesAtEnds(xs)
    ensures DashesAtEnds(xs[1..])
    ensures |xs| > 1 && ItemSymbols(xs[1])[0] == 45 ==> |xs| == 2 && xs[1] == One(45)
    ensures |xs| > 1 ==> Layout(xs[1..])[0] == ItemSymbols(xs[1])[0]
  {
    forall i | 0 < i < |xs[1..]| && ItemSymbols(xs[1..][i])[0] == 45 ensures i == |xs[1..]| - 1 && xs[1..][i] == One(45) {
      assert xs[i + 1] == xs[1..][i];
    }
  }

  lemma SomeCons(xs: seq<ClassItem>, c: Symbol)
    requires xs != []
    ensures InSome(xs, c) <==> InItem(xs[0], c) || InSome(xs[1..], c)
  {
    hide InItem;
    if i :| 0 <= i < |xs| && InItem(xs[i], c) {
      if i > 0 { assert InItem(xs[1..][i - 1], c); }
    }
    if i :| 0 <= i < |xs[1..]| && InItem(xs[1..][i], c) {
      assert InItem(xs[i + 1], c);
    }
  }

  lemma {:induction false} ClassEndIs(body: seq<Symbol>, rest: seq<Symbol>)
    requires forall i :: 0 <= i < |body| ==> body[i] != 93
    ensures ClassEnd(body + [93] + rest) == |body|
  {
    var p := body + [93] + rest;
    var n := ClassEnd(p);
    assert p[|body|] == 93;
    assert forall i :: 0 <= i < |body| ==> p[i] == body[i];
  }

  /** A class takes exactly the symbols between the ends of one of its items, ends included; with `^` in
      front, exactly the others. */
  lemma ClassMeaning(xs: seq<ClassItem>, negated: bool, rest: seq<Symbol>, t: seq<Symbol>)
    requires DashesAtEnds(xs) && forall i :: 0 <= i < |Layout(xs)| ==> Layout(xs)[i] != 93
    requires !negated ==> Layout(xs) == [] || Layout(xs)[0] != 94
    ensures var p := [91] + (if negated then [94] else []) + Layout(xs) + [93] + rest;
      Matches(true, p, t) <==> t != [] && InSome(xs, t[0]) != negated && Matches(true, rest, t[1..])
  {
    var body := (if negated then [94] else []) + Layout(xs);
    var p := [91] + (if negated then [94] else []) + Layout(xs) + [93] + rest;
    assert p == [91] + body + [93] + rest;
    ClassAtom(body, rest);
    hide FirstAtom, ClassAccepts, InSome, DashesAtEnds;
    if t != [] {
      ClassItems(xs, negated, t[0]);
      FirstAtomDecides(p, rest, t);
    }
  }

  lemma ClassItems(xs: seq<ClassItem>, negated: bool, c: Symbol)
    requires DashesAtEnds(xs) && (!negated ==> Layout(xs) == [] || Layout(xs)[0] != 94)
    ensures ClassAccepts((if negated then [94] else []) + Layout(xs), c) <==> InSome(xs, c) != negated
  {
    hide ClassHas, InSome, DashesAtEnds, Layout;
    ClassHasItems(xs, c);
    var body := (if negated then [94] else []) + Layout(xs);
    if negated {
      assert body[0] == 94 && body[1..] == Layout(xs);
    } else {
      assert body == Layout(xs);
    }
  }

  lemma ClassAtom(body: seq<Symbol>, rest: seq<Symbol>)
    requires forall i :: 0 <= i < |body| ==> body[i] != 93
    ensures var p := [91] + body + [93] + rest;
      var a := FirstAtom(true, p);
      a.width == |body| + 2 && p[a.width..] == rest && forall c :: a.accepts(c) <==> ClassAccepts(body, c)
  {
    var p := [91] + body + [93] + rest;
    ClassEndIs([91] + body, rest);
    assert p == ([91] + body) + [93] + rest;
    hide ClassAccepts, ClassEnd;
    assert p[1..|body| + 1] == body;
  }

  lemma FirstAtomDecides(p: seq<Symbol>, rest: seq<Symbol>, t: seq<Symbol>)
    requires p != [] && p[0] != STAR && t != [] && p[FirstAtom(true, p).width..] == rest
    ensures Matches(true, p, t) <==> FirstAtom(true, p).accepts(t[0]) && Matches(true, rest, t[1..])
  {
    hide FirstAtom;
  }

  /** The whole pattern: a class alone matches the texts of one symbol that it takes. */
  lemma ClassAlone(xs: seq<ClassItem>, negated: bool, t: seq<Symbol>)
    requires DashesAtEnds(xs) && forall i :: 0 <= i < |Layout(xs)| ==> Layout(xs)[i] != 93
    requires !negated ==> Layout(xs) == [] || Layout(xs)[0] != 94
    ensures Matches(true, [91] + (if negated then [94] else []) + Layout(xs) + [93], t) <==> |t| == 1 && InSome(xs, t[0]) != negated
  {
    ClassMeaning(xs, negated, [], t);
    var p := [91] + (if negated then [94] else []) + Layout(xs) + [93];
    assert p + [] == p;
  }

  /** A class that is not closed takes nothing, and for channels a bracket stands for itself. */
  lemma OpenBracket(body: seq<Symbol>, t: seq<Symbol>)
    ensures (forall i :: 0 <= i < |body| ==> body[i] != 93) ==> !Matches(true, [91] + body, t)
    ensures Matches(false, [91] + body, t) <==> t != [] && t[0] == 91 && Matches(false, body, t[1..])
  {
    var p := [91] + body;
    assert p[1..] == body;
    if forall i :: 0 <= i < |body| ==> body[i] != 93 {
      assert ClassEnd(p) == |p|;
    }
  }
}
