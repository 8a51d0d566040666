/** The skip list behind sorted sets: nodes with towers of forward links, and beside them a
    map from members to scores that answers lookups by member. */
module SkipList {
  import opened Bytes
  import opened ScoreOrder
  import opened Towers

  const MAX_LEVEL: nat := 32

  class Node {
    const key: Key
    const value: Score
    var forward: seq<Node?>

    constructor (key: Key, value: Score, levels: nat)
      ensures this.key == key && this.value == value
      ensures forward == seq(levels, _ => null)
    {
      this.key, this.value := key, value;
      forward := seq(levels, _ => null);
    }
  }

  function ItemOf(n: Node): Item {
    Item(n.key, n.value)
  }

  function Items(chain: seq<Node>): (s: seq<Item>)
    ensures |s| == |chain|
    ensures forall i :: 0 <= i < |chain| ==> s[i] == ItemOf(chain[i])
  {
    seq(|chain|, i requires 0 <= i < |chain| => ItemOf(chain[i]))
  }

  ghost function NodeAt(chain: seq<Node>, i: nat): Node? {
    if i < |chain| then chain[i] else null
  }

  ghost predicate Distinct(chain: seq<Node>) {
    forall i, j :: 0 <= i < j < |chain| ==> chain[i] != chain[j]
  }

  /** The link of level `l` at position `r` leads to position `x`, or nowhere. */
  ghost predicate LeadsTo(chain: seq<Node>, r: nat, l: nat, x: nat)
    reads chain
  {
    r < |chain| && l < |chain[r].forward| && chain[r].forward[l] == NodeAt(chain, x)
  }

  ghost predicate Heights(chain: seq<Node>, tall: seq<nat>)
    reads chain
  {
    |chain| == |tall| && forall r :: 0 <= r < |chain| ==> |chain[r].forward| == tall[r]
  }

  /** Every link of level `l` leads to the next node that is taller than `l`. */
  ghost predicate Linked(chain: seq<Node>, tall: seq<nat>)
    reads chain
  {
    && Heights(chain, tall)
    && forall r: nat, l: nat :: r < |chain| && l < tall[r] ==> Link(chain, tall, r, l)
  }

  ghost predicate Link(chain: seq<Node>, tall: seq<nat>, r: nat, l: nat)
    reads chain
    requires |chain| == |tall| && r < |chain|
  {
    LeadsTo(chain, r, l, Next(tall, r + 1, l))
  }

  /** `level` is the level of the tallest tower, 0 when there is none. */
  ghost predicate LevelExact(tall: seq<nat>, level: nat) {
    && level < MAX_LEVEL
    && (forall r :: 1 <= r < |tall| ==> 1 <= tall[r] <= level + 1)
    && (level > 0 ==> exists r :: 1 <= r < |tall| && tall[r] == level + 1)
  }

  ghost predicate Agrees(chain: seq<Node>, index: map<Key, Score>) {
    && (forall r :: 1 <= r < |chain| ==> chain[r].key in index && index[chain[r].key] == chain[r].value)
    && (forall k :: k in index ==> exists r :: 1 <= r < |chain| && chain[r].key == k)
  }

  lemma AgreesInsert(chain: seq<Node>, index: map<Key, Score>, at: nat, node: Node)
    requires 1 <= at <= |chain| && Agrees(chain, index) && node.key !in index
    ensures Agrees(InsertAt(chain, at, node), index[node.key := node.value])
  {
    var chain', index' := InsertAt(chain, at, node), index[node.key := node.value];
    forall k | k in index' ensures exists r :: 1 <= r < |chain'| && chain'[r].key == k {
      if k == node.key {
        assert chain'[at].key == k;
      } else {
        var r :| 1 <= r < |chain| && chain[r].key == k;
        assert chain'[Up(at, r)].key == k;
      }
    }
  }

  /** A chain that agrees with an index holds no other item of a key. */
  lemma StaleItems(chain: seq<Node>, index: map<Key, Score>, key: Key, value: Score)
    requires Agrees(chain, index) && key in index
    ensures HasItem(chain, Item(key, value)) <==> index[key] == value
  {
    var r :| 1 <= r < |chain| && chain[r].key == key;
    assert ItemOf(chain[r]) == Item(key, index[key]);
  }

  /** With the old node still there, the index disagrees unless the score is the same. */
  lemma StaleDisagrees(chain: seq<Node>, index: map<Key, Score>, key: Key, value: Score, at: nat, chain': seq<Node>)
    requires Agrees(chain, index) && key in index && 1 <= at <= |chain| < |chain'| && chain' == InsertAt(chain, at, chain'[at])
    ensures value != index[key] ==> !Agrees(chain', index[key := value])
  {
    var r :| 1 <= r < |chain| && chain[r].key == key;
    assert chain'[Up(at, r)] == chain[r];
  }

  lemma AgreesRemove(chain: seq<Node>, index: map<Key, Score>, at: nat)
    requires 1 <= at < |chain| && Agrees(chain, index) && SortedChain(chain)
    ensures Agrees(RemoveAt(chain, at), index - {chain[at].key})
  {
    hide Compare;
    var key, chain', index' := chain[at].key, RemoveAt(chain, at), index - {chain[at].key};
    forall r | 1 <= r < |chain'| ensures chain'[r].key in index' && index'[chain'[r].key] == chain'[r].value {
      var r0 := if r < at then r else r + 1;
      assert chain'[r] == chain[r0];
      assert chain[r0].key in index && index[chain[r0].key] == chain[r0].value;
      CompareTotal(ItemOf(chain[r0]), ItemOf(chain[at]));
      assert chain[r0].key != key;
    }
    forall k | k in index' ensures exists r :: 1 <= r < |chain'| && chain'[r].key == k {
      var r :| 1 <= r < |chain| && chain[r].key == k;
      assert r != at;
      assert chain'[if r < at then r else r - 1] == chain[r];
    }
  }

  /** Position `p` is where `q` belongs: everything up to it is smaller, nothing after it is. */
  ghost predicate Splits(chain: seq<Node>, q: Item, p: nat) {
    && p < |chain|
    && (forall r :: 1 <= r <= p ==> Before(ItemOf(chain[r]), q))
    && (forall r :: p < r < |chain| ==> !Before(ItemOf(chain[r]), q))
  }

  ghost predicate HasItem(chain: seq<Node>, q: Item) {
    exists r :: 1 <= r < |chain| && ItemOf(chain[r]) == q
  }

  /** One item more, and every node that was there still in its place. */
  ghost predicate GainsItem(chain: seq<Node>, chain': seq<Node>, q: Item) {
    exists at :: 1 <= at <= |chain| < |chain'| && chain' == InsertAt(chain, at, chain'[at]) && ItemOf(chain'[at]) == q
  }

  ghost predicate SortedChain(chain: seq<Node>) {
    forall i, j :: 1 <= i < j < |chain| ==> Before(ItemOf(chain[i]), ItemOf(chain[j]))
  }

  lemma SplitsFrom(chain: seq<Node>, q: Item, p: nat)
    requires p < |chain| && SortedChain(chain)
    requires p > 0 ==> Before(ItemOf(chain[p]), q)
    requires p + 1 < |chain| ==> !Before(ItemOf(chain[p + 1]), q)
    ensures Splits(chain, q, p)
  {
    forall r | 1 <= r <= p ensures Before(ItemOf(chain[r]), q) {
      if r < p { BeforeTransitive(ItemOf(chain[r]), ItemOf(chain[p]), q); }
    }
    forall r | p < r < |chain| ensures !Before(ItemOf(chain[r]), q) {
      if p + 1 < r && Before(ItemOf(chain[r]), q) {
        BeforeTransitive(ItemOf(chain[p + 1]), ItemOf(chain[r]), q);
      }
    }
  }

  /** The last node at each level that is smaller than `q`. */
  ghost predicate Predecessors(chain: seq<Node>, tall: seq<nat>, p: nat, update: seq<Node?>, u: seq<nat>, levels: nat) {
    && |update| == |u| == MAX_LEVEL && levels <= MAX_LEVEL && |chain| == |tall|
    && forall l :: 0 <= l < levels ==>
         Predecessor(tall, p, l, u[l]) && update[l] == chain[u[l]]
  }

  /** The links while a node is being put in: up to level `done` the predecessors lead to it. */
  ghost predicate Splicing(chain: seq<Node>, tall: seq<nat>, u: seq<nat>, node: Node, done: nat)
    reads chain
    requires done <= |u|
  {
    && Heights(chain, tall)
    && forall r: nat, l: nat :: r < |chain| && l < tall[r] ==> SplicedLink(chain, tall, u, node, done, r, l)
  }

  /** Before anything is put in. */
  lemma SplicingStart(chain: seq<Node>, tall: seq<nat>, u: seq<nat>, node: Node, p: nat, update: seq<Node?>, n: nat)
    requires Linked(chain, tall) && Predecessors(chain, tall, p, update, u, n)
    ensures n <= |u| == |update| && Splicing(chain, tall, u, node, 0)
  {
    forall r: nat, l: nat | r < |chain| && l < tall[r] ensures SplicedLink(chain, tall, u, node, 0, r, l) {
      assert Link(chain, tall, r, l);
    }
  }

  lemma PredecessorAt(chain: seq<Node>, tall: seq<nat>, p: nat, update: seq<Node?>, u: seq<nat>, n: nat, i: nat)
    requires p < |chain| && Predecessors(chain, tall, p, update, u, n) && i < n
    ensures |u| == |update| == MAX_LEVEL && i < MAX_LEVEL
    ensures u[i] < |chain| == |tall| && update[i] == chain[u[i]] && tall[u[i]] > i
    ensures Next(tall, u[i] + 1, i) == Next(tall, p + 1, i)
  {
    assert Predecessor(tall, p, i, u[i]);
    PredecessorLinks(tall, p, i, u[i], u[i]);
  }

  ghost predicate SplicedLink(chain: seq<Node>, tall: seq<nat>, u: seq<nat>, node: Node, done: nat, r: nat, l: nat)
    reads chain
    requires done <= |u| && |chain| == |tall| && r < |chain|
  {
    if l < done && r == u[l]
    then l < |chain[r].forward| && chain[r].forward[l] == node
    else Link(chain, tall, r, l)
  }

  lemma LinkedInsert(chain: seq<Node>, tall: seq<nat>, p: nat, u: seq<nat>, node: Node, n: nat)
    requires p < |chain| && n <= |u|
    requires Splicing(chain, tall, u, node, n)
    requires forall l :: 0 <= l < n ==> Predecessor(tall, p, l, u[l])
    requires |node.forward| == n
    requires forall l :: 0 <= l < n ==> node.forward[l] == NodeAt(chain, Next(tall, p + 1, l))
    ensures Linked(InsertAt(chain, p + 1, node), InsertAt(tall, p + 1, n))
  {
    var chain', tall' := InsertAt(chain, p + 1, node), InsertAt(tall, p + 1, n);
    forall r: nat, l: nat | r < |chain'| && l < tall'[r]
      ensures Link(chain', tall', r, l)
    {
      if r == p + 1 {
        ShapeInserted(tall, p, n, l);
        NodeAtUp(chain, p + 1, node, Next(tall, p + 1, l));
      } else {
        LinkInsert(chain, tall, p, u, node, n, if r <= p then r else r - 1, l);
      }
    }
  }

  lemma LinkInsert(chain: seq<Node>, tall: seq<nat>, p: nat, u: seq<nat>, node: Node, n: nat, r: nat, l: nat)
    requires |chain| == |tall| && p < |chain| && n <= |u| && r < |chain| && l < tall[r]
    requires l < n ==> Predecessor(tall, p, l, u[l])
    requires SplicedLink(chain, tall, u, node, n, r, l)
    ensures Link(InsertAt(chain, p + 1, node), InsertAt(tall, p + 1, n), Up(p + 1, r), l)
  {
    ShapeInsert(tall, p, n, if l < n then u[l] else 0, r, l);
    NodeAtUp(chain, p + 1, node, r);
    NodeAtUp(chain, p + 1, node, Next(tall, r + 1, l));
    NodeAtUp(chain, p + 1, node, p);
  }

  lemma NodeAtUp(chain: seq<Node>, at: nat, node: Node, x: nat)
    requires at <= |chain|
    ensures NodeAt(InsertAt(chain, at, node), Up(at, x)) == NodeAt(chain, x)
    ensures NodeAt(InsertAt(chain, at, node), at) == node
  {
  }

  function Least(a: nat, b: nat): nat {
    if a < b then a else b
  }

  /** The links while the node at `t` is being taken out: up to level `done` its
      predecessors have taken over its links. */
  ghost predicate Unlinking(chain: seq<Node>, tall: seq<nat>, u: seq<nat>, t: nat, done: nat)
    reads chain
    requires t < |chain| && done <= |u|
  {
    && Heights(chain, tall)
    && forall r: nat, l: nat :: r < |chain| && l < tall[r] ==> UnlinkedLink(chain, tall, u, t, done, r, l)
  }

  ghost predicate UnlinkedLink(chain: seq<Node>, tall: seq<nat>, u: seq<nat>, t: nat, done: nat, r: nat, l: nat)
    reads chain
    requires done <= |u| && |chain| == |tall| && r < |chain| && t < |chain|
  {
    LeadsTo(chain, r, l, if l < done && r == u[l] then Next(tall, t + 1, l) else Next(tall, r + 1, l))
  }

  /** Here `chain` and `tall` are what is left without the node. */
  lemma LinkedRemove(chain: seq<Node>, tall: seq<nat>, p: nat, u: seq<nat>, node: Node, n: nat)
    requires |chain| == |tall| && p < |chain| && n <= |u|
    requires Unlinking(InsertAt(chain, p + 1, node), InsertAt(tall, p + 1, n), u, p + 1, n)
    requires forall l :: 0 <= l < n ==> Predecessor(tall, p, l, u[l])
    ensures Linked(chain, tall)
  {
    var chain', tall' := InsertAt(chain, p + 1, node), InsertAt(tall, p + 1, n);
    assert Heights(chain, tall) by {
      forall r | 0 <= r < |chain| ensures |chain[r].forward| == tall[r] {
        assert chain'[Up(p + 1, r)] == chain[r] && tall'[Up(p + 1, r)] == tall[r];
      }
    }
    forall r: nat, l: nat | r < |chain| && l < tall[r]
      ensures Link(chain, tall, r, l)
    {
      assert UnlinkedLink(chain', tall', u, p + 1, n, Up(p + 1, r), l);
      LinkRemove(chain, tall, p, u, node, n, r, l);
    }
  }

  lemma LinkRemove(chain: seq<Node>, tall: seq<nat>, p: nat, u: seq<nat>, node: Node, n: nat, r: nat, l: nat)
    requires |chain| == |tall| && p < |chain| && n <= |u| && r < |chain| && l < tall[r]
    requires l < n ==> Predecessor(tall, p, l, u[l])
    requires UnlinkedLink(InsertAt(chain, p + 1, node), InsertAt(tall, p + 1, n), u, p + 1, n, Up(p + 1, r), l)
    ensures Link(chain, tall, r, l)
  {
    ShapeRemove(tall, p, n, if l < n then u[l] else 0, r, l);
    NodeAtUp(chain, p + 1, node, r);
    NodeAtUp(chain, p + 1, node, Next(tall, r + 1, l));
  }

  class SkipList {
    const head: Node
    var level: nat
    var length: nat
    var memoryUsage: nat
    var keyIndex: map<Key, Score>
    /** The sentinel followed by all nodes of level 0, and the heights of their towers. */
    ghost var chain: seq<Node>
    ghost var tall: seq<nat>

    /** The towers are well formed and sorted, whatever the index says. */
    ghost predicate ChainValid()
      reads this`level, this`length, this`memoryUsage, this`chain, this`tall, chain
    {
      LinksValid() && SortedChain(chain)
    }

    /** The towers, the level, the length and the memory are right, in whatever order the items are. */
    ghost predicate LinksValid()
      reads this`level, this`length, this`memoryUsage, this`chain, this`tall, chain
    {
      && |tall| == |chain| > 0 && chain[0] == head
      && Distinct(chain) && Linked(chain, tall)
      && tall[0] == MAX_LEVEL && LevelExact(tall, level)
      && length == |chain| - 1
      && memoryUsage == NodeSize(MAX_LEVEL) + TotalSize(tall[1..])
    }

    /** The index is the chain read as a map. */
    ghost predicate IndexAgrees()
      reads this
    {
      Agrees(chain, keyIndex)
    }

    ghost predicate Valid()
      reads this, chain
    {
      ChainValid() && IndexAgrees()
    }

    ghost function Contents(): (s: seq<Item>)
      reads this
      requires |chain| > 0
      ensures |s| == |chain| - 1
    {
      Items(chain[1..])
    }

    constructor ()
      ensures Valid() && fresh(head) && chain == [head]
      ensures keyIndex == map[] && Contents() == []
    {
      var h := new Node([], Finite(0.0), MAX_LEVEL);
      head := h;
      level, length := 0, 0;
      memoryUsage := NodeSize(MAX_LEVEL);
      keyIndex := map[];
      chain, tall := [h], [MAX_LEVEL];
    }

    /** The top-down search both updates start with: `update[l]` is the last node of level
        `l` before the searched item, `update[0]` the last one of all. */
    method FindPredecessors(q: Item) returns (current: Node, update: seq<Node?>, ghost u: seq<nat>)
      requires ChainValid()
      ensures |u| == MAX_LEVEL && u[0] < |chain| && current == chain[u[0]]
      ensures Splits(chain, q, u[0])
      ensures Predecessors(chain, tall, u[0], update, u, level + 1)
    {
      hide Linked, Distinct, TotalSize;
      update := seq(MAX_LEVEL, _ => null);
      u := seq(MAX_LEVEL, _ => 0);
      current := head;
      ghost var p := 0;
      var i := level + 1;
      while i > 0
        invariant 0 <= i <= level + 1
        invariant |update| == |u| == MAX_LEVEL
        invariant p < |chain| && current == chain[p]
        invariant tall[p] > (if i > 0 then i - 1 else 0)
        invariant p > 0 ==> Before(ItemOf(chain[p]), q)
        invariant i <= level ==> u[i] == p
        invariant forall l :: i <= l <= level ==>
          && u[l] <= p && update[l] == chain[u[l]] && tall[u[l]] > l
          && StopsAt(q, u[l], l)
      {
        i := i - 1;
        current, p := Advance(q, i, current, p);
        update, u := update[i := current], u[i := p];
      }
      assert StopsAt(q, p, 0) && Next(tall, p + 1, 0) == if p + 1 < |chain| then p + 1 else |chain|;
      SplitsFrom(chain, q, p);
      forall l | 0 <= l <= level ensures Predecessor(tall, p, l, u[l]) {
        assert StopsAt(q, u[l], l);
        NextSkips(tall, u[l] + 1, l);
      }
    }

    /** The next node of level `l` after position `r` is not smaller than `q`. */
    ghost predicate StopsAt(q: Item, r: nat, l: nat)
      reads this
      requires |chain| == |tall| && r < |chain|
    {
      var n := Next(tall, r + 1, l);
      n < |chain| ==> !Before(ItemOf(chain[n]), q)
    }

    /** The inner loop of the search: along level `i` as long as nodes are smaller. */
    method Advance(q: Item, i: nat, start: Node, ghost from: nat) returns (current: Node, ghost p: nat)
      requires ChainValid()
      requires from < |chain| && start == chain[from] && tall[from] > i
      requires from > 0 ==> Before(ItemOf(chain[from]), q)
      ensures from <= p < |chain| && current == chain[p] && tall[p] > i
      ensures p > 0 ==> Before(ItemOf(chain[p]), q)
      ensures StopsAt(q, p, i)
    {
      current, p := start, from;
      while current.forward[i] != null
        invariant from <= p < |chain| && current == chain[p] && tall[p] > i
        invariant p > 0 ==> Before(ItemOf(chain[p]), q)
        decreases |chain| - p
      {
        assert Link(chain, tall, p, i);
        var next := current.forward[i];
        if Compare(ItemOf(next), q) == Less {
          current, p := next, Next(tall, p + 1, i);
        } else {
          return;
        }
      }
      assert Link(chain, tall, p, i);
    }

    /** Links a new node in at one level, between `before` and its successor there. */
    static method SpliceLevel(node: Node, before: Node, i: nat, ghost chain: seq<Node>, ghost tall: seq<nat>, ghost u: seq<nat>)
      requires Distinct(chain) && node !in chain && i < |node.forward| && i < |u|
      requires Splicing(chain, tall, u, node, i)
      requires u[i] < |chain| && before == chain[u[i]] && tall[u[i]] > i
      modifies node, before
      ensures Splicing(chain, tall, u, node, i + 1)
      ensures node.forward == old(node.forward)[i := NodeAt(chain, Next(tall, u[i] + 1, i))]
    {
      assert SplicedLink(chain, tall, u, node, i, u[i], i);
      node.forward := node.forward[i := before.forward[i]];
      before.forward := before.forward[i := node];
      ghost var done := i + 1;
      forall r: nat, l: nat | r < |chain| && l < tall[r]
        ensures SplicedLink(chain, tall, u, node, done, r, l)
      {
        assert old(SplicedLink(chain, tall, u, node, i, r, l));
        if r != u[i] {
          assert chain[r] != before;
        }
      }
    }

    /** Links a new node in at each of its levels. */
    static method Splice(node: Node, update: seq<Node?>, n: nat, ghost chain: seq<Node>, ghost tall: seq<nat>, ghost p: nat, ghost u: seq<nat>)
      requires |chain| > 0 && Distinct(chain) && Linked(chain, tall)
      requires p < |chain| == |tall| && Predecessors(chain, tall, p, update, u, n)
      requires node !in chain && |node.forward| == n
      modifies chain, node
      ensures Splicing(chain, tall, u, node, n)
      ensures |node.forward| == n
      ensures forall l :: 0 <= l < n ==> node.forward[l] == NodeAt(chain, Next(tall, p + 1, l))
    {
      SplicingStart(chain, tall, u, node, p, update, n);
      hide Splicing, Linked, Predecessors, Next, Distinct, NodeAt;
      for i := 0 to n
        invariant |node.forward| == n
        invariant forall l :: 0 <= l < i ==> node.forward[l] == NodeAt(chain, Next(tall, p + 1, l))
        invariant Splicing(chain, tall, u, node, i)
      {
        PredecessorAt(chain, tall, p, update, u, n, i);
        var before := update[i];
        SpliceLevel(node, before, i, chain, tall, u);
      }
    }

    /** The predecessors of a new node of the given level; above the current level the
        sentinel is the predecessor. */
    method FindInsertionPoint(q: Item, newLevel: nat) returns (update: seq<Node?>, ghost p: nat, ghost u: seq<nat>)
      requires ChainValid() && newLevel < MAX_LEVEL
      ensures Splits(chain, q, p)
      ensures Predecessors(chain, tall, p, update, u, newLevel + 1)
    {
      var current;
      current, update, u := FindPredecessors(q);
      p := u[0];
      if newLevel > level {
        for i := level + 1 to newLevel + 1
          invariant Predecessors(chain, tall, p, update, u, i)
        {
          update, u := update[i := head], u[i := 0];
        }
      }
    }

    /** Inserts a node; `newLevel` is the random level.  The chain stays strictly sorted if and only if
        it did not hold the item yet. */
    method InsertNewNode(key: Key, value: Score, newLevel: nat) returns (ghost at: nat)
      requires ChainValid() && newLevel < MAX_LEVEL
      modifies this`level, this`length, this`memoryUsage, this`chain, this`tall, chain
      ensures LinksValid() && (SortedChain(chain) <==> !HasItem(old(chain), Item(key, value)))
      ensures 1 <= at <= |old(chain)| < |chain| && chain == InsertAt(old(chain), at, chain[at])
      ensures fresh(chain[at]) && ItemOf(chain[at]) == Item(key, value)
    {
      hide SortedChain, Distinct, LevelExact, TotalSize, Splits, HasItem, Before, Linked, Predecessors;
      var q := Item(key, value);
      var update, p, u := FindInsertionPoint(q, newLevel);
      at := p + 1;
      var node := new Node(key, value, newLevel + 1);
      InsertSorted(chain, q, p, node);
      SplitInside(chain, q, p);
      LinkIn(node, update, newLevel, p, u);
    }

    /** Puts a node in after the position `p`, at each of its levels. */
    method LinkIn(node: Node, update: seq<Node?>, newLevel: nat, ghost p: nat, ghost u: seq<nat>)
      requires LinksValid() && newLevel < MAX_LEVEL && p < |chain|
      requires Predecessors(chain, tall, p, update, u, newLevel + 1)
      requires node !in chain && |node.forward| == newLevel + 1
      modifies this`level, this`length, this`memoryUsage, this`chain, this`tall, chain, node
      ensures LinksValid() && chain == InsertAt(old(chain), p + 1, node)
    {
      hide Distinct, LevelExact, TotalSize;
      Splice(node, update, newLevel + 1, chain, tall, p, u);
      InsertKeeps(chain, tall, p, node, newLevel + 1, level);
      Enlarge(node, p, u, newLevel);
    }

    /** The bookkeeping of an insertion. */
    method Enlarge(node: Node, ghost p: nat, ghost u: seq<nat>, newLevel: nat)
      requires |chain| == |tall| && p < |chain| && |u| == MAX_LEVEL && newLevel < MAX_LEVEL
      requires Splicing(chain, tall, u, node, newLevel + 1)
      requires forall l :: 0 <= l <= newLevel ==> Predecessor(tall, p, l, u[l])
      requires |node.forward| == newLevel + 1
      requires forall l :: 0 <= l <= newLevel ==> node.forward[l] == NodeAt(chain, Next(tall, p + 1, l))
      modifies this`level, this`length, this`memoryUsage, this`chain, this`tall
      ensures chain == InsertAt(old(chain), p + 1, node) && tall == InsertAt(old(tall), p + 1, newLevel + 1)
      ensures Linked(chain, tall)
      ensures level == if newLevel > old(level) then newLevel else old(level)
      ensures length == old(length) + 1
      ensures memoryUsage == old(memoryUsage) + NodeSize(newLevel + 1)
    {
      LinkedInsert(chain, tall, p, u, node, newLevel + 1);
      if newLevel > level {
        level := newLevel;
      }
      length := length + 1;
      memoryUsage := memoryUsage + NodeSize(newLevel + 1);
      chain, tall := InsertAt(chain, p + 1, node), InsertAt(tall, p + 1, newLevel + 1);
    }

    /** Takes the node at `t` out of one level: its predecessor there takes over its link. */
    static method UnlinkLevel(target: Node, before: Node, i: nat, ghost chain: seq<Node>, ghost tall: seq<nat>, ghost t: nat, ghost u: seq<nat>)
      requires Distinct(chain) && t < |chain| == |tall| && i < |u| && target == chain[t] && i < tall[t]
      requires Unlinking(chain, tall, u, t, i)
      requires u[i] < t && before == chain[u[i]] && tall[u[i]] > i
      modifies before
      ensures Unlinking(chain, tall, u, t, i + 1)
    {
      assert UnlinkedLink(chain, tall, u, t, i, t, i);
      assert UnlinkedLink(chain, tall, u, t, i, u[i], i);
      before.forward := before.forward[i := target.forward[i]];
      ghost var done := i + 1;
      forall r: nat, l: nat | r < |chain| && l < tall[r]
        ensures UnlinkedLink(chain, tall, u, t, done, r, l)
      {
        assert old(UnlinkedLink(chain, tall, u, t, i, r, l));
        if r != u[i] {
          assert chain[r] != before;
        }
      }
    }

    /** The unlinking loop: it stops at the first level whose predecessor leads elsewhere. */
    static method Unlink(target: Node, update: seq<Node?>, level: nat, ghost chain: seq<Node>, ghost tall: seq<nat>, ghost p: nat, ghost u: seq<nat>)
      requires Distinct(chain) && Linked(chain, tall) && p + 1 < |chain| && target == chain[p + 1]
      requires level < MAX_LEVEL && tall[p + 1] <= level + 1
      requires Predecessors(chain, tall, p, update, u, level + 1)
      modifies chain
      ensures Unlinking(chain, tall, u, p + 1, tall[p + 1])
    {
      ghost var t := p + 1;
      assert Unlinking(chain, tall, u, t, 0) by {
        forall r: nat, l: nat | r < |chain| && l < tall[r] ensures UnlinkedLink(chain, tall, u, t, 0, r, l) {
          assert Link(chain, tall, r, l);
        }
      }
      var i := 0;
      while i <= level
        invariant 0 <= i <= level + 1
        invariant Unlinking(chain, tall, u, t, Least(i, tall[t]))
      {
        assert Predecessor(tall, p, i, u[i]) && update[i] == chain[u[i]];
        var more := UnlinkStep(target, update[i], i, chain, tall, p, u);
        if !more {
          break;
        }
        i := i + 1;
      }
    }

    /** One round of that loop. */
    static method UnlinkStep(target: Node, before: Node, i: nat, ghost chain: seq<Node>, ghost tall: seq<nat>, ghost p: nat, ghost u: seq<nat>) returns (more: bool)
      requires Distinct(chain) && p + 1 < |chain| == |tall| && target == chain[p + 1]
      requires i < |u| && tall[p + 1] <= |u|
      requires Predecessor(tall, p, i, u[i]) && before == chain[u[i]]
      requires Unlinking(chain, tall, u, p + 1, Least(i, tall[p + 1]))
      modifies before
      ensures Unlinking(chain, tall, u, p + 1, Least(if more then i + 1 else |u|, tall[p + 1]))
    {
      ghost var t := p + 1;
      PredecessorLinks(tall, p, i, u[i], u[i]);
      assert UnlinkedLink(chain, tall, u, t, Least(i, tall[t]), u[i], i);
      more := true;
      if before.forward[i] != null {
        if before.forward[i] == target {
          UnlinkLevel(target, before, i, chain, tall, t, u);
        } else {
          more := false;
        }
      }
    }

    /** Lowers the level to that of the tallest tower left. */
    method LowerLevel()
      requires |chain| > 0 && chain[0] == head && Linked(chain, tall) && tall[0] == MAX_LEVEL
      requires level < MAX_LEVEL && forall r :: 1 <= r < |tall| ==> 1 <= tall[r] <= level + 1
      modifies this`level
      ensures LevelExact(tall, level)
    {
      while level > 0 && head.forward[level] == null
        invariant level < MAX_LEVEL && forall r :: 1 <= r < |tall| ==> 1 <= tall[r] <= level + 1
        invariant Linked(chain, tall)
      {
        assert Link(chain, tall, 0, level);
        NextSkips(tall, 1, level);
        level := level - 1;
      }
      assert Link(chain, tall, 0, level);
    }

    /** Removes the node of an item, found by its score; a NaN score never compares equal, so
        its node stays. */
    method RemoveNodeByScore(key: Key, score: Score) returns (ghost removed: bool, ghost at: nat)
      requires ChainValid()
      modifies this`level, this`length, this`memoryUsage, this`chain, this`tall, chain
      ensures ChainValid()
      ensures removed <==> !score.NaN? && exists r :: 1 <= r < |old(chain)| && ItemOf(old(chain)[r]) == Item(key, score)
      ensures removed ==>
        && 1 <= at < |old(chain)| && ItemOf(old(chain)[at]) == Item(key, score)
        && chain == RemoveAt(old(chain), at)
      ensures !removed ==> chain == old(chain)
    {
      hide Distinct, TotalSize;
      var q := Item(key, score);
      var current, update, u := FindPredecessors(q);
      ghost var p := u[0];
      at, removed := p + 1, false;
      assert Link(chain, tall, p, 0) && Next(tall, p + 1, 0) == p + 1;
      var target := current.forward[0];
      FoundIf(chain, q, p);
      if target != null && target.key == key && ScoreEqual(target.value, score) {
        removed := true;
        Unlink(target, update, level, chain, tall, p, u);
        Detach(target, p, u);
      }
    }

    /** The bookkeeping of a removal. */
    method Detach(target: Node, ghost p: nat, ghost u: seq<nat>)
      requires |chain| == |tall| && p + 1 < |chain| && chain[0] == head && target == chain[p + 1]
      requires |u| == MAX_LEVEL && tall[p + 1] <= level + 1 && LevelExact(tall, level) && tall[0] == MAX_LEVEL
      requires Unlinking(chain, tall, u, p + 1, tall[p + 1]) && |target.forward| == tall[p + 1]
      requires forall l :: 0 <= l <= level ==> Predecessor(tall, p, l, u[l])
      requires Distinct(chain) && SortedChain(chain) && length == |chain| - 1
      requires memoryUsage == NodeSize(MAX_LEVEL) + TotalSize(tall[1..])
      modifies this`level, this`length, this`memoryUsage, this`chain, this`tall
      ensures ChainValid() && chain == RemoveAt(old(chain), p + 1)
    {
      hide Distinct, SortedChain, TotalSize, Unlinking;
      DetachKeeps(chain, tall, p, u, level);
      chain, tall := RemoveAt(chain, p + 1), RemoveAt(tall, p + 1);
      LowerLevel();
      length := length - 1;
      memoryUsage := memoryUsage - NodeSize(|target.forward|);
    }

    /** Inserts a member or changes its score.  If the score it had was NaN its node is not found again
        and stays beside the new one; otherwise, and only then, the list stays valid. */
    method Insert(key: Key, value: Score, newLevel: nat) returns (previous: Option<Score>)
      requires Valid() && newLevel < MAX_LEVEL
      modifies this, chain
      ensures LinksValid() && keyIndex == old(keyIndex)[key := value]
      ensures previous == if key in old(keyIndex) then Some(old(keyIndex)[key]) else None
      ensures Valid() <==> previous != Some(NaN)
      ensures ChainValid() <==> !(previous == Some(NaN) && value == NaN)
      ensures previous == Some(NaN) ==> GainsItem(old(chain), chain, Item(key, value))
      ensures forall i :: 0 <= i < |chain| ==> chain[i] in old(chain) || fresh(chain[i])
    {
      hide Distinct, SortedChain, LevelExact, TotalSize, Agrees, Linked, LinksValid;
      ghost var index0 := keyIndex;
      if key in keyIndex {
        var oldScore := keyIndex[key];
        previous := Some(oldScore);
        if oldScore.NaN? {
          KeepStale(key, value, newLevel);
        } else {
          DropNode(key, oldScore, index0);
          keyIndex := keyIndex[key := value];
          AddNode(key, value, newLevel, index0 - {key});
          assert (index0 - {key})[key := value] == keyIndex;
        }
      } else {
        keyIndex := keyIndex[key := value];
        AddNode(key, value, newLevel, index0);
        previous := None;
      }
    }

    /** The update of a member whose score is NaN: its node is not found and stays beside the new one. */
    method KeepStale(key: Key, value: Score, newLevel: nat)
      requires Valid() && newLevel < MAX_LEVEL && key in keyIndex && keyIndex[key].NaN?
      modifies this, chain
      ensures LinksValid() && keyIndex == old(keyIndex)[key := value] && !Valid() && (ChainValid() <==> !value.NaN?)
      ensures GainsItem(old(chain), chain, Item(key, value))
      ensures forall i :: 0 <= i < |chain| ==> chain[i] in old(chain) || fresh(chain[i])
    {
      hide Distinct, SortedChain, LevelExact, TotalSize, Linked, LinksValid;
      ghost var chain0 := chain;
      var removed, r := RemoveNodeByScore(key, keyIndex[key]);
      assert chain == chain0;
      StaleItems(chain0, keyIndex, key, value);
      keyIndex := keyIndex[key := value];
      var at := InsertNewNode(key, value, newLevel);
      StaleDisagrees(chain0, old(keyIndex), key, value, at, chain);
      forall i | 0 <= i < |chain| ensures chain[i] in chain0 || fresh(chain[i]) {
        assert i != at ==> chain[i] == chain0[if i < at then i else i - 1];
      }
    }

    /** Removes the node of a member; `index` is the chain as a map. */
    method DropNode(key: Key, score: Score, ghost index: map<Key, Score>)
      requires ChainValid() && Agrees(chain, index) && key in index && index[key] == score && !score.NaN?
      modifies this`level, this`length, this`memoryUsage, this`chain, this`tall, chain
      ensures ChainValid() && Agrees(chain, index - {key})
      ensures forall i :: 0 <= i < |chain| ==> chain[i] in old(chain)
    {
      hide Distinct, SortedChain, LevelExact, TotalSize;
      ghost var chain0 := chain;
      ghost var k :| 1 <= k < |chain| && chain[k].key == key;
      assert ItemOf(chain[k]) == Item(key, score);
      var removed, r := RemoveNodeByScore(key, score);
      AgreesRemove(chain0, index, r);
    }

    /** Inserts the node of a member the chain does not hold; `index` is the chain as a map. */
    method AddNode(key: Key, value: Score, newLevel: nat, ghost index: map<Key, Score>)
      requires ChainValid() && newLevel < MAX_LEVEL && Agrees(chain, index) && key !in index
      modifies this`level, this`length, this`memoryUsage, this`chain, this`tall, chain
      ensures ChainValid() && Agrees(chain, index[key := value])
      ensures forall i :: 0 <= i < |chain| ==> chain[i] in old(chain) || fresh(chain[i])
    {
      hide Distinct, SortedChain, LevelExact, TotalSize, Linked;
      ghost var chain0 := chain;
      var at := InsertNewNode(key, value, newLevel);
      AgreesInsert(chain0, index, at, chain[at]);
      forall i | 0 <= i < |chain| ensures chain[i] in chain0 || fresh(chain[i]) {
        assert i != at ==> chain[i] == chain0[if i < at then i else i - 1];
      }
    }

    /** Removes a member.  The towers stay sound in any case; the index keeps agreeing with
        them exactly when the member's score was not NaN. */
    method Remove(key: Key) returns (score: Option<Score>)
      requires Valid()
      modifies this, chain
      ensures ChainValid() && keyIndex == old(keyIndex) - {key}
      ensures score == if key in old(keyIndex) then Some(old(keyIndex)[key]) else None
      ensures IndexAgrees() <==> !(key in old(keyIndex) && old(keyIndex)[key].NaN?)
      ensures forall i :: 0 <= i < |chain| ==> chain[i] in old(chain)
      ensures key in old(keyIndex) && old(keyIndex)[key].NaN? ==> chain == old(chain)
    {
      hide Distinct, SortedChain, LevelExact, TotalSize;
      if key !in keyIndex {
        return None;
      }
      ghost var index0, chain0 := keyIndex, chain;
      score := Some(keyIndex[key]);
      keyIndex := keyIndex - {key};
      ghost var k :| 1 <= k < |chain| && chain[k].key == key;
      assert ItemOf(chain[k]) == Item(key, score.value);
      var removed, r := RemoveNodeByScore(key, score.value);
      if removed {
        AgreesRemove(chain0, index0, r);
      }
    }

    /** The score of a member. */
    method GetScore(key: Key) returns (score: Option<Score>)
      requires Valid()
      ensures score.Some? <==> key in keyIndex
      ensures score.Some? <==> exists i :: 0 <= i < |Contents()| && Contents()[i].key == key
      ensures score.Some? ==> Item(key, score.value) in Contents()
    {
      if key in keyIndex {
        ghost var r :| 1 <= r < |chain| && chain[r].key == key;
        assert Contents()[r - 1] == Item(key, keyIndex[key]);
        return Some(keyIndex[key]);
      } else {
        forall i | 0 <= i < |Contents()| ensures Contents()[i].key != key {
          assert Contents()[i] == ItemOf(chain[i + 1]);
        }
        return None;
      }
    }

    /** Removes everything, node by node along the bottom level. */
    method Clear()
      requires Valid()
      modifies this, chain
      ensures Valid() && keyIndex == map[] && Contents() == [] && chain == [head]
    {
      ghost var nodes, k := chain, 1;
      Bottom(0);
      while head.forward[0] != null
        invariant 1 <= k <= |nodes| && |head.forward| == MAX_LEVEL
        invariant head.forward[0] == NodeAt(nodes, k)
        invariant forall r :: 1 <= r < |nodes| ==> nodes[r].forward == old(nodes[r].forward)
        decreases |nodes| - k
      {
        assert head.forward[0] == nodes[k];
        assert nodes[k].forward[0] == NodeAt(nodes, k + 1) by {
          assert old(Link(chain, tall, k, 0));
        }
        head.forward := head.forward[0 := head.forward[0].forward[0]];
        k := k + 1;
      }
      level, length := 0, 0;
      memoryUsage := NodeSize(MAX_LEVEL);
      keyIndex := map[];
      for i := 0 to MAX_LEVEL
        invariant |head.forward| == MAX_LEVEL && length == 0 && level == 0 && keyIndex == map[]
        invariant memoryUsage == NodeSize(MAX_LEVEL)
        invariant forall l :: 0 <= l < i ==> head.forward[l] == null
      {
        head.forward := head.forward[i := null];
      }
      chain, tall := [head], [MAX_LEVEL];
    }

    /** At the bottom every node leads to the very next one. */
    lemma Bottom(p: nat)
      requires ChainValid() && p < |chain|
      ensures |chain[p].forward| > 0 && chain[p].forward[0] == NodeAt(chain, p + 1)
    {
      assert Link(chain, tall, p, 0) && Next(tall, p + 1, 0) == p + 1;
    }

    lemma AlongChain(n: nat, r: nat)
      requires ChainValid() && 1 <= n <= r < |chain|
      ensures Compare(ItemOf(chain[n]), ItemOf(chain[r])) == if n == r then Equal else Less
    {
    }

    lemma ContentsSorted()
      requires ChainValid()
      ensures Sorted(Contents())
    {
      assert forall i :: 0 <= i < |Contents()| ==> Contents()[i] == ItemOf(chain[i + 1]);
    }

    lemma NextItem(from: nat, k: nat)
      requires |chain| > 0 && from <= k < |chain| - 1
      ensures Contents()[from..k] + [ItemOf(chain[k + 1])] == Contents()[from..k + 1]
    {
      assert Contents()[k] == ItemOf(chain[k + 1]);
    }

    /** Walks along the bottom level, counting smaller items. */
    method GetRank(key: Key) returns (rank: Option<nat>)
      requires Valid()
      ensures rank.Some? <==> key in keyIndex
      ensures rank.Some? ==>
        && rank.value < |Contents()| && Contents()[rank.value] == Item(key, keyIndex[key])
        && rank.value == CountBefore(Contents(), Item(key, keyIndex[key]))
    {
      if key !in keyIndex {
        return None;
      }
      hide Distinct, Linked, LevelExact, TotalSize, CountBefore, Compare, SortedChain;
      var q := Item(key, keyIndex[key]);
      ghost var r :| 1 <= r < |chain| && chain[r].key == key;
      assert ItemOf(chain[r]) == q;
      var current, n := head, 0;
      Bottom(0);
      while current.forward[0] != null
        invariant n < r && current == chain[n]
        invariant |current.forward| > 0 && current.forward[0] == NodeAt(chain, n + 1)
        decreases |chain| - n
      {
        AlongChain(n + 1, r);
        match Compare(ItemOf(current.forward[0]), q)
        case Less =>
          assert n + 1 < r;
          n, current := n + 1, current.forward[0];
          Bottom(n);
        case Equal =>
          assert Contents()[n] == q;
          ContentsSorted();
          RankCounts(Contents(), n);
          return Some(n);
        case Greater =>
          break;
      }
      assert false;
    }

    method GetByRank(rank: nat) returns (item: Option<Item>)
      requires Valid()
      ensures item == if rank < |Contents()| then Some(Contents()[rank]) else None
    {
      if rank >= length {
        return None;
      }
      var current, traversed := head, 0;
      Bottom(0);
      while traversed <= rank
        invariant traversed <= rank && current == chain[traversed]
        invariant |current.forward| > 0 && current.forward[0] == NodeAt(chain, traversed + 1)
        decreases rank - traversed
      {
        if current.forward[0] == null {
          break;
        }
        if traversed == rank {
          return Some(ItemOf(current.forward[0]));
        }
        current, traversed := current.forward[0], traversed + 1;
        Bottom(traversed);
      }
      assert false;
    }

    /** The slice between two ranks, both inclusive. */
    method RangeByRank(start: nat, end: nat) returns (items: seq<Item>)
      requires Valid()
      ensures var n := |Contents()|;
        items == if start < n && start <= end then Contents()[start..Least(end + 1, n)] else []
    {
      hide Distinct, SortedChain, Linked, LevelExact, TotalSize, Contents;
      items := [];
      if start >= length {
        return;
      }
      var current, rank := head, 0;
      Bottom(0);
      while rank < start
        invariant rank <= start && current == chain[rank]
        invariant |current.forward| > 0 && current.forward[0] == NodeAt(chain, rank + 1)
      {
        current, rank := current.forward[0], rank + 1;
        Bottom(rank);
      }
      while rank <= end && rank < length
        invariant start <= rank <= length && current == chain[rank] && (rank == start || rank <= end + 1)
        invariant |current.forward| > 0 && current.forward[0] == NodeAt(chain, rank + 1)
        invariant items == Contents()[start..rank]
      {
        NextItem(start, rank);
        items := items + [ItemOf(current.forward[0])];
        current, rank := current.forward[0], rank + 1;
        Bottom(rank);
      }
    }

    /** The top-down search for the first score that is not below `min`. */
    method SkipBelow(min: Score) returns (current: Node, ghost p: nat)
      requires ChainValid()
      ensures p < |chain| && current == chain[p]
      ensures forall r :: 1 <= r <= p ==> ScoreLess(chain[r].value, min)
      ensures forall r :: p < r < |chain| ==> !ScoreLess(chain[r].value, min)
    {
      current, p := head, 0;
      var i := level + 1;
      while i > 0
        invariant 0 <= i <= level + 1 && p < |chain| && current == chain[p]
        invariant tall[p] > (if i > 0 then i - 1 else 0)
        invariant p > 0 ==> ScoreLess(chain[p].value, min)
        invariant i == 0 && p + 1 < |chain| ==> !ScoreLess(chain[p + 1].value, min)
      {
        i := i - 1;
        while current.forward[i] != null
          invariant p < |chain| && current == chain[p] && tall[p] > i
          invariant p > 0 ==> ScoreLess(chain[p].value, min)
          decreases |chain| - p
        {
          assert Link(chain, tall, p, i);
          if ScoreLess(current.forward[i].value, min) {
            current, p := current.forward[i], Next(tall, p + 1, i);
          } else {
            break;
          }
        }
        assert Link(chain, tall, p, i);
      }
      forall r | 1 <= r < p ensures ScoreLess(chain[r].value, min) {
        BoundsAlongOrder(ItemOf(chain[r]), ItemOf(chain[p]), min, min);
      }
      forall r | p + 1 < r < |chain| ensures !ScoreLess(chain[r].value, min) {
        BoundsAlongOrder(ItemOf(chain[p + 1]), ItemOf(chain[r]), min, min);
      }
    }

    /** Collects items from position `p` on as long as their scores are at most `max`. */
    method CollectUpTo(start: Node, max: Score, ghost p: nat) returns (items: seq<Item>, ghost k: nat)
      requires ChainValid() && p < |chain| && start == chain[p]
      ensures p <= k < |chain| && items == Contents()[p..k]
      ensures forall r :: p < r <= k ==> ScoreAtMost(chain[r].value, max)
      ensures k + 1 < |chain| ==> !ScoreAtMost(chain[k + 1].value, max)
    {
      hide Distinct, SortedChain, Linked, LevelExact, TotalSize, Contents;
      items := [];
      var current := start;
      Bottom(p);
      k := p;
      while current.forward[0] != null && ScoreAtMost(current.forward[0].value, max)
        invariant p <= k < |chain| && current == chain[k]
        invariant |current.forward| > 0 && current.forward[0] == NodeAt(chain, k + 1)
        invariant items == Contents()[p..k]
        invariant forall r :: p < r <= k ==> ScoreAtMost(chain[r].value, max)
        decreases |chain| - k
      {
        NextItem(p, k);
        items := items + [ItemOf(current.forward[0])];
        current, k := current.forward[0], k + 1;
        Bottom(k);
      }
    }

    /** The items whose scores lie between two bounds, both inclusive. */
    method RangeByScore(min: Score, max: Score) returns (items: seq<Item>)
      requires Valid()
      ensures items == FilterRange(Contents(), min, max)
    {
      hide Distinct, Linked, LevelExact, TotalSize, FilterRange;
      var current, p := SkipBelow(min);
      ghost var k;
      items, k := CollectUpTo(current, max, p);
      forall i | 0 <= i < |Contents()| ensures InRange(Contents()[i], min, max) <==> p <= i < k {
        assert Contents()[i] == ItemOf(chain[i + 1]);
        if k < i {
          BoundsAlongOrder(ItemOf(chain[k + 1]), ItemOf(chain[i + 1]), min, max);
        }
      }
      FilterRangeIsSlice(Contents(), min, max, p, k);
    }

    /** All items, in order. */
    method GetAllItems() returns (items: seq<Item>)
      requires Valid()
      ensures items == Contents()
    {
      hide Distinct, SortedChain, Linked, LevelExact, TotalSize, Contents;
      items := [];
      var current := head;
      ghost var k := 0;
      Bottom(0);
      while current.forward[0] != null
        invariant k < |chain| && current == chain[k] && items == Contents()[0..k]
        invariant |current.forward| > 0 && current.forward[0] == NodeAt(chain, k + 1)
        decreases |chain| - k
      {
        NextItem(0, k);
        items := items + [ItemOf(current.forward[0])];
        current, k := current.forward[0], k + 1;
        Bottom(k);
      }
    }
  }

  /** The searched item is present exactly when it is the one right after the split. */
  lemma FoundIf(chain: seq<Node>, q: Item, p: nat)
    requires SortedChain(chain) && Splits(chain, q, p)
    ensures (exists r :: 1 <= r < |chain| && ItemOf(chain[r]) == q)
       <==> p + 1 < |chain| && ItemOf(chain[p + 1]) == q
  {
    CompareTotal(q, q);
  }

  lemma DetachKeeps(chain: seq<Node>, tall: seq<nat>, p: nat, u: seq<nat>, level: nat)
    requires |chain| == |tall| && p + 1 < |chain| && tall[p + 1] <= |u|
    requires LevelExact(tall, level) && Distinct(chain) && SortedChain(chain)
    requires Unlinking(chain, tall, u, p + 1, tall[p + 1])
    requires forall l :: 0 <= l < tall[p + 1] ==> Predecessor(tall, p, l, u[l])
    ensures var chain', tall' := RemoveAt(chain, p + 1), RemoveAt(tall, p + 1);
      && Linked(chain', tall') && SortedChain(chain') && Distinct(chain')
      && chain'[0] == chain[0] && tall'[0] == tall[0]
      && (forall r :: 1 <= r < |tall'| ==> 1 <= tall'[r] <= level + 1)
      && TotalSize(tall[1..]) == TotalSize(tall'[1..]) + NodeSize(tall[p + 1])
  {
    var chain', tall', n := RemoveAt(chain, p + 1), RemoveAt(tall, p + 1), tall[p + 1];
    RemoveThenInsert(chain, p + 1);
    RemoveThenInsert(tall, p + 1);
    LinkedRemove(chain', tall', p, u, chain[p + 1], n);
    RemoveKeeps(chain', tall', p, chain[p + 1], n, level, chain, tall);
  }

  /** What a removal keeps, apart from the links; `chain` and `tall` are what is left. */
  lemma RemoveKeeps(chain: seq<Node>, tall: seq<nat>, p: nat, node: Node, n: nat, level: nat, chain': seq<Node>, tall': seq<nat>)
    requires |chain| == |tall| && p < |chain|
    requires chain' == InsertAt(chain, p + 1, node) && tall' == InsertAt(tall, p + 1, n)
    requires SortedChain(chain') && Distinct(chain') && LevelExact(tall', level)
    ensures SortedChain(chain) && Distinct(chain)
    ensures forall r :: 1 <= r < |tall| ==> 1 <= tall[r] <= level + 1
    ensures TotalSize(tall'[1..]) == TotalSize(tall[1..]) + NodeSize(n)
  {
    forall r | 1 <= r < |tall| ensures 1 <= tall[r] <= level + 1 {
      assert tall'[Up(p + 1, r)] == tall[r];
    }
    forall i, j | 0 <= i < j < |chain|
      ensures chain[i] != chain[j] && (i > 0 ==> Before(ItemOf(chain[i]), ItemOf(chain[j])))
    {
      assert chain'[Up(p + 1, i)] == chain[i] && chain'[Up(p + 1, j)] == chain[j];
    }
    assert tall'[1..] == InsertAt(tall[1..], p, n);
    TotalSizeInsert(tall[1..], p, n);
  }

  /** What an insertion keeps, apart from the links. */
  lemma InsertKeeps(chain: seq<Node>, tall: seq<nat>, p: nat, node: Node, n: nat, level: nat)
    requires |chain| == |tall| && p < |chain|
    requires Distinct(chain) && node !in chain && LevelExact(tall, level) && 1 <= n <= MAX_LEVEL
    ensures Distinct(InsertAt(chain, p + 1, node))
    ensures LevelExact(InsertAt(tall, p + 1, n), if n > level + 1 then n - 1 else level)
    ensures TotalSize(InsertAt(tall, p + 1, n)[1..]) == TotalSize(tall[1..]) + NodeSize(n)
  {
    InsertDistinct(chain, p + 1, node);
    InsertLevel(tall, p, n, level);
    hide Distinct, LevelExact;
    assert InsertAt(tall, p + 1, n)[1..] == InsertAt(tall[1..], p, n);
    TotalSizeInsert(tall[1..], p, n);
  }

  lemma InsertDistinct(chain: seq<Node>, at: nat, node: Node)
    requires Distinct(chain) && node !in chain && at <= |chain|
    ensures Distinct(InsertAt(chain, at, node))
  {
  }

  lemma InsertLevel(tall: seq<nat>, p: nat, n: nat, level: nat)
    requires p < |tall| && LevelExact(tall, level) && 1 <= n <= MAX_LEVEL
    ensures LevelExact(InsertAt(tall, p + 1, n), if n > level + 1 then n - 1 else level)
  {
    var tall' := InsertAt(tall, p + 1, n);
    if n > level + 1 {
      assert tall'[p + 1] == n;
    } else if level > 0 {
      var r :| 1 <= r < |tall| && tall[r] == level + 1;
      assert tall'[Up(p + 1, r)] == level + 1;
    }
  }

  lemma InsertSorted(chain: seq<Node>, q: Item, p: nat, node: Node)
    requires SortedChain(chain) && Splits(chain, q, p) && ItemOf(node) == q
    ensures SortedChain(InsertAt(chain, p + 1, node)) <==> !HasItem(chain, q)
  {
    if r :| 1 <= r < |chain| && ItemOf(chain[r]) == q {
      InsertTwice(chain, q, p, node, r);
    } else {
      forall r | p < r < |chain| ensures Before(q, ItemOf(chain[r])) {
        CompareTotal(ItemOf(chain[r]), q);
      }
    }
  }

  lemma SplitInside(chain: seq<Node>, q: Item, p: nat)
    requires Splits(chain, q, p)
    ensures p < |chain|
  {
  }

  lemma InsertTwice(chain: seq<Node>, q: Item, p: nat, node: Node, r: nat)
    requires Splits(chain, q, p) && ItemOf(node) == q && 1 <= r < |chain| && ItemOf(chain[r]) == q
    ensures !SortedChain(InsertAt(chain, p + 1, node))
  {
    CompareTotal(q, q);
    var chain' := InsertAt(chain, p + 1, node);
    assert r > p;
    assert chain'[p + 1] == node && chain'[r + 1] == chain[r];
    assert !Before(ItemOf(chain'[p + 1]), ItemOf(chain'[r + 1]));
  }

  /** The contents are sorted, and are the index read as a set of items. */
  lemma ContentsOfIndex(list: SkipList)
    requires list.Valid()
    ensures Sorted(list.Contents())
    ensures forall x :: x in list.Contents() <==> x.key in list.keyIndex && list.keyIndex[x.key] == x.value
  {
    var s := list.Contents();
    list.ContentsSorted();
    assert forall i :: 0 <= i < |s| ==> s[i] == ItemOf(list.chain[i + 1]);
    hide SortedChain, Sorted, Linked, Distinct;
    forall x: Item | x.key in list.keyIndex && list.keyIndex[x.key] == x.value ensures x in s {
      var r :| 1 <= r < |list.chain| && list.chain[r].key == x.key;
      assert s[r - 1] == x;
    }
  }

  /** Of two items the one with the smaller score stands first, and with equal scores the one with the
      smaller key. */
  lemma ContentsOrder(list: SkipList, i: nat, j: nat)
    requires list.Valid() && i < |list.Contents()| && j < |list.Contents()|
    requires !list.Contents()[i].value.NaN? && !list.Contents()[j].value.NaN?
    ensures var a, b := list.Contents()[i], list.Contents()[j];
      i < j <==> ScoreLess(a.value, b.value) || (a.value == b.value && LexLess(a.key, b.key))
  {
    list.ContentsSorted();
    var a, b := list.Contents()[i], list.Contents()[j];
    hide SortedChain, Linked, Distinct, Agrees, LevelExact;
    BeforeIff(a, b);
    CompareTotal(a, b);
    CompareTotal(a, a);
  }

  /** Random levels cannot be observed: lists with equal indexes have equal contents, and as
      many of them as the index has entries. */
  lemma LevelsUnobservable(a: SkipList, b: SkipList)
    requires a.Valid() && b.Valid() && a.keyIndex == b.keyIndex
    ensures a.Contents() == b.Contents() && a.length == b.length
  {
    ContentsOfIndex(a);
    ContentsOfIndex(b);
    SortedUnique(a.Contents(), b.Contents());
  }

  lemma LengthOfIndex(list: SkipList)
    requires list.Valid()
    ensures list.length == |list.keyIndex|
  {
    var s := list.Contents();
    ContentsOfIndex(list);
    forall i, j | 0 <= i < j < |s| ensures s[i].key != s[j].key {
      assert s[i] in s && s[j] in s;
      CompareTotal(s[i], s[j]);
    }
    KeySetSize(s);
    forall k ensures k in list.keyIndex.Keys <==> k in KeySet(s) {
      KeySetHas(s, k);
      if k in list.keyIndex { assert Item(k, list.keyIndex[k]) in s; }
    }
    assert list.keyIndex.Keys == KeySet(s);
  }

  ghost function KeySet(s: seq<Item>): set<Key> {
    if s == [] then {} else {s[0].key} + KeySet(s[1..])
  }

  lemma {:induction false} KeySetHas(s: seq<Item>, k: Key)
    ensures k in KeySet(s) <==> exists x :: x in s && x.key == k
  {
    if s != [] {
      KeySetHas(s[1..], k);
      assert s == [s[0]] + s[1..];
    }
  }

  lemma {:induction false} KeySetSize(s: seq<Item>)
    requires forall i, j :: 0 <= i < j < |s| ==> s[i].key != s[j].key
    ensures |KeySet(s)| == |s|
  {
    if s != [] {
      KeySetSize(s[1..]);
      KeySetHas(s[1..], s[0].key);
    }
  }

  /** The nodes met by following the links of level `l`. */
  ghost function Follow(n: Node?, l: nat, nodes: seq<Node>, steps: nat): seq<Node>
    reads nodes
    decreases steps
  {
    if n == null || n !in nodes || l >= |n.forward| || steps == 0 then []
    else [n] + Follow(n.forward[l], l, nodes, steps - 1)
  }

  /** The nodes from position `q` on that are taller than `l`. */
  ghost function Taller(chain: seq<Node>, tall: seq<nat>, q: nat, l: nat): seq<Node>
    requires q <= |chain| == |tall|
    decreases |chain| - q
  {
    if q == |chain| then []
    else if tall[q] > l then [chain[q]] + Taller(chain, tall, q + 1, l)
    else Taller(chain, tall, q + 1, l)
  }

  lemma {:induction false} TallerFromNext(chain: seq<Node>, tall: seq<nat>, q: nat, l: nat)
    requires q <= |chain| == |tall|
    ensures var x := Next(tall, q, l);
      Taller(chain, tall, q, l) == if x == |chain| then [] else [chain[x]] + Taller(chain, tall, x + 1, l)
    decreases |chain| - q
  {
    if q < |chain| && tall[q] <= l {
      TallerFromNext(chain, tall, q + 1, l);
    }
  }

  /** Each level is the bottom level thinned out: following level `l` from the sentinel
      visits exactly the nodes taller than `l`, in order. */
  lemma LevelThinsOut(list: SkipList, l: nat)
    requires list.ChainValid() && l < MAX_LEVEL
    ensures Follow(list.head.forward[l], l, list.chain, |list.chain|) == Taller(list.chain, list.tall, 1, l)
  {
    assert Link(list.chain, list.tall, 0, l);
    FollowIsTaller(list.chain, list.tall, 1, l, |list.chain|);
  }

  lemma FollowStep(chain: seq<Node>, x: nat, l: nat, steps: nat, y: nat)
    requires x < |chain| && steps > 0 && LeadsTo(chain, x, l, y)
    ensures Follow(chain[x], l, chain, steps) == [chain[x]] + Follow(NodeAt(chain, y), l, chain, steps - 1)
  {
    assert chain[x] in chain;
  }

  lemma {:induction false} FollowIsTaller(chain: seq<Node>, tall: seq<nat>, q: nat, l: nat, steps: nat)
    requires Linked(chain, tall) && q <= |chain| && steps >= |chain| - q
    ensures Follow(NodeAt(chain, Next(tall, q, l)), l, chain, steps) == Taller(chain, tall, q, l)
    decreases |chain| - q
  {
    var x := Next(tall, q, l);
    TallerFromNext(chain, tall, q, l);
    if x < |chain| {
      assert Link(chain, tall, x, l);
      FollowStep(chain, x, l, steps, Next(tall, x + 1, l));
      FollowIsTaller(chain, tall, x + 1, l, steps - 1);
    }
  }

  datatype Op =
    | InsertOp(key: Key, value: Score, newLevel: nat)
    | RemoveOp(key: Key)
    | ClearOp

  /** What a run of operations leaves in a sorted set, seen as a map. */
  function Replay(ops: seq<Op>): map<Key, Score> {
    if ops == [] then map[]
    else
      var m := Replay(ops[..|ops| - 1]);
      match ops[|ops| - 1]
      case InsertOp(k, v, _) => m[k := v]
      case RemoveOp(k) => m - {k}
      case ClearOp => map[]
  }

  predicate WithoutNaN(ops: seq<Op>) {
    forall i :: 0 <= i < |ops| ==> ops[i].InsertOp? ==> !ops[i].value.NaN? && ops[i].newLevel < MAX_LEVEL
  }

  lemma {:induction false} ReplayWithoutNaN(ops: seq<Op>, k: Key)
    requires WithoutNaN(ops) && k in Replay(ops)
    ensures !Replay(ops)[k].NaN?
  {
    var init := ops[..|ops| - 1];
    if k in Replay(init) {
      ReplayWithoutNaN(init, k);
    }
  }

  /** Every run of insertions, updates, removals and clears, whatever the random levels, ends
      in a sound skip list that holds exactly what the run says. */
  method Run(ops: seq<Op>) returns (list: SkipList)
    requires WithoutNaN(ops)
    ensures list.Valid() && list.keyIndex == Replay(ops)
  {
    hide Distinct, SortedChain, LevelExact, TotalSize, Agrees, Linked;
    list := new SkipList();
    for n := 0 to |ops|
      invariant list.Valid() && list.keyIndex == Replay(ops[..n])
      invariant fresh(list) && forall i :: 0 <= i < |list.chain| ==> fresh(list.chain[i])
    {
      assert ops[..n + 1][..n] == ops[..n];
      match ops[n]
      case InsertOp(k, v, newLevel) =>
        if k in list.keyIndex { ReplayWithoutNaN(ops[..n], k); }
        var previous := list.Insert(k, v, newLevel);
      case RemoveOp(k) =>
        if k in list.keyIndex { ReplayWithoutNaN(ops[..n], k); }
        var score := list.Remove(k);
      case ClearOp =>
        list.Clear();
    }
    assert ops[..|ops|] == ops;
  }

  /** The NaN guard cannot be dropped: removing a member whose score is NaN leaves its node
      behind, so that the index and the chain part company. */
  method NaNStays(key: Key, newLevel: nat) returns (list: SkipList)
    requires newLevel < MAX_LEVEL
    ensures list.ChainValid() && !list.IndexAgrees()
    ensures list.keyIndex == map[] && list.length == 1
  {
    hide Distinct, SortedChain, LevelExact, TotalSize, Linked;
    list := new SkipList();
    var previous := list.Insert(key, NaN, newLevel);
    LengthOfIndex(list);
    ghost var before := list.chain;
    var score := list.Remove(key);
  }
}
