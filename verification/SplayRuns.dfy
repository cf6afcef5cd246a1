/** Whole runs of the splay tree: contents and total cost, and what the bound does not cover. */
module SplayRuns {
  import opened TreeShapes
  import opened SplayTree

  datatype Op = Insert(key: int, record: int) | Remove(key: int)

  // What an operation does to the map.
  function Apply(dict: map<int, int>, op: Op): map<int, int> {
    match op
    case Insert(key, record) => if key in dict then dict else dict[key := record]
    case Remove(key) => dict - {key}
  }

  function DictAfter(ops: seq<Op>, n: nat): map<int, int>
    requires n <= |ops|
  {
    if n == 0 then map[] else Apply(DictAfter(ops, n - 1), ops[n - 1])
  }

  // The operation changes the tree, so it splays.
  ghost predicate Effective(s: Tree<Node>, op: Op) {
    if op.Insert? then FoundAt(s, op.key).Leaf? else FoundAt(s, op.key).Fork?
  }

  /** The operation turns the tree s1 into s2. */
  ghost predicate Performed(s1: Tree<Node>, op: Op, s2: Tree<Node>) {
    if !Effective(s1, op) then s2 == s1
    else
      var path := PathOf(s1, op.key);
      match op
      case Insert(key, record) =>
        s2.Fork? && s2.at.key == key && s2.at.record == record && s2 == Splayed(path, Fork(Leaf, s2.at, Leaf))
      case Remove(key) => s2 == WithoutRoot(Splayed(path, FoundAt(s1, key)))
  }

  // The iterations of the operation's splay, and the steps of its descent.
  ghost function Cost(s: Tree<Node>, op: Op): nat {
    if Effective(s, op) then Iterations(PathOf(s, op.key)) else 0
  }

  ghost function Descent(s: Tree<Node>, op: Op): nat {
    Depth(PathOf(s, op.key))
  }

  // shapes are the trees before and after every one of the operations.
  ghost predicate History(shapes: seq<Tree<Node>>, ops: seq<Op>) {
    && |shapes| == |ops| + 1 && shapes[0] == Leaf
    && forall i {:trigger ops[i]} :: 0 <= i < |ops| ==> Performed(shapes[i], ops[i], shapes[i + 1])
  }

  // The iterations of the first n operations together.
  ghost function TotalCost(shapes: seq<Tree<Node>>, ops: seq<Op>, n: nat): nat
    requires n <= |shapes| && n <= |ops|
  {
    if n == 0 then 0 else TotalCost(shapes, ops, n - 1) + Cost(shapes[n - 1], ops[n - 1])
  }

  // The descents of those of the first n operations that change the tree.
  ghost function TotalDescent(shapes: seq<Tree<Node>>, ops: seq<Op>, n: nat): nat
    requires n <= |shapes| && n <= |ops|
  {
    if n == 0 then 0
    else
      TotalDescent(shapes, ops, n - 1)
      + if Effective(shapes[n - 1], ops[n - 1]) then Descent(shapes[n - 1], ops[n - 1]) else 0
  }

  // ------------------------------------------------------------------ the bound

  lemma {:induction false} OpPays(s1: Tree<Node>, op: Op, s2: Tree<Node>, n: nat)
    requires Performed(s1, op, s2) && Size(s1) <= n
    ensures Cost(s1, op) + Potential(s2) <= Potential(s1) + 4 * Rank(n + 1) + 1 && Size(s2) <= n + 1
  {
    if Effective(s1, op) {
      if op.Insert? {
        InsertionPays(s1, op.key, s2.at, s2, n);
      } else {
        RemovalPays(s1, op.key, s2, n);
      }
    }
  }

  lemma {:induction false} InsertionPays(s1: Tree<Node>, key: int, x: Node, s2: Tree<Node>, n: nat)
    requires FoundAt(s1, key).Leaf? && s2 == Splayed(PathOf(s1, key), Fork(Leaf, x, Leaf)) && Size(s1) <= n
    ensures Iterations(PathOf(s1, key)) + Potential(s2) <= Potential(s1) + 4 * Rank(n + 1) + 1 && Size(s2) <= n + 1
  {
    LengthIsSize(s1);
    LengthIsSize(s2);
    RankMonotone(Size(s1) + 1, n + 1);
    InsertPays(s1, key, x, s2);
    InsertedNodes(s1, key, x, s2);
  }

  lemma {:induction false} RemovalPays(s1: Tree<Node>, key: int, s2: Tree<Node>, n: nat)
    requires FoundAt(s1, key).Fork? && s2 == WithoutRoot(Splayed(PathOf(s1, key), FoundAt(s1, key))) && Size(s1) <= n
    ensures Iterations(PathOf(s1, key)) + Potential(s2) <= Potential(s1) + 4 * Rank(n + 1) + 1 && Size(s2) <= n + 1
  {
    LengthIsSize(s1);
    LengthIsSize(s2);
    RankMonotone(Size(s1), n + 1);
    RemovePays(s1, key, s2);
    RemovedNodes(s1, key, s2);
  }

  lemma {:induction false} RunPays(shapes: seq<Tree<Node>>, ops: seq<Op>, n: nat, price: nat)
    requires History(shapes, ops) && n <= |ops| && price == 4 * Rank(|ops|) + 1
    ensures TotalCost(shapes, ops, n) + Potential(shapes[n]) <= n * price && Size(shapes[n]) <= n
  {
    if n > 0 {
      RunPays(shapes, ops, n - 1, price);
      assert Performed(shapes[n - 1], ops[n - 1], shapes[n]);
      OpPays(shapes[n - 1], ops[n - 1], shapes[n], n - 1);
      RankMonotone(n, |ops|);
      OneMore(n - 1, price);
    }
  }

  // Descents are at most twice as long as splays.
  lemma {:induction false} DescentsPay(shapes: seq<Tree<Node>>, ops: seq<Op>, n: nat)
    requires n <= |shapes| && n <= |ops|
    ensures TotalDescent(shapes, ops, n) <= 2 * TotalCost(shapes, ops, n)
  {
    if n > 0 {
      DescentsPay(shapes, ops, n - 1);
    }
  }

  /** The trees of any run of m operations, starting from the empty tree: all splays together take at most
      m * (4 * rank(m) + 1) iterations, and the descents that lead to them at most twice as many steps. */
  lemma {:induction false} RunBound(shapes: seq<Tree<Node>>, ops: seq<Op>)
    requires History(shapes, ops)
    ensures TotalCost(shapes, ops, |ops|) <= |ops| * (4 * Rank(|ops|) + 1)
    ensures TotalDescent(shapes, ops, |ops|) <= 2 * (|ops| * (4 * Rank(|ops|) + 1))
  {
    RunPays(shapes, ops, |ops|, 4 * Rank(|ops|) + 1);
    DescentsPay(shapes, ops, |ops|);
  }

  // ------------------------------------------------------------------ the code

  method Perform(t: SplayTree, op: Op) returns (ghost iterations: nat)
    requires t.Valid()
    modifies t, Nodes(t.shape)
    ensures t.Valid() && t.dict == Apply(old(t.dict), op)
    ensures Performed(old(t.shape), op, t.shape) && iterations == Cost(old(t.shape), op)
    ensures forall x :: x in Nodes(t.shape) ==> x in old(Nodes(t.shape)) || fresh(x)
  {
    match op {
      case Insert(key, record) =>
        var inserted;
        inserted, iterations := t.Insert(key, record);
      case Remove(key) =>
        var record;
        record, iterations := t.Remove(key);
    }
  }

  /** Any run of insertions and removals, starting from the empty tree: the tree holds what the run determines, the
      trees in between are those of the theory, and `total`, the number of splay iterations, is the one that the bound
      speaks of. */
  method Run(ops: seq<Op>) returns (t: SplayTree, ghost shapes: seq<Tree<Node>>, ghost total: nat)
    ensures t.Valid() && t.dict == DictAfter(ops, |ops|)
    ensures History(shapes, ops) && shapes[|ops|] == t.shape
    ensures total == TotalCost(shapes, ops, |ops|) <= |ops| * (4 * Rank(|ops|) + 1)
  {
    t := new SplayTree();
    shapes, total := [t.shape], 0;
    for i := 0 to |ops|
      invariant fresh(t) && (forall x :: x in Nodes(t.shape) ==> fresh(x))
      invariant t.Valid() && t.dict == DictAfter(ops, i)
      invariant History(shapes, ops[..i]) && shapes[i] == t.shape && total == TotalCost(shapes, ops[..i], i)
    {
      ghost var iterations := Perform(t, ops[i]);
      HistoryGrows(shapes, ops, i, t.shape);
      total := total + iterations;
      shapes := shapes + [t.shape];
    }
    assert ops[..|ops|] == ops;
    RunBound(shapes, ops);
  }

  lemma {:induction false} HistoryGrows(shapes: seq<Tree<Node>>, ops: seq<Op>, i: nat, s: Tree<Node>)
    requires i < |ops| && History(shapes, ops[..i]) && Performed(shapes[i], ops[i], s)
    ensures History(shapes + [s], ops[..i + 1])
    ensures TotalCost(shapes + [s], ops[..i + 1], i + 1) == TotalCost(shapes, ops[..i], i) + Cost(shapes[i], ops[i])
  {
    var more, past := shapes + [s], ops[..i + 1];
    forall j {:trigger past[j]} | 0 <= j < i + 1 ensures Performed(more[j], past[j], more[j + 1]) {
      if j < i {
        assert past[j] == ops[..i][j];
      }
    }
    SamePast(shapes, ops[..i], more, past, i);
  }

  lemma {:induction false} SamePast(s1: seq<Tree<Node>>, o1: seq<Op>, s2: seq<Tree<Node>>, o2: seq<Op>, n: nat)
    requires n <= |s1| && n <= |s2| && n <= |o1| && n <= |o2|
    requires forall j :: 0 <= j < n ==> s1[j] == s2[j] && o1[j] == o2[j]
    ensures TotalCost(s1, o1, n) == TotalCost(s2, o2, n)
  {
    if n > 0 {
      SamePast(s1, o1, s2, o2, n - 1);
    }
  }

  // ------------------------------------------------------------------ what the bound does not cover

  // A tree in which no node has a right subtree.
  ghost predicate LeftChain(t: Tree<Node>) {
    t.Fork? ==> t.right.Leaf? && LeftChain(t.left)
  }

  ghost predicate AllAbove(t: Tree<Node>, key: int) {
    t.Fork? ==> key < t.at.key && AllAbove(t.left, key) && AllAbove(t.right, key)
  }

  // In a chain, the search for a key below all others goes down to the end.
  lemma {:induction false} ChainDepth(c: Context<Node>, t: Tree<Node>, key: int)
    requires LeftChain(t) && AllAbove(t, key)
    ensures Depth(Descend(key, c, t).0) == Depth(c) + Size(t) && Descend(key, c, t).1.Leaf?
    decreases t
  {
    if t.Fork? {
      ChainDepth(InLeft(c, t.at, t.right), t.left, key);
    }
  }

  // Inserting a key above all others makes a chain one node longer.
  lemma {:induction false} ChainGrows(s1: Tree<Node>, key: int, n: Node, s2: Tree<Node>)
    requires LeftChain(s1) && (s1.Fork? ==> s1.at.key < key) && FoundAt(s1, key).Leaf?
    requires s2 == Splayed(PathOf(s1, key), Fork(Leaf, n, Leaf))
    ensures s2 == Fork(s1, n, Leaf) && Iterations(PathOf(s1, key)) <= 1
  {
    var leaf := Fork(Leaf, n, Leaf);
    if s1.Fork? {
      var c := InRight(Top, s1.left, s1.at);
      assert Descend(key, c, Leaf) == (c, Leaf);
      assert Descend(key, Top, s1) == (c, Leaf);
      assert Step(c, leaf) == (Top, Fork(s1, n, Leaf));
      assert Splayed(Top, Fork(s1, n, Leaf)) == Fork(s1, n, Leaf);
    }
  }

  // A chain of the keys from 1 to n, with n at its root.
  ghost predicate IsChain(t: Tree<Node>, dict: map<int, int>, n: nat) {
    && LeftChain(t) && AllAbove(t, 0) && (t.Fork? ==> t.at.key == n)
    && forall k {:trigger k in dict} :: k in dict <==> 1 <= k <= n
  }

  // The next key makes the chain one node longer.
  method Prolong(t: SplayTree, n: nat) returns (ghost iterations: nat)
    requires t.Valid() && IsChain(t.shape, t.dict, n)
    modifies t, Nodes(t.shape)
    ensures t.Valid() && IsChain(t.shape, t.dict, n + 1) && t.nodeCount == old(t.nodeCount) + 1
    ensures Performed(old(t.shape), Insert(n + 1, 0), t.shape)
    ensures iterations == Cost(old(t.shape), Insert(n + 1, 0)) <= 1
    ensures forall x :: x in Nodes(t.shape) ==> x in old(Nodes(t.shape)) || fresh(x)
  {
    ghost var before := t.shape;
    var inserted;
    inserted, iterations := t.Insert(n + 1, 0);
    ChainGrows(before, n + 1, t.root, t.shape);
  }

  lemma {:induction false} ChainSearch(t: Tree<Node>, dict: map<int, int>, n: nat)
    requires IsChain(t, dict, n)
    ensures Depth(PathOf(t, 0)) == |InOrder(t)| && Cost(t, Remove(0)) == 0
  {
    ChainDepth(Top, t, 0);
    LengthIsSize(t);
  }

  // The insertions of 1, 2, ... n.
  function Keys(n: nat): (ops: seq<Op>)
    ensures |ops| == n
  {
    seq(n, i => Insert(i + 1, 0))
  }

  // The trees of the first i of n such insertions, and their cost.
  ghost predicate KeysInserted(shapes: seq<Tree<Node>>, n: nat, i: nat, total: nat) {
    i <= n && History(shapes, Keys(n)[..i]) && total == TotalCost(shapes, Keys(n)[..i], i) <= i
  }

  lemma {:induction false} OneMoreKey(shapes: seq<Tree<Node>>, n: nat, i: nat, total: nat, s: Tree<Node>,
                                      iterations: nat)
    requires KeysInserted(shapes, n, i, total) && i < n && Performed(shapes[i], Insert(i + 1, 0), s)
    requires iterations == Cost(shapes[i], Insert(i + 1, 0)) <= 1
    ensures KeysInserted(shapes + [s], n, i + 1, total + iterations)
  {
    HistoryGrows(shapes, Keys(n), i, s);
  }

  /** Searching does not splay, so it has no such bound: after inserting 1, 2, ... n, which takes n iterations at
      most, the search path of 0 has n nodes.  tree_find walks down all of it and leaves the tree as it is, and so
      does an attempt to remove 0. */
  method DeepSearches(n: nat) returns (t: SplayTree, ghost shapes: seq<Tree<Node>>, ghost total: nat)
    ensures t.Valid() && t.nodeCount == n && 0 !in t.dict
    ensures History(shapes, Keys(n)) && shapes[n] == t.shape && total == TotalCost(shapes, Keys(n), n) <= n
    ensures Depth(PathOf(t.shape, 0)) == n && Cost(t.shape, Remove(0)) == 0
  {
    t := new SplayTree();
    shapes, total := [t.shape], 0;
    for i := 0 to n
      invariant fresh(t) && (forall x :: x in Nodes(t.shape) ==> fresh(x))
      invariant t.Valid() && t.nodeCount == i && IsChain(t.shape, t.dict, i)
      invariant KeysInserted(shapes, n, i, total) && shapes[i] == t.shape
    {
      ghost var iterations := Prolong(t, i);
      OneMoreKey(shapes, n, i, total, t.shape, iterations);
      shapes, total := shapes + [t.shape], total + iterations;
    }
    assert Keys(n)[..n] == Keys(n);
    ChainSearch(t.shape, t.dict, n);
  }
}
