/** The splay tree of stree.c: nodes with parent links, rearranged in place. */
module SplayTree {
  import opened TreeShapes

  const NULL_RECORD := 0

  class Node {
    const key: int
    const record: int
    var left: Node?
    var right: Node?
    var parent: Node?

    constructor (key: int, record: int)
      ensures this.key == key && this.record == record && left == null && right == null
    {
      this.key, this.record := key, record;
      left, right, parent := null, null, null;
    }
  }

  // ------------------------------------------------------------------ links and shapes

  ghost function Nodes(t: Tree<Node>): set<Node> {
    match t
    case Leaf => {}
    case Fork(l, n, r) => Nodes(l) + {n} + Nodes(r)
  }

  ghost function PathNodes(c: Context<Node>): set<Node> {
    match c
    case Top => {}
    case InLeft(up, n, r) => PathNodes(up) + {n} + Nodes(r)
    case InRight(up, l, n) => PathNodes(up) + {n} + Nodes(l)
  }

  ghost function RootOf(t: Tree<Node>): Node? {
    if t.Leaf? then null else t.at
  }

  ghost function ParentOf(c: Context<Node>): Node? {
    if c.Top? then null else c.at
  }

  // The node at the top of the path above child.
  ghost function Origin(c: Context<Node>, child: Node?): Node? {
    if c.Top? then child else Origin(c.up, c.at)
  }

  ghost predicate HasParent(t: Tree<Node>, p: Node?)
    reads Nodes(t)
  {
    t.Fork? ==> t.at.parent == p
  }

  /** The child links, and the parent links of all nodes but the root, are those of the tree t, and no node occurs
      twice. */
  ghost predicate Linked(t: Tree<Node>)
    reads Nodes(t)
  {
    match t
    case Leaf => true
    case Fork(l, n, r) =>
      && n !in Nodes(l) && n !in Nodes(r) && Nodes(l) !! Nodes(r)
      && n.left == RootOf(l) && n.right == RootOf(r) && HasParent(l, n) && HasParent(r, n)
      && Linked(l) && Linked(r)
  }

  /** The links above a subtree with root `child` are those of the context c. */
  ghost predicate Around(c: Context<Node>, child: Node?)
    reads PathNodes(c)
  {
    match c
    case Top => true
    case InLeft(up, n, r) =>
      && n !in Nodes(r) && n !in PathNodes(up) && Nodes(r) !! PathNodes(up)
      && n.left == child && n.right == RootOf(r) && HasParent(r, n) && Linked(r)
      && n.parent == ParentOf(up) && Around(up, n)
    case InRight(up, l, n) =>
      && n !in Nodes(l) && n !in PathNodes(up) && Nodes(l) !! PathNodes(up)
      && n.right == child && n.left == RootOf(l) && HasParent(l, n) && Linked(l)
      && n.parent == ParentOf(up) && Around(up, n)
  }

  function RotatedLeft<T>(t: Tree<T>): Tree<T>
    requires t.Fork? && t.right.Fork?
  {
    Fork(Fork(t.left, t.at, t.right.left), t.right.at, t.right.right)
  }

  function RotatedRight<T>(t: Tree<T>): Tree<T>
    requires t.Fork? && t.left.Fork?
  {
    Fork(t.left.left, t.left.at, Fork(t.left.right, t.at, t.right))
  }

  class SplayTree {
    var root: Node?
    var nodeCount: int

    // The tree as a value, and the finite map it stands for.
    ghost var shape: Tree<Node>
    ghost var dict: map<int, int>

    /** The links of the whole tree are those of t in the context c. */
    ghost predicate At(c: Context<Node>, t: Tree<Node>)
      reads this, Nodes(t), PathNodes(c)
    {
      && Linked(t) && HasParent(t, ParentOf(c)) && Around(c, RootOf(t))
      && Nodes(t) !! PathNodes(c) && root == Origin(c, RootOf(t))
    }

    /** The link that leads to x from above leads to v from now on; it is the root or a child link of the parent. */
    method Redirect(x: Node, v: Node?, ghost c: Context<Node>)
      requires Around(c, x) && x.parent == ParentOf(c) && root == Origin(c, x) && x !in PathNodes(c)
      modifies this`root, if c.Top? then {} else {c.at}
      ensures Around(c, v) && root == Origin(c, v)
      ensures c.Top? || c.at.parent == old(c.at.parent)
    {
      if x.parent == null {
        root := v;
      } else if x == x.parent.left {
        x.parent.left := v;
      } else {
        x.parent.right := v;
      }
    }

    // What stands above a subtree with root `child` is c.
    ghost predicate Below(c: Context<Node>, child: Node?)
      reads this, PathNodes(c)
    {
      Around(c, child) && root == Origin(c, child)
    }

    /** left_rotate at x. */
    method LeftRotate(x: Node, ghost c: Context<Node>, ghost t: Tree<Node>)
      requires At(c, t) && t.Fork? && t.at == x && t.right.Fork?
      modifies this`root, Nodes(t), PathNodes(c)
      ensures At(c, RotatedLeft(t))
    {
      ghost var a, b, d := t.left, t.right.left, t.right.right;
      var y: Node := x.right;
      RightChild(t);
      assert allocated(PathNodes(c)) && (c.Top? || c.at in PathNodes(c)) && x in Nodes(t);
      RaiseRight(x, y, c, a, b, d);
      PutLeft(x, y, a, b, d);
    }

    // The part of left_rotate before x is put below y.
    method RaiseRight(x: Node, y: Node, ghost c: Context<Node>, ghost a: Tree<Node>, ghost b: Tree<Node>,
                      ghost d: Tree<Node>)
      requires Below(c, x) && x.parent == ParentOf(c) && Aside(c, x, y, a, b, d)
      requires Apart(a, x, b, y, d) && Linked(a) && Linked(b) && Linked(d) && HasParent(a, x) && HasParent(d, y)
      requires x.left == RootOf(a) && y.left == RootOf(b) && y.right == RootOf(d)
      modifies this`root, x, y, if b.Leaf? then {} else {b.at}, if c.Top? then {} else {c.at}
      ensures Below(c, y) && y.parent == ParentOf(c) && Disconnected(a, x, b, y, d)
      ensures x.left == RootOf(a) && x.right == RootOf(b) && y.right == RootOf(d)
    {
      assert allocated(PathNodes(c)) && (c.Top? || c.at in PathNodes(c)) && (b.Fork? ==> b.at in Nodes(b));
      assert allocated(Nodes(a)) && allocated(Nodes(b)) && allocated(Nodes(d));
      MoveToRight(x, y, a, b, d);
      Redirect(x, y, c);
    }

    /** right_rotate at x. */
    method RightRotate(x: Node, ghost c: Context<Node>, ghost t: Tree<Node>)
      requires At(c, t) && t.Fork? && t.at == x && t.left.Fork?
      modifies this`root, Nodes(t), PathNodes(c)
      ensures At(c, RotatedRight(t))
    {
      ghost var a, b, d := t.left.left, t.left.right, t.right;
      var y: Node := x.left;
      LeftChild(t);
      assert allocated(PathNodes(c)) && (c.Top? || c.at in PathNodes(c)) && x in Nodes(t);
      RaiseLeft(x, y, c, a, b, d);
      PutRight(x, y, a, b, d);
    }

    // The part of right_rotate before x is put below y.
    method RaiseLeft(x: Node, y: Node, ghost c: Context<Node>, ghost a: Tree<Node>, ghost b: Tree<Node>,
                     ghost d: Tree<Node>)
      requires Below(c, x) && x.parent == ParentOf(c) && Aside(c, x, y, a, b, d)
      requires Apart(a, x, b, y, d) && Linked(a) && Linked(b) && Linked(d) && HasParent(a, y) && HasParent(d, x)
      requires y.left == RootOf(a) && y.right == RootOf(b) && x.right == RootOf(d)
      modifies this`root, x, y, if b.Leaf? then {} else {b.at}, if c.Top? then {} else {c.at}
      ensures Below(c, y) && y.parent == ParentOf(c) && Disconnected(d, x, b, y, a)
      ensures y.left == RootOf(a) && x.left == RootOf(b) && x.right == RootOf(d)
    {
      assert allocated(PathNodes(c)) && (c.Top? || c.at in PathNodes(c)) && (b.Fork? ==> b.at in Nodes(b));
      assert allocated(Nodes(a)) && allocated(Nodes(b)) && allocated(Nodes(d));
      MoveToLeft(x, y, a, b, d);
      Redirect(x, y, c);
    }

    // The same links, seen from one level further up.
    lemma {:induction false} Up(c: Context<Node>, t: Tree<Node>)
      requires At(c, t) && !c.Top?
      ensures At(Lift(c, t).0, Lift(c, t).1)
      ensures Nodes(Lift(c, t).1) + PathNodes(Lift(c, t).0) == Nodes(t) + PathNodes(c)
    {
    }

    // The same links, seen from one level further down.
    lemma {:induction false} Down(c: Context<Node>, t: Tree<Node>)
      requires At(c, t) && t.Fork?
      ensures At(InLeft(c, t.at, t.right), t.left) && At(InRight(c, t.left, t.at), t.right)
      ensures Nodes(t.left) + PathNodes(InLeft(c, t.at, t.right)) == Nodes(t) + PathNodes(c)
      ensures Nodes(t.right) + PathNodes(InRight(c, t.left, t.at)) == Nodes(t) + PathNodes(c)
    {
    }

    // An iteration of splay below the root: one rotation.
    method Zig(x: Node, ghost c: Context<Node>, ghost t: Tree<Node>)
      requires At(c, t) && t.Fork? && t.at == x && !c.Top? && c.up.Top?
      modifies this`root, Nodes(t), PathNodes(c)
      ensures At(Step(c, t).0, Step(c, t).1)
    {
      Up(c, t);
      var p: Node := x.parent;
      if p.left == x {
        RightRotate(p, Lift(c, t).0, Lift(c, t).1);
      } else {
        LeftRotate(p, Lift(c, t).0, Lift(c, t).1);
      }
    }

    // An iteration with x and its parent on the same side: the grandparent is rotated first.
    method ZigZig(x: Node, ghost c: Context<Node>, ghost t: Tree<Node>)
      requires At(c, t) && t.Fork? && t.at == x && !c.Top? && !c.up.Top? && c.InLeft? == c.up.InLeft?
      modifies this`root, Nodes(t), PathNodes(c)
      ensures At(Step(c, t).0, Step(c, t).1)
    {
      Up(c, t);
      Up(Lift(c, t).0, Lift(c, t).1);
      ghost var (up, s) := Rearranged(c, t);
      var p: Node := x.parent;
      var g: Node := p.parent;
      if p.left == x {
        RightRotate(g, up, s);
        RightRotate(x.parent, up, RotatedRight(s));
      } else {
        LeftRotate(g, up, s);
        LeftRotate(x.parent, up, RotatedLeft(s));
      }
    }

    // An iteration with x and its parent on different sides: the parent is rotated first.
    method ZigZag(x: Node, ghost c: Context<Node>, ghost t: Tree<Node>)
      requires At(c, t) && t.Fork? && t.at == x && !c.Top? && !c.up.Top? && c.InLeft? != c.up.InLeft?
      modifies this`root, Nodes(t), PathNodes(c)
      ensures At(Step(c, t).0, Step(c, t).1)
    {
      Up(c, t);
      ghost var (up, s) := Lift(c, t);
      Up(up, s);
      var p: Node := x.parent;
      if p.left == x {
        RightRotate(p, up, s);
        Up(up, RotatedRight(s));
        LeftRotate(x.parent, Lift(up, RotatedRight(s)).0, Lift(up, RotatedRight(s)).1);
      } else {
        LeftRotate(p, up, s);
        Up(up, RotatedLeft(s));
        RightRotate(x.parent, Lift(up, RotatedLeft(s)).0, Lift(up, RotatedLeft(s)).1);
      }
    }

    // Which of the links of x's parent and grandparent lead to x.
    lemma {:induction false} Sides(c: Context<Node>, t: Tree<Node>)
      requires At(c, t) && t.Fork? && !c.Top?
      ensures t.at.parent == c.at && c.at.parent == ParentOf(c.up)
      ensures c.at.left == t.at <==> c.InLeft?
      ensures c.at.right == t.at <==> c.InRight?
      ensures !c.up.Top? ==> (c.up.at.left == c.at <==> c.up.InLeft?) && (c.up.at.right == c.at <==> c.up.InRight?)
    {
      assert Around(c.up, c.at);
      assert c.InLeft? && c.right.Fork? ==> c.right.at in Nodes(c.right);
      assert c.InRight? && c.left.Fork? ==> c.left.at in Nodes(c.left);
      assert c.up.InLeft? && c.up.right.Fork? ==>
          c.up.right.at in Nodes(c.up.right) && c.up.right.at in PathNodes(c.up);
      assert c.up.InRight? && c.up.left.Fork? ==>
          c.up.left.at in Nodes(c.up.left) && c.up.left.at in PathNodes(c.up);
    }

    /** The body of the loop of splay. */
    method SplayStep(x: Node, ghost c: Context<Node>, ghost t: Tree<Node>)
      requires At(c, t) && t.Fork? && t.at == x && !c.Top?
      modifies this`root, Nodes(t), PathNodes(c)
      ensures At(Step(c, t).0, Step(c, t).1)
    {
      Sides(c, t);
      var p: Node := x.parent;
      if p.parent == null {
        Zig(x, c, t);
      } else if (p.left == x && p.parent.left == p) || (p.right == x && p.parent.right == p) {
        ZigZig(x, c, t);
      } else {
        ZigZag(x, c, t);
      }
    }

    /** splay: x comes to the root in the number of iterations that the amortised bound speaks of. */
    method Splay(x: Node, ghost c: Context<Node>, ghost t: Tree<Node>) returns (ghost iterations: nat)
      requires At(c, t) && t.Fork? && t.at == x
      modifies this`root, Nodes(t), PathNodes(c)
      ensures At(Top, Splayed(c, t)) && root == x && x.parent == null
      ensures iterations == Iterations(c)
    {
      ghost var d, s := c, t;
      iterations := 0;
      while x.parent != null
        invariant At(d, s) && s.Fork? && s.at == x && Splayed(d, s) == Splayed(c, t)
        invariant Nodes(s) + PathNodes(d) == Nodes(t) + PathNodes(c)
        invariant iterations + Iterations(d) == Iterations(c)
        decreases Depth(d)
      {
        SplayStep(x, d, s);
        StepRises(d, s);
        StepNodes(d, s);
        d, s := Step(d, s).0, Step(d, s).1;
        iterations := iterations + 1;
      }
    }

    // ---------------------------------------------------------------- the dictionary

    /** Links, key order, node count and contents agree. */
    ghost predicate Valid()
      reads this, Nodes(shape)
    {
      At(Top, shape) && Counted()
    }

    // Key order, node count and contents agree.
    ghost predicate Counted()
      reads this`shape, this`dict, this`nodeCount
    {
      Increasing(InOrder(shape)) && Means(InOrder(shape), dict) && nodeCount == |InOrder(shape)|
    }

    constructor ()
      ensures Valid() && dict == map[] && shape == Leaf && nodeCount == 0
    {
      root, nodeCount := null, 0;
      shape, dict := Leaf, map[];
    }

    // The descent of all operations has come to t: the key is not outside t.
    ghost predicate Searched(key: int, c: Context<Node>, t: Tree<Node>)
      reads this, Nodes(t), PathNodes(c)
    {
      && At(c, t) && Plug(c, t) == shape && Descend(key, c, t) == Descend(key, Top, shape)
      && Before(c) + InOrder(t) + After(c) == InOrder(shape) && Nodes(t) + PathNodes(c) == Nodes(shape)
      && KeyBetween(key, Before(c), After(c))
    }

    lemma {:induction false} SearchStart(key: int)
      requires Valid()
      ensures Searched(key, Top, shape)
    {
      assert [] + InOrder(shape) + [] == InOrder(shape);
    }

    // One step of the descent.
    lemma {:induction false} SearchRight(key: int, c: Context<Node>, t: Tree<Node>)
      requires Searched(key, c, t) && Increasing(InOrder(shape)) && t.Fork? && t.at.key < key
      ensures Searched(key, InRight(c, t.left, t.at), t.right)
    {
      Down(c, t);
      LiftInOrder(InRight(c, t.left, t.at), t.right);
      BetweenRight(key, Before(c), InOrder(t.left), t.at, InOrder(t.right), After(c));
    }

    lemma {:induction false} SearchLeft(key: int, c: Context<Node>, t: Tree<Node>)
      requires Searched(key, c, t) && Increasing(InOrder(shape)) && t.Fork? && key < t.at.key
      ensures Searched(key, InLeft(c, t.at, t.right), t.left)
    {
      Down(c, t);
      LiftInOrder(InLeft(c, t.at, t.right), t.left);
      BetweenLeft(key, Before(c), InOrder(t.left), t.at, InOrder(t.right), After(c));
    }

    // The descent has met the key, or has come to an end without it.
    lemma {:induction false} SearchEnd(key: int, c: Context<Node>, t: Tree<Node>)
      requires Searched(key, c, t) && Means(InOrder(shape), dict)
      ensures t.Fork? && t.at.key == key ==> key in dict && dict[key] == t.at.record
      ensures t.Leaf? ==> key !in dict
      ensures t.Leaf? || t.at.key == key ==> PathOf(shape, key) == c && FoundAt(shape, key) == t
    {
      if t.Fork? {
        assert t.at in InOrder(t);
        assert t.at in InOrder(shape);
      }
    }

    /** tree_find, with the number of turns of its loop that go further down. */
    method Find(key: int) returns (record: int, ghost steps: nat)
      requires Valid()
      ensures record == if key in dict then dict[key] else NULL_RECORD
      ensures steps == Depth(PathOf(shape, key))
    {
      var z := root;
      ghost var c, t := Top, shape;
      steps := 0;
      SearchStart(key);
      while z != null
        invariant Searched(key, c, t) && z == RootOf(t) && steps == Depth(c)
        decreases t
      {
        if key == z.key {
          SearchEnd(key, c, t);
          return z.record, steps;
        }
        steps := steps + 1;
        if key > z.key {
          SearchRight(key, c, t);
          c, t := InRight(c, t.left, t.at), t.right;
          z := z.right;
        } else {
          SearchLeft(key, c, t);
          c, t := InLeft(c, t.at, t.right), t.left;
          z := z.left;
        }
      }
      SearchEnd(key, c, t);
      return NULL_RECORD, steps;
    }

    /** tree_find_nearest: the record of the largest key that is not above the given one. */
    method FindNearest(key: int) returns (record: int, ghost best: int)
      requires Valid()
      ensures (exists k :: k in dict && k <= key) ==>
                best in dict && best <= key && record == dict[best] && forall k :: k in dict && k <= key ==> k <= best
      ensures !(exists k :: k in dict && k <= key) ==> record == NULL_RECORD
    {
      var z := root;
      var n: Node? := null;
      ghost var c, t := Top, shape;
      SearchStart(key);
      while z != null
        invariant Searched(key, c, t) && z == RootOf(t) && n == LastOf(Before(c))
        decreases t
      {
        if key == z.key {
          SearchEnd(key, c, t);
          return z.record, key;
        }
        if key > z.key {
          if n == null || n.key < z.key {
            n := z;
          }
          SearchRight(key, c, t);
          NextIsLarger(c, t);
          c, t := InRight(c, t.left, t.at), t.right;
          z := z.right;
        } else {
          SearchLeft(key, c, t);
          c, t := InLeft(c, t.at, t.right), t.left;
          z := z.left;
        }
      }
      NearestAt(key, c);
      return if n == null then NULL_RECORD else n.record, if n == null then 0 else n.key;
    }

    // The node where the search turns right is larger than those where it turned right before.
    lemma {:induction false} NextIsLarger(c: Context<Node>, t: Tree<Node>)
      requires t.Fork? && Before(c) + InOrder(t) + After(c) == InOrder(shape) && Increasing(InOrder(shape))
      ensures LastOf(Before(InRight(c, t.left, t.at))) == t.at
      ensures LastOf(Before(c)) != null ==> LastOf(Before(c)).key < t.at.key
    {
      InsideOrder(Before(c), InOrder(t.left), t.at, InOrder(t.right), After(c));
    }

    // At the end of the search the last node before the gap is the nearest one.
    lemma {:induction false} NearestAt(key: int, c: Context<Node>)
      requires Counted() && Searched(key, c, Leaf)
      ensures LastOf(Before(c)) == null ==> forall k :: k in dict ==> key < k
      ensures var n := LastOf(Before(c));
              n != null ==> n.key in dict && n.key < key && dict[n.key] == n.record
                            && forall k :: k in dict && k <= key ==> k <= n.key
    {
      assert Before(c) + InOrder(Leaf) + After(c) == Before(c) + After(c);
      Nearest(key, Before(c), After(c), dict);
    }

    /** The descent of tree_insert and tree_remove: to the node with the key, or to where it belongs below p. */
    method FindPlace(key: int) returns (z: Node?, p: Node?, ghost c: Context<Node>, ghost t: Tree<Node>)
      requires Valid()
      ensures Valid() && Searched(key, c, t) && z == RootOf(t) && p == ParentOf(c) && (z != null ==> z.key == key)
      ensures c == PathOf(shape, key) && t == FoundAt(shape, key) && (key in dict <==> t.Fork?)
    {
      z, p, c, t := root, null, Top, shape;
      SearchStart(key);
      while z != null && z.key != key
        invariant Valid() && Searched(key, c, t) && z == RootOf(t) && p == ParentOf(c)
        decreases t
      {
        p := z;
        if key > z.key {
          SearchRight(key, c, t);
          c, t := InRight(c, t.left, t.at), t.right;
          z := z.right;
        } else {
          SearchLeft(key, c, t);
          c, t := InLeft(c, t.at, t.right), t.left;
          z := z.left;
        }
      }
      SearchEnd(key, c, t);
    }

    /** tree_insert: false, and no change, exactly when the key is there already; otherwise the new node becomes the
        root of the tree that splaying it up its search path gives. */
    method Insert(key: int, record: int) returns (inserted: bool, ghost iterations: nat)
      requires Valid()
      modifies this, Nodes(shape)
      ensures Valid() && (inserted <==> key !in old(dict))
      ensures inserted ==> dict == old(dict)[key := record] && root != null && root.key == key && root.record == record
      ensures inserted ==> fresh(root) && shape == Splayed(PathOf(old(shape), key), Fork(Leaf, root, Leaf))
      ensures !inserted ==> dict == old(dict) && shape == old(shape) && root == old(root)
      ensures inserted <==> FoundAt(old(shape), key).Leaf?
      ensures iterations == if inserted then Iterations(PathOf(old(shape), key)) else 0
      ensures nodeCount == old(nodeCount) + if inserted then 1 else 0
      ensures inserted ==> Nodes(shape) == old(Nodes(shape)) + {root}
      ensures inserted ==> iterations + Potential(shape) <= old(Potential(shape) + 4 * Rank(Size(shape) + 1) + 1)
    {
      ghost var shape1 := shape;
      var z, p, c, t := FindPlace(key);
      if z != null {
        return false, 0;
      }
      iterations := InsertAt(key, record, p, c);
      InsertPays(shape1, key, root, shape);
      return true, iterations;
    }

    method InsertAt(key: int, record: int, p: Node?, ghost c: Context<Node>) returns (ghost iterations: nat)
      requires Counted() && Searched(key, c, Leaf) && p == ParentOf(c)
      requires c == PathOf(shape, key) && FoundAt(shape, key).Leaf?
      modifies this, Nodes(shape)
      ensures Valid() && dict == old(dict)[key := record] && root != null && root.key == key && root.record == record
      ensures fresh(root) && shape == Splayed(c, Fork(Leaf, root, Leaf)) && iterations == Iterations(c)
      ensures nodeCount == old(nodeCount) + 1 && Nodes(shape) == old(Nodes(shape)) + {root}
    {
      ghost var shape1 := shape;
      assert PathNodes(c) == Nodes(shape) && (c.Top? || c.at in PathNodes(c));
      var n;
      ghost var t;
      n, t := Attach(key, record, p, c);
      iterations := Adopt(n, c, t);
      InsertedNodes(shape1, key, n, shape);
    }

    // The node n, which hangs below c but is not counted yet, is brought to the root.
    method Adopt(n: Node, ghost c: Context<Node>, ghost t: Tree<Node>) returns (ghost iterations: nat)
      requires At(c, t) && Single(t, n) && Plug(c, Leaf) == shape && KeyBetween(n.key, Before(c), After(c))
      requires Counted()
      modifies this, n, PathNodes(c)
      ensures Valid() && root == n && dict == old(dict)[n.key := n.record]
      ensures shape == Splayed(c, t) && iterations == Iterations(c)
    {
      InsertedShape(c, t, n, shape, dict);
      iterations := Splay(n, c, t);
      nodeCount := nodeCount + 1;
      shape, dict := Splayed(c, t), dict[n.key := n.record];
    }

    // A new node at the end of the descent.
    method Attach(key: int, record: int, p: Node?, ghost c: Context<Node>) returns (z: Node, ghost t: Tree<Node>)
      requires Searched(key, c, Leaf) && p == ParentOf(c)
      modifies this`root, if p == null then {} else {p}
      ensures fresh(z) && z.key == key && z.record == record && t == Fork(Leaf, z, Leaf) && Single(t, z) && At(c, t)
    {
      assert allocated(PathNodes(c)) && (c.Top? || c.at in PathNodes(c));
      if !c.Top? {
        ParentSide(key, c);
      }
      z := new Node(key, record);
      z.parent := p;
      if p == null {
        root := z;
      } else if p.key < z.key {
        p.right := z;
      } else {
        p.left := z;
      }
      t := Fork(Leaf, z, Leaf);
    }

    // On which side of its parent a missing key belongs.
    lemma {:induction false} ParentSide(key: int, c: Context<Node>)
      requires Searched(key, c, Leaf) && !c.Top?
      ensures if c.InRight? then c.at.key < key else key < c.at.key
    {
      assert c.InRight? ==> c.at in Before(c);
      assert c.InLeft? ==> c.at in After(c);
    }

    /** replace: the subtree with root v takes the place of u. */
    method Replace(u: Node, v: Node?, ghost c: Context<Node>, ghost s: Tree<Node>)
      requires Below(c, u) && u.parent == ParentOf(c) && u !in PathNodes(c)
      requires v == RootOf(s) && Linked(s) && Nodes(s) !! PathNodes(c)
      modifies this`root, if c.Top? then {} else {c.at}, if v == null then {} else {v}
      ensures At(c, s)
      ensures v != null ==> v.left == old(v.left) && v.right == old(v.right)
      ensures !c.Top? && c.at != u ==> c.at.parent == old(c.at.parent) && (c.InLeft? ==> c.at.right == old(c.at.right))
    {
      assert allocated(PathNodes(c)) && allocated(Nodes(s)) && (c.Top? || c.at in PathNodes(c));
      assert v != null ==> v in Nodes(s);
      Redirect(u, v, c);
      if v != null {
        v.parent := u.parent;
      }
    }

    /** subtree_minimum: the leftmost node below u, k levels down. */
    method SubtreeMinimum(u: Node, ghost c: Context<Node>, ghost t: Tree<Node>)
      returns (y: Node, ghost d: Context<Node>, ghost s: Tree<Node>, ghost k: nat)
      requires At(c, t) && t.Fork? && t.at == u
      ensures y == First(t) && y.left == null
      ensures At(d, s) && s.Fork? && s.at == y && s.left.Leaf? && Nodes(s) + PathNodes(d) == Nodes(t) + PathNodes(c)
      ensures k <= Depth(d) && Lifted(d, s.right, k) == (c, WithoutFirst(t))
      ensures if k == 0 then d == c && s == t else d.InLeft? && d.at in Nodes(t)
    {
      y, d, s, k := u, c, t, 0;
      while y.left != null
        invariant At(d, s) && s.Fork? && s.at == y && First(s) == First(t)
        invariant k <= Depth(d) && Lifted(d, WithoutFirst(s), k) == (c, WithoutFirst(t))
        invariant Nodes(s) + PathNodes(d) == Nodes(t) + PathNodes(c)
        invariant Nodes(s) <= Nodes(t) && if k == 0 then d == c && s == t else d.InLeft? && d.at in Nodes(t)
        decreases s
      {
        Down(d, s);
        d, s, k := InLeft(d, s.at, s.right), s.left, k + 1;
        y := y.left;
      }
    }

    // The same links, seen from k levels further up.
    lemma {:induction false} UpAll(c: Context<Node>, t: Tree<Node>, k: nat)
      requires At(c, t) && k <= Depth(c)
      ensures At(Lifted(c, t, k).0, Lifted(c, t, k).1)
      ensures Nodes(Lifted(c, t, k).1) + PathNodes(Lifted(c, t, k).0) == Nodes(t) + PathNodes(c)
      decreases k
    {
      if k > 0 {
        Up(c, t);
        UpAll(Lift(c, t).0, Lift(c, t).1, k - 1);
      }
    }

    /** tree_remove: takes the key out and returns its record, or NULL and no change when it is not there.  The tree
        is the one that splaying the node up its path and joining its subtrees gives. */
    method Remove(key: int) returns (record: int, ghost iterations: nat)
      requires Valid()
      modifies this, Nodes(shape)
      ensures Valid() && dict == old(dict) - {key}
      ensures record == old(if key in dict then dict[key] else NULL_RECORD)
      ensures key in old(dict) <==> FoundAt(old(shape), key).Fork?
      ensures key in old(dict) ==> shape == WithoutRoot(Splayed(PathOf(old(shape), key), FoundAt(old(shape), key)))
      ensures key in old(dict) ==> Pruned(Splayed(PathOf(old(shape), key), FoundAt(old(shape), key)), shape)
      ensures forall i, k {:trigger i in old(dict), k in old(dict)} ::
                key in old(dict) && i in old(dict) && k in old(dict) && i < key < k ==>
                root != null && key < root.key <= k
      ensures key !in old(dict) ==> shape == old(shape) && root == old(root)
      ensures iterations == if key in old(dict) then Iterations(PathOf(old(shape), key)) else 0
      ensures nodeCount == old(nodeCount - if key in dict then 1 else 0)
      ensures Nodes(shape) <= old(Nodes(shape))
      ensures key in old(dict) ==> iterations + Potential(shape) <= old(Potential(shape) + 3 * Rank(Size(shape)) + 1)
    {
      ghost var shape1 := shape;
      var z, p, c, t := FindPlace(key);
      SearchEnd(key, c, t);
      if z == null {
        return NULL_RECORD, 0;
      }
      iterations := SplayFound(z, c, t);
      RemoveRoot(z);
      RemovedNodes(shape1, key, shape);
      RemovePays(shape1, key, shape);
      return z.record, iterations;
    }

    // The splay in tree_remove.
    method SplayFound(z: Node, ghost c: Context<Node>, ghost t: Tree<Node>) returns (ghost iterations: nat)
      requires Counted() && Searched(z.key, c, t) && z == RootOf(t)
      modifies this`root, this`shape, Nodes(shape)
      ensures Valid() && root == z && Nodes(shape) == old(Nodes(shape))
      ensures shape == Splayed(c, t) && iterations == Iterations(c)
    {
      ghost var t2 := Splayed(c, t);
      SplayedNodes(c, t);
      iterations := Splay(z, c, t);
      shape := t2;
    }

    // The part of tree_remove behind the splay.
    method RemoveRoot(z: Node)
      requires Valid() && root == z
      modifies this, Nodes(shape)
      ensures Valid() && dict == old(dict) - {z.key} && shape == WithoutRoot(old(shape)) && Pruned(old(shape), shape)
      ensures forall i, k {:trigger i in old(dict), k in old(dict)} ::
                i in old(dict) && k in old(dict) && i < z.key < k ==> root != null && z.key < root.key <= k
    {
      ghost var a, b := shape.left, shape.right;
      Successor(a, z, b, dict);
      assert InOrder(shape) == InOrder(a) + [z] + InOrder(b);
      Removed(InOrder(a), InOrder(b), z, dict);
      JoinedInOrder(a, z, b);
      Unlink(z, a, b);
      nodeCount := nodeCount - 1;
      shape, dict := WithoutRoot(shape), dict - {z.key};
    }

    // The root z leaves the tree; its subtrees a and b are joined.
    method Unlink(z: Node, ghost a: Tree<Node>, ghost b: Tree<Node>)
      requires At(Top, Fork(a, z, b))
      modifies this`root, z, Nodes(a), Nodes(b)
      ensures At(Top, WithoutRoot(Fork(a, z, b)))
    {
      Down(Top, Fork(a, z, b));
      if z.left == null {
        Replace(z, z.right, Top, b);
      } else if z.right == null {
        Replace(z, z.left, Top, a);
      } else {
        FirstNode(b);
        var y := TakeMinimum(z, a, b);
        Supplant(z, y, a, WithoutFirst(b));
      }
    }

    // z is the root with left subtree a, and y the root of a separate tree with right subtree b only.
    ghost predicate Ripe(z: Node, y: Node, a: Tree<Node>, b: Tree<Node>)
      reads this, z, y, Nodes(a), Nodes(b)
    {
      && Linked(a) && HasParent(a, z) && z.left == RootOf(a) && root == z && z.parent == null
      && Linked(Fork(Leaf, y, b)) && Nodes(b) !! Nodes(a) && y !in Nodes(a) && z != y && z !in Nodes(b)
    }

    // The smallest node y on the right of the root z comes to stand above the rest of the right subtree.
    method TakeMinimum(z: Node, ghost a: Tree<Node>, ghost b: Tree<Node>) returns (y: Node)
      requires At(Top, Fork(a, z, b)) && b.Fork?
      modifies this`root, Nodes(a), Nodes(b), z
      ensures y == First(b) && Ripe(z, y, a, WithoutFirst(b))
    {
      ghost var c := InRight(Top, a, z);
      Down(Top, Fork(a, z, b));
      ghost var d, s, k;
      y, d, s, k := SubtreeMinimum(z.right, c, b);
      FirstNode(b);
      if y.parent != z {
        CutMinimum(y, c, d, s, k, WithoutFirst(b));
        GiveRight(z, y, a, WithoutFirst(b));
      }
    }

    // y, which has left the tree, takes over the right subtree b of z.
    method GiveRight(z: Node, y: Node, ghost a: Tree<Node>, ghost b: Tree<Node>)
      requires At(InRight(Top, a, z), b) && b.Fork? && y.left == null && y != z && y !in Nodes(a) && y !in Nodes(b)
      modifies y, b.at
      ensures Ripe(z, y, a, b)
    {
      assert b.at in Nodes(b) && z in PathNodes(InRight(Top, a, z))
             && Origin(InRight(Top, a, z), b.at) == Origin(Top, z);
      y.right := z.right;
      y.right.parent := y;
    }

    // The subtree on the right of y takes the place of y.
    method CutMinimum(y: Node, ghost c: Context<Node>, ghost d: Context<Node>, ghost s: Tree<Node>, ghost k: nat,
                      ghost t: Tree<Node>)
      requires At(d, s) && s.Fork? && s.at == y && s.left.Leaf? && d.InLeft?
      requires k <= Depth(d) && Lifted(d, s.right, k) == (c, t)
      modifies this`root, Nodes(s), PathNodes(d)
      ensures At(c, t) && y.left == null && Nodes(t) + PathNodes(c) == Nodes(s.right) + PathNodes(d)
    {
      assert s.right.Fork? ==> s.right.at in Nodes(s.right);
      Replace(y, y.right, d, s.right);
      UpAll(d, s.right, k);
    }

    // y takes the place of the root z, with z's left subtree.
    method Supplant(z: Node, y: Node, ghost a: Tree<Node>, ghost b: Tree<Node>)
      requires Ripe(z, y, a, b) && a.Fork?
      modifies this`root, y, a.at
      ensures At(Top, Fork(a, y, b))
    {
      assert allocated(Nodes(a)) && allocated(Nodes(b));
      Replace(z, y, Top, Fork(Leaf, y, b));
      y.left := z.left;
      y.left.parent := y;
    }
  }

  lemma {:induction false} InOrderNodes(t: Tree<Node>)
    ensures forall n :: n in InOrder(t) <==> n in Nodes(t)
  {
    match t
    case Leaf =>
    case Fork(l, n, r) =>
      InOrderNodes(l);
      InOrderNodes(r);
  }

  lemma {:induction false} BesideNodes(c: Context<Node>)
    ensures forall n :: n in Before(c) || n in After(c) <==> n in PathNodes(c)
  {
    match c
    case Top =>
    case InLeft(up, n, r) =>
      InOrderNodes(r);
      BesideNodes(up);
    case InRight(up, l, n) =>
      InOrderNodes(l);
      BesideNodes(up);
  }

  lemma {:induction false} NodeInOrder(c: Context<Node>, t: Tree<Node>, n: Node)
    ensures n in Before(c) + InOrder(t) + After(c) <==> n in Nodes(t) + PathNodes(c)
  {
    InOrderNodes(t);
    BesideNodes(c);
  }

  // A step works with the nodes that are there.
  lemma {:induction false} StepNodes(c: Context<Node>, t: Tree<Node>)
    requires t.Fork? && !c.Top?
    ensures Nodes(Step(c, t).1) + PathNodes(Step(c, t).0) == Nodes(t) + PathNodes(c)
  {
    StepInOrder(c, t);
    SameOrderSameNodes(c, t, Step(c, t).0, Step(c, t).1);
  }

  lemma {:induction false} SameOrderSameNodes(c1: Context<Node>, t1: Tree<Node>, c2: Context<Node>, t2: Tree<Node>)
    requires Before(c1) + InOrder(t1) + After(c1) == Before(c2) + InOrder(t2) + After(c2)
    ensures Nodes(t1) + PathNodes(c1) == Nodes(t2) + PathNodes(c2)
  {
    NodesWithin(c1, t1, c2, t2);
    NodesWithin(c2, t2, c1, t1);
  }

  lemma {:induction false} NodesWithin(c1: Context<Node>, t1: Tree<Node>, c2: Context<Node>, t2: Tree<Node>)
    requires Before(c1) + InOrder(t1) + After(c1) == Before(c2) + InOrder(t2) + After(c2)
    ensures Nodes(t1) + PathNodes(c1) <= Nodes(t2) + PathNodes(c2)
  {
    forall n | n in Nodes(t1) + PathNodes(c1) ensures n in Nodes(t2) + PathNodes(c2) {
      NodeInOrder(c1, t1, n);
      NodeInOrder(c2, t2, n);
    }
  }

  // Three subtrees and two nodes, all different.
  ghost predicate Apart(a: Tree<Node>, x: Node, b: Tree<Node>, y: Node, d: Tree<Node>) {
    && x != y && x !in Nodes(a) && x !in Nodes(b) && x !in Nodes(d)
    && y !in Nodes(a) && y !in Nodes(b) && y !in Nodes(d)
    && Nodes(a) !! Nodes(b) && Nodes(a) !! Nodes(d) && Nodes(b) !! Nodes(d)
  }

  // Two nodes and three subtrees that are not part of the context.
  ghost predicate Aside(c: Context<Node>, x: Node, y: Node, a: Tree<Node>, b: Tree<Node>, d: Tree<Node>) {
    && x !in PathNodes(c) && y !in PathNodes(c)
    && Nodes(a) !! PathNodes(c) && Nodes(b) !! PathNodes(c) && Nodes(d) !! PathNodes(c)
  }

  // The left subtree b of y becomes the right subtree of x, and y gets x's parent.
  method MoveToRight(x: Node, y: Node, ghost a: Tree<Node>, ghost b: Tree<Node>, ghost d: Tree<Node>)
    requires Apart(a, x, b, y, d) && Linked(a) && Linked(b) && Linked(d) && y.left == RootOf(b)
    modifies x`right, y`parent, if b.Leaf? then {} else {b.at}
    ensures Linked(a) && Linked(b) && Linked(d) && HasParent(b, x) && x.right == RootOf(b) && y.parent == x.parent
  {
    assert b.Fork? ==> b.at in Nodes(b);
    x.right := y.left;
    if y.left != null {
      y.left.parent := x;
    }
    y.parent := x.parent;
  }

  // a and b are the subtrees of x, and d the right or left one of y.
  ghost predicate Disconnected(a: Tree<Node>, x: Node, b: Tree<Node>, y: Node, d: Tree<Node>)
    reads Nodes(a), Nodes(b), Nodes(d)
  {
    Linked(a) && Linked(b) && Linked(d) && HasParent(a, x) && HasParent(b, x) && HasParent(d, y)
  }

  // x becomes the left child of y.
  method PutLeft(x: Node, y: Node, ghost a: Tree<Node>, ghost b: Tree<Node>, ghost d: Tree<Node>)
    requires Apart(a, x, b, y, d) && Disconnected(a, x, b, y, d)
    requires x.left == RootOf(a) && x.right == RootOf(b) && y.right == RootOf(d)
    modifies y`left, x`parent
    ensures Linked(Fork(Fork(a, x, b), y, d))
  {
    y.left := x;
    x.parent := y;
    assert Linked(Fork(a, x, b));
  }

  // The right subtree b of y becomes the left subtree of x, and y gets x's parent.
  method MoveToLeft(x: Node, y: Node, ghost a: Tree<Node>, ghost b: Tree<Node>, ghost d: Tree<Node>)
    requires Apart(a, x, b, y, d) && Linked(a) && Linked(b) && Linked(d) && y.right == RootOf(b)
    modifies x`left, y`parent, if b.Leaf? then {} else {b.at}
    ensures Linked(a) && Linked(b) && Linked(d) && HasParent(b, x) && x.left == RootOf(b) && y.parent == x.parent
  {
    assert b.Fork? ==> b.at in Nodes(b);
    x.left := y.right;
    if y.right != null {
      y.right.parent := x;
    }
    y.parent := x.parent;
  }

  // x becomes the right child of y.
  method PutRight(x: Node, y: Node, ghost a: Tree<Node>, ghost b: Tree<Node>, ghost d: Tree<Node>)
    requires Apart(a, x, b, y, d) && Disconnected(d, x, b, y, a)
    requires x.right == RootOf(d) && x.left == RootOf(b) && y.left == RootOf(a)
    modifies y`right, x`parent
    ensures Linked(Fork(a, y, Fork(b, x, d)))
  {
    y.right := x;
    x.parent := y;
    assert Linked(Fork(b, x, d));
  }

  // The parts of a tree with a right child, one by one.
  lemma {:induction false} RightChild(t: Tree<Node>)
    requires Linked(t) && t.Fork? && t.right.Fork?
    ensures var (a, x, b, y, d) := (t.left, t.at, t.right.left, t.right.at, t.right.right);
            && Nodes(RotatedLeft(t)) == Nodes(t) && y in Nodes(t) && (b.Fork? ==> b.at in Nodes(t))
            && Apart(a, x, b, y, d)
            && Nodes(a) <= Nodes(t) && Nodes(b) <= Nodes(t) && Nodes(d) <= Nodes(t)
            && Linked(a) && Linked(b) && Linked(d) && y.left == RootOf(b) && y.right == RootOf(d)
            && HasParent(a, x) && HasParent(d, y)
  {
    assert Linked(t.right);
  }

  // The parts of a tree with a left child, one by one.
  lemma {:induction false} LeftChild(t: Tree<Node>)
    requires Linked(t) && t.Fork? && t.left.Fork?
    ensures var (a, y, b, x, d) := (t.left.left, t.left.at, t.left.right, t.at, t.right);
            && Nodes(RotatedRight(t)) == Nodes(t) && y in Nodes(t) && (b.Fork? ==> b.at in Nodes(t))
            && Apart(a, x, b, y, d)
            && Nodes(a) <= Nodes(t) && Nodes(b) <= Nodes(t) && Nodes(d) <= Nodes(t)
            && Linked(a) && Linked(b) && Linked(d) && y.left == RootOf(a) && y.right == RootOf(b)
            && HasParent(a, y) && HasParent(d, x)
  {
    assert Linked(t.left);
  }

  // ------------------------------------------------------------------ searching

  // Where the search for a key that starts at t, below c, comes to an end: at the key, or at a leaf.
  ghost function Descend(key: int, c: Context<Node>, t: Tree<Node>): (Context<Node>, Tree<Node>)
    decreases t
  {
    if t.Leaf? || t.at.key == key then (c, t)
    else if t.at.key < key then Descend(key, InRight(c, t.left, t.at), t.right)
    else Descend(key, InLeft(c, t.at, t.right), t.left)
  }

  // The search path of a key.
  ghost function PathOf(shape: Tree<Node>, key: int): Context<Node> {
    Descend(key, Top, shape).0
  }

  // The subtree with the key at its root, or Leaf.
  ghost function FoundAt(shape: Tree<Node>, key: int): Tree<Node> {
    Descend(key, Top, shape).1
  }

  lemma {:induction false} DescendPlugs(key: int, c: Context<Node>, t: Tree<Node>)
    ensures var (d, s) := Descend(key, c, t); Plug(d, s) == Plug(c, t) && (s.Fork? ==> s.at.key == key)
    decreases t
  {
    if t.Fork? && t.at.key < key {
      DescendPlugs(key, InRight(c, t.left, t.at), t.right);
    } else if t.Fork? && key < t.at.key {
      DescendPlugs(key, InLeft(c, t.at, t.right), t.left);
    }
  }

  // The tree after an insertion has one node more.
  lemma {:induction false} InsertedNodes(s1: Tree<Node>, key: int, n: Node, s2: Tree<Node>)
    requires FoundAt(s1, key).Leaf? && s2 == Splayed(PathOf(s1, key), Fork(Leaf, n, Leaf))
    ensures |InOrder(s2)| == |InOrder(s1)| + 1 && Nodes(s2) == Nodes(s1) + {n}
  {
    var c, leaf := PathOf(s1, key), Fork(Leaf, n, Leaf);
    DescendPlugs(key, Top, s1);
    SplayedNodes(c, leaf);
    InOrderPlug(c, Leaf);
    SingleNode(n);
    assert Before(Top) + InOrder(s1) + After(Top) == Before(c) + InOrder(Leaf) + After(c);
    SameOrderSameNodes(Top, s1, c, Leaf);
  }

  lemma {:induction false} SingleNode(n: Node)
    ensures Single(Fork(Leaf, n, Leaf), n)
  {
  }

  /** An insertion pays for its splay by 4 * rank(n + 1) + 1 and the potential. */
  lemma {:induction false} InsertPays(s1: Tree<Node>, key: int, n: Node, s2: Tree<Node>)
    requires FoundAt(s1, key).Leaf? && s2 == Splayed(PathOf(s1, key), Fork(Leaf, n, Leaf))
    ensures Iterations(PathOf(s1, key)) + Potential(s2) <= Potential(s1) + 4 * Rank(Size(s1) + 1) + 1
  {
    DescendPlugs(key, Top, s1);
    InsertCost(PathOf(s1, key), Fork(Leaf, n, Leaf));
  }

  // The tree after a removal has one node less.
  lemma {:induction false} RemovedNodes(s1: Tree<Node>, key: int, s2: Tree<Node>)
    requires FoundAt(s1, key).Fork? && s2 == WithoutRoot(Splayed(PathOf(s1, key), FoundAt(s1, key)))
    ensures |InOrder(s2)| == |InOrder(s1)| - 1 && Nodes(s2) <= Nodes(s1)
  {
    var c, t := PathOf(s1, key), FoundAt(s1, key);
    var s := Splayed(c, t);
    DescendPlugs(key, Top, s1);
    SplayedNodes(c, t);
    InOrderPlug(c, t);
    JoinedInOrder(s.left, s.at, s.right);
    JoinedNodes(s);
    assert Before(Top) + InOrder(s1) + After(Top) == Before(c) + InOrder(t) + After(c);
    SameOrderSameNodes(Top, s1, c, t);
  }

  /** A removal pays for its splay by 3 * rank(n) + 1 and the potential. */
  lemma {:induction false} RemovePays(s1: Tree<Node>, key: int, s2: Tree<Node>)
    requires FoundAt(s1, key).Fork? && s2 == WithoutRoot(Splayed(PathOf(s1, key), FoundAt(s1, key)))
    ensures Iterations(PathOf(s1, key)) + Potential(s2) <= Potential(s1) + 3 * Rank(Size(s1)) + 1
  {
    var c, t := PathOf(s1, key), FoundAt(s1, key);
    var s := Splayed(c, t);
    DescendPlugs(key, Top, s1);
    SplayCost(c, t);
    JoinedInOrder(s.left, s.at, s.right);
  }

  lemma {:induction false} JoinedNodes(t: Tree<Node>)
    requires t.Fork?
    ensures Nodes(WithoutRoot(t)) <= Nodes(t)
  {
    if t.right.Fork? {
      FirstNode(t.right);
    }
  }

  // t2 is t without its root: one subtree when the other is empty, and else the left one beside what the first node of
  // the right one leaves.
  ghost predicate Pruned(t: Tree<Node>, t2: Tree<Node>) {
    && t.Fork?
    && (t.left.Leaf? ==> t2 == t.right)
    && (t.left.Fork? && t.right.Leaf? ==> t2 == t.left)
    && (t.left.Fork? && t.right.Fork? ==>
          t2.Fork? && t2.left == t.left && [t2.at] + InOrder(t2.right) == InOrder(t.right))
  }

  /** The node that takes the root's place has the next larger key. */
  lemma {:induction false} Successor(a: Tree<Node>, z: Node, b: Tree<Node>, dict: map<int, int>)
    requires Increasing(InOrder(Fork(a, z, b))) && Means(InOrder(Fork(a, z, b)), dict)
    ensures Pruned(Fork(a, z, b), WithoutRoot(Fork(a, z, b)))
    ensures forall i, k {:trigger i in dict, k in dict} :: i in dict && k in dict && i < z.key < k ==>
              a.Fork? && b.Fork? && z.key < First(b).key <= k
  {
    if b.Fork? {
      FirstInOrder(b);
    }
    forall i, k {:trigger i in dict, k in dict} | i in dict && k in dict && i < z.key < k
      ensures a.Fork? && b.Fork? && z.key < First(b).key <= k
    {
      Between(InOrder(a), z, InOrder(b), dict, i);
      Between(InOrder(a), z, InOrder(b), dict, k);
      var m := NodeWith(InOrder(b), k);
      FirstLeast(InOrder(a), z, InOrder(b), m);
    }
  }

  // Smaller keys stand in front of z and larger ones behind it.
  lemma {:induction false} Between(b: seq<Node>, z: Node, a: seq<Node>, dict: map<int, int>, k: int)
    requires Increasing(b + [z] + a) && Means(b + [z] + a, dict) && k in dict
    ensures k < z.key ==> HasKey(b, k)
    ensures z.key < k ==> HasKey(a, k)
  {
    BesideOrder(b, z, a);
    assert HasKey(b + [z] + a, k);
    var m :| m in b + [z] + a && m.key == k;
    assert m in b || m == z || m in a;
  }

  lemma NodeWith(s: seq<Node>, k: int) returns (m: Node)
    requires HasKey(s, k)
    ensures m in s && m.key == k
  {
    m :| m in s && m.key == k;
  }

  lemma {:induction false} FirstLeast(b: seq<Node>, z: Node, a: seq<Node>, m: Node)
    requires Increasing(b + [z] + a) && m in a
    ensures a != [] && z.key < a[0].key <= m.key
  {
    var s := b + [z] + a;
    var i := PositionIn(a, m);
    assert s[|b|] == z && s[|b| + 1] == a[0] && s[|b| + 1 + i] == m;
  }

  // ------------------------------------------------------------------ key order and contents

  ghost predicate Increasing(s: seq<Node>) {
    forall i, j {:trigger s[i], s[j]} :: 0 <= i < j < |s| ==> s[i].key < s[j].key
  }

  /** The nodes of s hold exactly the pairs of the map. */
  ghost predicate Means(s: seq<Node>, dict: map<int, int>) {
    && (forall n :: n in s ==> n.key in dict && dict[n.key] == n.record)
    && (forall k :: k in dict ==> HasKey(s, k))
  }

  ghost function LastOf(s: seq<Node>): Node? {
    if s == [] then null else s[|s| - 1]
  }

  ghost predicate HasKey(s: seq<Node>, k: int) {
    exists n :: n in s && n.key == k
  }

  // How a node compares with the others.
  lemma {:induction false} BesideOrder(b: seq<Node>, n: Node, a: seq<Node>)
    requires Increasing(b + [n] + a)
    ensures forall m :: m in b ==> m.key < n.key
    ensures forall m :: m in a ==> n.key < m.key
  {
    var s := b + [n] + a;
    var i := |b|;
    assert s[i] == n;
    forall m | m in b ensures m.key < n.key {
      var j := PositionIn(b, m);
      assert s[j] == m;
    }
    forall m | m in a ensures n.key < m.key {
      var j := PositionIn(a, m);
      assert s[i + 1 + j] == m;
    }
  }

  lemma {:induction false} InsideOrder(b: seq<Node>, l: seq<Node>, n: Node, r: seq<Node>, a: seq<Node>)
    requires Increasing(b + (l + [n] + r) + a)
    ensures forall m :: m in b || m in l ==> m.key < n.key
    ensures forall m :: m in r || m in a ==> n.key < m.key
  {
    assert b + (l + [n] + r) + a == (b + l) + [n] + (r + a);
    BesideOrder(b + l, n, r + a);
  }

  // The key is larger than all keys in b and smaller than all keys in a.
  ghost predicate KeyBetween(key: int, b: seq<Node>, a: seq<Node>) {
    (forall n :: n in b ==> n.key < key) && (forall n :: n in a ==> key < n.key)
  }

  lemma {:induction false} BetweenRight(key: int, b: seq<Node>, l: seq<Node>, n: Node, r: seq<Node>, a: seq<Node>)
    requires Increasing(b + (l + [n] + r) + a) && KeyBetween(key, b, a) && n.key < key
    ensures KeyBetween(key, b + l + [n], a)
  {
    InsideOrder(b, l, n, r, a);
  }

  lemma {:induction false} BetweenLeft(key: int, b: seq<Node>, l: seq<Node>, n: Node, r: seq<Node>, a: seq<Node>)
    requires Increasing(b + (l + [n] + r) + a) && KeyBetween(key, b, a) && key < n.key
    ensures KeyBetween(key, b, [n] + r + a)
  {
    InsideOrder(b, l, n, r, a);
  }

  // The last node of b, in front of the gap where a missing key would be, is the nearest one.
  lemma {:induction false} Nearest(key: int, b: seq<Node>, a: seq<Node>, dict: map<int, int>)
    requires Increasing(b + a) && Means(b + a, dict) && KeyBetween(key, b, a)
    ensures LastOf(b) == null ==> forall k :: k in dict ==> key < k
    ensures var n := LastOf(b);
            n != null ==> n.key in dict && n.key < key && dict[n.key] == n.record
                          && forall k :: k in dict && k <= key ==> k <= n.key
  {
    var s := b + a;
    forall k | k in dict && k <= key ensures b != [] && k <= b[|b| - 1].key {
      assert HasKey(s, k);
      var m :| m in s && m.key == k;
      var i := PositionIn(b, m);
      assert s[i] == m && s[|b| - 1] == b[|b| - 1];
    }
    if b != [] {
      assert b[|b| - 1] in b && b[|b| - 1] in s;
    }
  }

  lemma {:induction false} PositionIn(s: seq<Node>, m: Node) returns (i: int)
    requires m in s
    ensures 0 <= i < |s| && s[i] == m
  {
    i :| 0 <= i < |s| && s[i] == m;
  }

  // One more node between b and a.
  lemma {:induction false} Inserted(b: seq<Node>, a: seq<Node>, n: Node, dict: map<int, int>)
    requires Increasing(b + a) && Means(b + a, dict) && KeyBetween(n.key, b, a)
    ensures Increasing(b + [n] + a) && Means(b + [n] + a, dict[n.key := n.record])
  {
    var s, t := b + a, b + [n] + a;
    forall i, j {:trigger t[i], t[j]} | 0 <= i < j < |t| ensures t[i].key < t[j].key {
      if i != |b| && j != |b| {
        assert t[i] == s[if i < |b| then i else i - 1] && t[j] == s[if j < |b| then j else j - 1];
      }
    }
    forall k | k in dict[n.key := n.record] ensures HasKey(t, k) {
      if k != n.key {
        assert HasKey(s, k);
        var m :| m in s && m.key == k;
        assert m in t;
      } else {
        assert n in t;
      }
    }
  }

  // What splaying a new node below c makes of the tree.
  lemma {:induction false} InsertedShape(c: Context<Node>, f: Tree<Node>, n: Node, shape: Tree<Node>,
                                         dict: map<int, int>)
    requires Single(f, n) && Plug(c, Leaf) == shape && Increasing(InOrder(shape)) && Means(InOrder(shape), dict)
    requires KeyBetween(n.key, Before(c), After(c))
    ensures var s := InOrder(Splayed(c, f));
            Increasing(s) && Means(s, dict[n.key := n.record]) && |s| == |InOrder(shape)| + 1
  {
    InOrderPlug(c, Leaf);
    assert Before(c) + InOrder(Leaf) + After(c) == Before(c) + After(c);
    Inserted(Before(c), After(c), n, dict);
    SplayedInOrder(c, f);
  }

  // t is a tree of the node n alone.
  ghost predicate Single(t: Tree<Node>, n: Node) {
    t.Fork? && t.at == n && InOrder(t) == [n] && Nodes(t) == {n} && Size(t) == 1
  }

  // Splaying rearranges the nodes that are there.
  lemma {:induction false} SplayedNodes(c: Context<Node>, t: Tree<Node>)
    requires t.Fork?
    ensures Nodes(Splayed(c, t)) == Nodes(t) + PathNodes(c)
    ensures InOrder(Splayed(c, t)) == Before(c) + InOrder(t) + After(c)
  {
    var t2 := Splayed(c, t);
    SplayedInOrder(c, t);
    assert Before(Top) + InOrder(t2) + After(Top) == InOrder(t2);
    SameOrderSameNodes(c, t, Top, t2);
  }

  // Without the node z between b and a.
  lemma {:induction false} Removed(b: seq<Node>, a: seq<Node>, z: Node, dict: map<int, int>)
    requires Increasing(b + [z] + a) && Means(b + [z] + a, dict)
    ensures Increasing(b + a) && Means(b + a, dict - {z.key})
  {
    BesideOrder(b, z, a);
    RemovedIncreasing(b, a, z);
    forall k | k in dict - {z.key} ensures HasKey(b + a, k) {
      assert HasKey(b + [z] + a, k);
      var m :| m in b + [z] + a && m.key == k;
      assert m in b + a;
    }
  }

  lemma {:induction false} RemovedIncreasing(b: seq<Node>, a: seq<Node>, z: Node)
    requires Increasing(b + [z] + a)
    ensures Increasing(b + a)
  {
    var s, t := b + [z] + a, b + a;
    forall i, j {:trigger t[i], t[j]} | 0 <= i < j < |t| ensures t[i].key < t[j].key {
      assert t[i] == s[if i < |b| then i else i + 1] && t[j] == s[if j < |b| then j else j + 1];
    }
  }

  lemma {:induction false} FirstNode(t: Tree<Node>)
    requires t.Fork?
    ensures Nodes(t) == {First(t)} + Nodes(WithoutFirst(t)) && (t.left.Fork? ==> WithoutFirst(t).Fork?)
    decreases t
  {
    if t.left.Fork? {
      FirstNode(t.left);
    }
  }

  lemma {:induction false} KeyRemoved(dict: map<int, int>, k: int)
    requires k in dict
    ensures |dict| == |dict - {k}| + 1
  {
    assert dict.Keys == (dict - {k}).Keys + {k};
  }

  /** There is one node for every key, so node_count is the size of the map. */
  lemma {:induction false} DictSize(s: seq<Node>, dict: map<int, int>)
    requires Increasing(s) && Means(s, dict)
    ensures |dict| == |s|
    decreases |s|
  {
    if s == [] {
      forall k ensures k !in dict {
        assert k in dict ==> HasKey(s, k);
      }
      assert dict == map[];
    } else {
      var rest, z := s[..|s| - 1], s[|s| - 1];
      assert s == rest + [z] + [] && rest == rest + [];
      assert z in s;
      Removed(rest, [], z, dict);
      DictSize(rest, dict - {z.key});
      KeyRemoved(dict, z.key);
    }
  }
}
