/** Binary trees and contexts, and what splaying does to them. */
module TreeShapes {

  datatype Tree<T> = Leaf | Fork(left: Tree<T>, at: T, right: Tree<T>)

  /** The rest of a tree around one of its subtrees, from the subtree upwards. */
  datatype Context<T> =
    | Top
    | InLeft(up: Context<T>, at: T, right: Tree<T>)
    | InRight(up: Context<T>, left: Tree<T>, at: T)

  function Plug<T>(c: Context<T>, t: Tree<T>): Tree<T> {
    match c
    case Top => t
    case InLeft(up, n, r) => Plug(up, Fork(t, n, r))
    case InRight(up, l, n) => Plug(up, Fork(l, n, t))
  }

  function InOrder<T>(t: Tree<T>): seq<T> {
    match t
    case Leaf => []
    case Fork(l, n, r) => InOrder(l) + [n] + InOrder(r)
  }

  // What comes before and after the subtree in order.
  function Before<T>(c: Context<T>): seq<T> {
    match c
    case Top => []
    case InLeft(up, _, _) => Before(up)
    case InRight(up, l, n) => Before(up) + InOrder(l) + [n]
  }

  function After<T>(c: Context<T>): seq<T> {
    match c
    case Top => []
    case InLeft(up, n, r) => [n] + InOrder(r) + After(up)
    case InRight(up, _, _) => After(up)
  }

  // One level up.
  function Lift<T>(c: Context<T>, t: Tree<T>): (r: (Context<T>, Tree<T>))
    requires !c.Top?
    ensures Plug(r.0, r.1) == Plug(c, t)
  {
    match c
    case InLeft(up, n, r) => (up, Fork(t, n, r))
    case InRight(up, l, n) => (up, Fork(l, n, t))
  }

  lemma {:induction false} LiftInOrder<T>(c: Context<T>, t: Tree<T>)
    requires !c.Top?
    ensures var (up, s) := Lift(c, t);
            Before(up) + InOrder(s) + After(up) == Before(c) + InOrder(t) + After(c)
  {
    match c {
      case InLeft(up, n, r) =>
        assert Before(up) + (InOrder(t) + [n] + InOrder(r)) + After(up)
            == Before(up) + InOrder(t) + ([n] + InOrder(r) + After(up));
      case InRight(up, l, n) =>
        assert Before(up) + (InOrder(l) + [n] + InOrder(t)) + After(up)
            == (Before(up) + InOrder(l) + [n]) + InOrder(t) + After(up);
    }
  }

  lemma {:induction false} InOrderPlug<T>(c: Context<T>, t: Tree<T>)
    ensures InOrder(Plug(c, t)) == Before(c) + InOrder(t) + After(c)
    decreases c
  {
    if c.Top? {
      assert [] + InOrder(t) + [] == InOrder(t);
    } else {
      var (up, s) := Lift(c, t);
      LiftInOrder(c, t);
      InOrderPlug(up, s);
    }
  }

  // k levels up.
  function Lifted<T>(c: Context<T>, t: Tree<T>, k: nat): (Context<T>, Tree<T>)
    requires k <= Depth(c)
  {
    if k == 0 then (c, t) else Lifted(Lift(c, t).0, Lift(c, t).1, k - 1)
  }

  function Depth<T>(c: Context<T>): nat {
    match c
    case Top => 0
    case InLeft(up, _, _) => 1 + Depth(up)
    case InRight(up, _, _) => 1 + Depth(up)
  }

  // ------------------------------------------------------------------ splaying

  /** One iteration of splay: zig, zig-zig or zig-zag. */
  function Step<T>(c: Context<T>, t: Tree<T>): (Context<T>, Tree<T>)
    requires t.Fork?
  {
    var Fork(a, x, b) := t;
    match c
    case Top => (c, t)
    case InLeft(Top, p, e) => (Top, Fork(a, x, Fork(b, p, e)))
    case InRight(Top, e, p) => (Top, Fork(Fork(e, p, a), x, b))
    case InLeft(InLeft(up, g, f), p, e) => (up, Fork(a, x, Fork(b, p, Fork(e, g, f))))
    case InRight(InRight(up, f, g), e, p) => (up, Fork(Fork(Fork(f, g, e), p, a), x, b))
    case InLeft(InRight(up, f, g), p, e) => (up, Fork(Fork(f, g, a), x, Fork(b, p, e)))
    case InRight(InLeft(up, g, f), e, p) => (up, Fork(Fork(e, p, a), x, Fork(b, g, f)))
  }

  // Every iteration moves the subtree one or two levels up.
  lemma {:induction false} StepRises<T>(c: Context<T>, t: Tree<T>)
    requires t.Fork? && !c.Top?
    ensures Step(c, t).1.Fork? && Step(c, t).1.at == t.at
    ensures Depth(Step(c, t).0) == if c.up.Top? then 0 else Depth(c) - 2
    ensures Iterations(c) == 1 + Iterations(Step(c, t).0)
    ensures Zigs(c) == Zigs(Step(c, t).0) + if c.up.Top? then 1 else 0
  {
  }

  /** The whole tree after splaying the root of t, which stands in c. */
  function Splayed<T>(c: Context<T>, t: Tree<T>): (r: Tree<T>)
    requires t.Fork?
    ensures r.Fork? && r.at == t.at
    decreases Depth(c)
  {
    if c.Top? then t
    else
      StepRises(c, t);
      Splayed(Step(c, t).0, Step(c, t).1)
  }

  // The number of iterations: two levels at a time.
  function Iterations<T>(c: Context<T>): nat {
    (Depth(c) + 1) / 2
  }

  // The number of iterations with one rotation: the last one from an odd depth.
  function Zigs<T>(c: Context<T>): nat {
    Depth(c) % 2
  }

  /** splay ends with the node at the root and keeps the order of all nodes. */
  lemma {:induction false} SplayedInOrder<T>(c: Context<T>, t: Tree<T>)
    requires t.Fork?
    ensures InOrder(Splayed(c, t)) == Before(c) + InOrder(t) + After(c)
    decreases Depth(c)
  {
    if !c.Top? {
      StepRises(c, t);
      StepInOrder(c, t);
      SplayedInOrder(Step(c, t).0, Step(c, t).1);
    }
  }

  /** A rotation keeps the order. */
  lemma {:induction false} Rotation<T>(a: Tree<T>, x: T, b: Tree<T>, y: T, d: Tree<T>)
    ensures InOrder(Fork(Fork(a, x, b), y, d)) == InOrder(Fork(a, x, Fork(b, y, d)))
    ensures Size(Fork(Fork(a, x, b), y, d)) == Size(Fork(a, x, Fork(b, y, d)))
  {
    assert (InOrder(a) + [x] + InOrder(b)) + [y] + InOrder(d) == InOrder(a) + [x] + (InOrder(b) + [y] + InOrder(d));
  }

  // The subtree that a step rearranges, with the context it stands in.
  function Rearranged<T>(c: Context<T>, t: Tree<T>): (Context<T>, Tree<T>)
    requires !c.Top?
  {
    var (up, s) := Lift(c, t);
    if up.Top? then (up, s) else Lift(up, s)
  }

  // A step is made of rotations.
  lemma {:induction false} StepRotates<T>(c: Context<T>, t: Tree<T>)
    requires t.Fork? && !c.Top?
    ensures Step(c, t).0 == Rearranged(c, t).0
    ensures InOrder(Step(c, t).1) == InOrder(Rearranged(c, t).1)
    ensures Size(Step(c, t).1) == Size(Rearranged(c, t).1)
  {
    var Fork(a, x, b) := t;
    match c
    case InLeft(Top, p, e) => Rotation(a, x, b, p, e);
    case InRight(Top, e, p) => Rotation(e, p, a, x, b);
    case InLeft(InLeft(up, g, f), p, e) =>
      Rotation(t, p, e, g, f);
      Rotation(a, x, b, p, Fork(e, g, f));
    case InRight(InRight(up, f, g), e, p) =>
      Rotation(f, g, e, p, t);
      Rotation(Fork(f, g, e), p, a, x, b);
    case InLeft(InRight(up, f, g), p, e) =>
      Rotation(a, x, b, p, e);
      Rotation(f, g, a, x, Fork(b, p, e));
    case InRight(InLeft(up, g, f), e, p) =>
      Rotation(e, p, a, x, b);
      Rotation(Fork(e, p, a), x, b, g, f);
  }

  lemma {:induction false} StepInOrder<T>(c: Context<T>, t: Tree<T>)
    requires t.Fork? && !c.Top?
    ensures var (c2, t2) := Step(c, t);
            Before(c2) + InOrder(t2) + After(c2) == Before(c) + InOrder(t) + After(c)
  {
    var (c2, t2) := Step(c, t);
    var (up, s) := Rearranged(c, t);
    InOrderPlug(c, t);
    InOrderPlug(up, s);
    StepRotates(c, t);
  }

  // ------------------------------------------------------------------ amortised cost

  function Size<T>(t: Tree<T>): nat {
    match t
    case Leaf => 0
    case Fork(l, _, r) => Size(l) + 1 + Size(r)
  }

  function Half(n: nat): (h: nat)
    ensures n > 1 ==> 1 <= h < n
  {
    n / 2
  }

  // floor(log2 n), and 0 for 0.
  function Rank(n: nat): nat {
    if n <= 1 then 0 else 1 + Rank(Half(n))
  }

  function Two(k: nat): nat {
    if k == 0 then 1 else 2 * Two(k - 1)
  }

  /** rank(n) is the logarithm: 2^rank(n) <= n < 2^(rank(n) + 1). */
  lemma {:induction false} RankIsLog(n: nat)
    requires 1 <= n
    ensures Two(Rank(n)) <= n < 2 * Two(Rank(n))
  {
    if n > 1 {
      RankIsLog(Half(n));
      assert Half(n) == n / 2;
    }
  }

  lemma {:induction false} RankMonotone(m: nat, n: nat)
    requires m <= n
    ensures Rank(m) <= Rank(n)
  {
    if m > 1 {
      RankMonotone(Half(m), Half(n));
    }
  }

  /** Of two parts of a whole, one has a smaller rank. */
  lemma {:induction false} RankOfParts(m: nat, k: nat, n: nat)
    requires 1 <= m && 1 <= k && m + k <= n
    ensures Rank(m) < Rank(n) || Rank(k) < Rank(n)
  {
    if m > 1 && k > 1 {
      RankOfParts(Half(m), Half(k), Half(n));
    }
  }

  // The sum of the ranks of all subtrees.
  function Potential<T>(t: Tree<T>): nat {
    match t
    case Leaf => 0
    case Fork(l, _, r) => Potential(l) + Potential(r) + Rank(Size(t))
  }

  // The part of the potential that the context of a subtree of size n contributes.
  function Surplus<T>(c: Context<T>, n: nat): nat {
    match c
    case Top => 0
    case InLeft(up, _, r) => Rank(n + 1 + Size(r)) + Potential(r) + Surplus(up, n + 1 + Size(r))
    case InRight(up, l, _) => Rank(Size(l) + 1 + n) + Potential(l) + Surplus(up, Size(l) + 1 + n)
  }

  // The size of the whole tree.
  function Whole<T>(c: Context<T>, n: nat): nat {
    match c
    case Top => n
    case InLeft(up, _, r) => Whole(up, n + 1 + Size(r))
    case InRight(up, l, _) => Whole(up, Size(l) + 1 + n)
  }

  lemma {:induction false} LiftPotential<T>(c: Context<T>, t: Tree<T>)
    requires !c.Top?
    ensures var (up, s) := Lift(c, t);
            Potential(s) + Surplus(up, Size(s)) == Potential(t) + Surplus(c, Size(t))
            && Whole(up, Size(s)) == Whole(c, Size(t))
  {
  }

  lemma {:induction false} PlugPotential<T>(c: Context<T>, t: Tree<T>)
    ensures Potential(Plug(c, t)) == Potential(t) + Surplus(c, Size(t))
    ensures Size(Plug(c, t)) == Whole(c, Size(t))
    decreases c
  {
    if !c.Top? {
      var (up, s) := Lift(c, t);
      LiftPotential(c, t);
      PlugPotential(up, s);
    }
  }

  /** Amortised cost of one iteration; only a zig, which ends the splay, costs 1 more. */
  lemma {:induction false} StepCost<T>(c: Context<T>, t: Tree<T>)
    requires t.Fork? && !c.Top?
    ensures var (c2, t2) := Step(c, t);
            && Whole(c2, Size(t2)) == Whole(c, Size(t)) && Rank(Size(t)) <= Rank(Size(t2))
            && 1 + Potential(t2) + Surplus(c2, Size(t2)) - Potential(t) - Surplus(c, Size(t))
               <= 3 * (Rank(Size(t2)) - Rank(Size(t))) + if c.up.Top? then 1 else 0
  {
    if c.up.Top? {
      ZigCost(c, t);
    } else {
      TwoLevelCost(c, t);
    }
  }

  lemma {:induction false} ZigCost<T>(c: Context<T>, t: Tree<T>)
    requires t.Fork? && !c.Top? && c.up.Top?
    ensures var t2 := Step(c, t).1;
            && Size(t2) == Whole(c, Size(t)) && Rank(Size(t)) <= Rank(Size(t2))
            && Potential(t2) - Potential(t) - Surplus(c, Size(t)) <= Rank(Size(t2)) - Rank(Size(t))
  {
    var Fork(a, x, b) := t;
    var t2 := Step(c, t).1;
    match c {
      case InLeft(Top, p, e) =>
        Rotation(a, x, b, p, e);
        RankMonotone(Size(t), Size(t2));
        RankMonotone(Size(t2.right), Size(t2));
      case InRight(Top, e, p) =>
        Rotation(e, p, a, x, b);
        RankMonotone(Size(t), Size(t2));
        RankMonotone(Size(t2.left), Size(t2));
    }
  }

  lemma {:induction false} TwoLevelCost<T>(c: Context<T>, t: Tree<T>)
    requires t.Fork? && !c.Top? && !c.up.Top?
    ensures var (c2, t2) := Step(c, t);
            && Whole(c2, Size(t2)) == Whole(c, Size(t)) && Rank(Size(t)) <= Rank(Size(t2))
            && 1 + Potential(t2) + Surplus(c2, Size(t2)) - Potential(t) - Surplus(c, Size(t))
               <= 3 * (Rank(Size(t2)) - Rank(Size(t)))
  {
    var (up, s) := Lift(c, t);
    LiftPotential(c, t);
    LiftPotential(up, s);
    StepRotates(c, t);
    RearrangedCost(c, t);
  }

  // t is as large and has as much potential as a node with subtrees l and r, in whatever order.
  predicate Made<T>(t: Tree<T>, l: Tree<T>, r: Tree<T>) {
    Size(t) == Size(l) + 1 + Size(r) && Potential(t) == Potential(l) + Potential(r) + Rank(Size(t))
  }

  lemma {:induction false} ForkCost<T>(l: Tree<T>, n: T, r: Tree<T>)
    ensures Made(Fork(l, n, r), l, r) && Made(Fork(l, n, r), r, l)
  {
  }

  // What a step with two rotations costs, locally.
  lemma {:induction false} RearrangedCost<T>(c: Context<T>, t: Tree<T>)
    requires t.Fork? && !c.Top? && !c.up.Top?
    ensures StepPays(t, Rearranged(c, t).1, Step(c, t).1)
  {
    var Fork(a, x, b) := t;
    ForkCost(a, x, b);
    match c {
      case InLeft(InLeft(up, g, f), p, e) =>
        var q, u := Fork(t, p, e), Fork(e, g, f);
        TwoForks(t, p, e, q, g, f, e, g, f, b, p, u);
        ForkCost(a, x, Fork(b, p, u));
        ZigZig(a, b, e, f, t, q, Fork(q, g, f), u, Fork(b, p, u), Step(c, t).1);
      case InRight(InRight(up, f, g), e, p) =>
        var q, u := Fork(e, p, t), Fork(f, g, e);
        TwoForks(e, p, t, f, g, q, f, g, e, u, p, a);
        ForkCost(Fork(u, p, a), x, b);
        ZigZig(b, a, e, f, t, q, Fork(f, g, q), u, Fork(u, p, a), Step(c, t).1);
      case InLeft(InRight(up, f, g), p, e) =>
        var q := Fork(t, p, e);
        TwoForks(t, p, e, f, g, q, f, g, a, b, p, e);
        ForkCost(Fork(f, g, a), x, Fork(b, p, e));
        ZigZag(a, b, e, f, t, q, Fork(f, g, q), Fork(f, g, a), Fork(b, p, e), Step(c, t).1);
      case InRight(InLeft(up, g, f), e, p) =>
        var q := Fork(e, p, t);
        TwoForks(e, p, t, q, g, f, b, g, f, e, p, a);
        ForkCost(Fork(e, p, a), x, Fork(b, g, f));
        ZigZag(b, a, e, f, t, q, Fork(q, g, f), Fork(b, g, f), Fork(e, p, a), Step(c, t).1);
    }
  }

  // Two forks before a step and two after it.
  lemma {:induction false} TwoForks<T>(l1: Tree<T>, n1: T, r1: Tree<T>, l2: Tree<T>, n2: T, r2: Tree<T>,
                                       l3: Tree<T>, n3: T, r3: Tree<T>, l4: Tree<T>, n4: T, r4: Tree<T>)
    ensures Made(Fork(l1, n1, r1), l1, r1) && Made(Fork(l1, n1, r1), r1, l1)
    ensures Made(Fork(l2, n2, r2), l2, r2) && Made(Fork(l2, n2, r2), r2, l2)
    ensures Made(Fork(l3, n3, r3), l3, r3) && Made(Fork(l3, n3, r3), r3, l3)
    ensures Made(Fork(l4, n4, r4), l4, r4) && Made(Fork(l4, n4, r4), r4, l4)
  {
    ForkCost(l1, n1, r1);
    ForkCost(l2, n2, r2);
    ForkCost(l3, n3, r3);
    ForkCost(l4, n4, r4);
  }

  // One iteration turns the tree s into t2, with x at the root of its subtree t before, and at the root of t2 after.
  predicate StepPays<T>(t: Tree<T>, s: Tree<T>, t2: Tree<T>) {
    Rank(Size(t)) <= Rank(Size(t2)) && 1 + Potential(t2) - Potential(s) <= 3 * (Rank(Size(t2)) - Rank(Size(t)))
  }

  lemma {:induction false} ZigZig<T>(a: Tree<T>, b: Tree<T>, e: Tree<T>, f: Tree<T>, t: Tree<T>, q: Tree<T>, s: Tree<T>,
                                     u: Tree<T>, v: Tree<T>, t2: Tree<T>)
    requires Made(t, a, b) && Made(q, t, e) && Made(s, q, f) && Made(u, e, f) && Made(v, b, u) && Made(t2, a, v)
    ensures StepPays(t, s, t2)
  {
    assert Size(t2) == Size(s);
    RankMonotone(Size(t), Size(t2));
    ZigZigCost(Size(t), Size(q), Size(v), Size(u), Size(t2));
    AddUp(Potential(a), Potential(b), Potential(e), Potential(f), Rank(Size(t)), Rank(Size(q)), Rank(Size(t2)),
          Rank(Size(u)), Rank(Size(v)));
    assert Potential(s) == Potential(a) + Potential(b) + Rank(Size(t)) + Potential(e) + Rank(Size(q))
                           + Potential(f) + Rank(Size(t2));
  }

  lemma {:induction false} AddUp(a: int, b: int, e: int, f: int, t: int, q: int, s: int, u: int, v: int)
    requires 1 + v + u - t - q <= 3 * (s - t)
    ensures 1 + (a + (b + (e + f + u) + v) + s) - (a + b + t + e + q + f + s) <= 3 * (s - t)
  {
  }

  lemma {:induction false} ZigZag<T>(a: Tree<T>, b: Tree<T>, e: Tree<T>, f: Tree<T>, t: Tree<T>, q: Tree<T>, s: Tree<T>,
                                     u: Tree<T>, v: Tree<T>, t2: Tree<T>)
    requires Made(t, a, b) && Made(q, t, e) && Made(s, q, f) && Made(u, f, a) && Made(v, b, e) && Made(t2, u, v)
    ensures StepPays(t, s, t2)
  {
    RankMonotone(Size(t), Size(t2));
    ZigZagCost(Size(t), Size(q), Size(u), Size(v), Size(t2));
  }

  // Sizes: x and p before; p and g after, with g below p; the whole.
  lemma {:induction false} ZigZigCost(x: nat, p: nat, p2: nat, g2: nat, whole: nat)
    requires 1 <= x <= p <= whole && 1 <= g2 <= p2 <= whole && x + g2 <= whole
    ensures 1 + Rank(p2) + Rank(g2) - Rank(x) - Rank(p) <= 3 * (Rank(whole) - Rank(x))
  {
    RankMonotone(x, p);
    RankMonotone(p, whole);
    RankMonotone(p2, whole);
    RankMonotone(g2, whole);
    RankOfParts(x, g2, whole);
    assert Rank(x) <= Rank(p) <= Rank(whole);
  }

  // Sizes: x and p before; the two children of x after; the whole.
  lemma {:induction false} ZigZagCost(x: nat, p: nat, l2: nat, r2: nat, whole: nat)
    requires 1 <= x <= p <= whole && 1 <= l2 && 1 <= r2 && l2 + r2 <= whole
    ensures 1 + Rank(l2) + Rank(r2) - Rank(x) - Rank(p) <= 3 * (Rank(whole) - Rank(x))
  {
    RankMonotone(x, p);
    RankMonotone(p, whole);
    RankMonotone(l2, whole);
    RankMonotone(r2, whole);
    RankOfParts(l2, r2, whole);
    assert Rank(x) <= Rank(p) <= Rank(whole);
  }

  lemma {:induction false} SplayCostFrom<T>(c: Context<T>, t: Tree<T>)
    requires t.Fork?
    ensures Iterations(c) + Potential(Splayed(c, t)) - Potential(t) - Surplus(c, Size(t))
            <= 3 * (Rank(Whole(c, Size(t))) - Rank(Size(t))) + Zigs(c)
    decreases Depth(c)
  {
    if !c.Top? {
      StepRises(c, t);
      StepCost(c, t);
      SplayCostFrom(Step(c, t).0, Step(c, t).1);
    }
  }

  /** The amortised bound: the iterations of splaying x and the change of potential together are at most
      3 * (rank of the root - rank of x) + 1. */
  lemma {:induction false} SplayCost<T>(c: Context<T>, t: Tree<T>)
    requires t.Fork?
    ensures Iterations(c) + Potential(Splayed(c, t)) - Potential(Plug(c, t))
            <= 3 * (Rank(Size(Plug(c, t))) - Rank(Size(t))) + 1
  {
    PlugPotential(c, t);
    SplayCostFrom(c, t);
  }

  function Beside<T>(c: Context<T>): Tree<T>
    requires !c.Top?
  {
    if c.InLeft? then c.right else c.left
  }

  lemma {:induction false} SurplusUp<T>(c: Context<T>, n: nat)
    requires !c.Top?
    ensures var m := n + 1 + Size(Beside(c));
            Surplus(c, n) == Rank(m) + Potential(Beside(c)) + Surplus(c.up, m) && Whole(c, n) == Whole(c.up, m)
  {
    assert c.InRight? ==> Size(c.left) + 1 + n == n + 1 + Size(c.left);
  }

  // One more node at the bottom, k nodes instead of n, raises the potential of a path by no more than ranks grow
  // along it.
  lemma {:induction false} LeafCost<T>(c: Context<T>, n: nat, k: nat)
    requires k == n + 1
    ensures Surplus(c, k) + Rank(k) <= Surplus(c, n) + Rank(Whole(c, k))
    ensures Whole(c, k) == Whole(c, n) + 1
    decreases c
  {
    if !c.Top? {
      var m, j := n + 1 + Size(Beside(c)), k + 1 + Size(Beside(c));
      SurplusUp(c, n);
      SurplusUp(c, k);
      LeafCost(c.up, m, j);
      RankMonotone(k, m);
    }
  }

  /** The amortised cost of splaying a single node t in place of the empty tree below c. */
  lemma {:induction false} InsertCost<T>(c: Context<T>, t: Tree<T>)
    requires t.Fork? && Size(t) == 1
    ensures Iterations(c) + Potential(Splayed(c, t)) - Potential(Plug(c, Leaf)) <= 4 * Rank(Size(Plug(c, Leaf)) + 1) + 1
  {
    SplayCost(c, t);
    PlugPotential(c, t);
    PlugPotential(c, Leaf);
    LeafCost(c, 0, 1);
    assert Potential(t) == 0;
  }

  // ------------------------------------------------------------------ removing the root

  // The leftmost node.
  function First<T>(t: Tree<T>): T
    requires t.Fork?
    decreases t
  {
    if t.left.Leaf? then t.at else First(t.left)
  }

  // The tree with its leftmost node replaced by the subtree on that node's right.
  function WithoutFirst<T>(t: Tree<T>): Tree<T>
    requires t.Fork?
    decreases t
  {
    if t.left.Leaf? then t.right else Fork(WithoutFirst(t.left), t.at, t.right)
  }

  // The subtrees of t joined: the first node of the right one takes the place of the root.
  function WithoutRoot<T>(t: Tree<T>): Tree<T>
    requires t.Fork?
  {
    if t.left.Leaf? then t.right
    else if t.right.Leaf? then t.left
    else Fork(t.left, First(t.right), WithoutFirst(t.right))
  }

  /** The leftmost node is the first in order, and taking it out lowers size and potential. */
  lemma {:induction false} FirstInOrder<T>(t: Tree<T>)
    requires t.Fork?
    ensures InOrder(t) == [First(t)] + InOrder(WithoutFirst(t))
    ensures Size(WithoutFirst(t)) == Size(t) - 1 && Potential(WithoutFirst(t)) <= Potential(t)
    decreases t
  {
    ForkCost(t.left, t.at, t.right);
    if t.left.Fork? {
      var rest := WithoutFirst(t.left);
      FirstInOrder(t.left);
      ForkCost(rest, t.at, t.right);
      RankMonotone(Size(Fork(rest, t.at, t.right)), Size(t));
      assert ([First(t.left)] + InOrder(rest)) + [t.at] + InOrder(t.right)
          == [First(t.left)] + (InOrder(rest) + [t.at] + InOrder(t.right));
    }
  }

  // The way down from here goes left only.
  predicate Leftward<T>(c: Context<T>) {
    c.Top? || (c.InLeft? && Leftward(c.up))
  }

  /** Where the leftmost node stands nothing changes but that its right subtree takes its place. */
  lemma {:induction false} FirstPlugged<T>(c: Context<T>, y: T, r: Tree<T>)
    requires Leftward(c)
    ensures Plug(c, Fork(Leaf, y, r)).Fork? && First(Plug(c, Fork(Leaf, y, r))) == y
    ensures WithoutFirst(Plug(c, Fork(Leaf, y, r))) == Plug(c, r)
  {
    FirstBelow(c, Fork(Leaf, y, r));
  }

  lemma {:induction false} FirstBelow<T>(c: Context<T>, t: Tree<T>)
    requires Leftward(c) && t.Fork?
    ensures Plug(c, t).Fork? && First(Plug(c, t)) == First(t)
    ensures WithoutFirst(Plug(c, t)) == Plug(c, WithoutFirst(t))
    decreases c
  {
    if c.InLeft? {
      FirstBelow(c.up, Fork(t, c.at, c.right));
    }
  }

  /** Removing the root leaves the nodes of both subtrees in order, with no more potential. */
  lemma {:induction false} JoinedInOrder<T>(a: Tree<T>, z: T, b: Tree<T>)
    ensures InOrder(WithoutRoot(Fork(a, z, b))) == InOrder(a) + InOrder(b)
    ensures Potential(WithoutRoot(Fork(a, z, b))) <= Potential(Fork(a, z, b))
    ensures Size(WithoutRoot(Fork(a, z, b))) == Size(a) + Size(b)
  {
    ForkCost(a, z, b);
    if a.Fork? && b.Fork? {
      var y, rest := First(b), WithoutFirst(b);
      FirstInOrder(b);
      ForkCost(a, y, rest);
      RankMonotone(Size(Fork(a, y, rest)), Size(Fork(a, z, b)));
      assert InOrder(a) + [y] + InOrder(rest) == InOrder(a) + ([y] + InOrder(rest));
    }
  }

  // What two rotations make of x, p and g on one side when the parent is rotated first.
  function ParentFirst<T>(a: Tree<T>, x: T, b: Tree<T>, p: T, e: Tree<T>, g: T, f: Tree<T>): Tree<T> {
    Fork(a, x, Fork(Fork(b, p, e), g, f))
  }

  /** The order of the rotations matters: with the parent first, an iteration on seven nodes may cost 1 while neither
      the potential nor the rank of x changes, so the bound of StepCost would fail. */
  lemma {:induction false} ParentFirstTooDear<T>(x: T, b: Tree<T>, p: T, g: T)
    requires Size(b) == 4
    ensures var t := Fork(Leaf, x, b);
            var (before, after) := (Fork(Fork(t, p, Leaf), g, Leaf), ParentFirst(Leaf, x, b, p, Leaf, g, Leaf));
            1 + Potential(after) - Potential(before) > 3 * (Rank(Size(after)) - Rank(Size(t)))
  {
    var t, q := Fork(Leaf, x, b), Fork(b, p, Leaf);
    ForkCost(Leaf, x, b);
    ForkCost(t, p, Leaf);
    ForkCost(Fork(t, p, Leaf), g, Leaf);
    ForkCost(b, p, Leaf);
    ForkCost(q, g, Leaf);
    ForkCost(Leaf, x, Fork(q, g, Leaf));
    RankMonotone(5, 6);
    RankMonotone(6, 7);
    assert Half(5) == 2 && Half(7) == 3;
    assert Rank(5) == Rank(7);
  }

  // ------------------------------------------------------------------ runs of splays

  /** Where each of a run of splays starts: every pair is a node of the tree that the splays before it left behind. */
  ghost predicate Splays<T(!new)>(t: Tree<T>, run: seq<(Context<T>, Tree<T>)>)
    decreases |run|
  {
    run == []
    || (run[0].1.Fork? && Plug(run[0].0, run[0].1) == t && Splays(Splayed(run[0].0, run[0].1), run[1..]))
  }

  ghost function TotalIterations<T>(run: seq<(Context<T>, Tree<T>)>): nat {
    if run == [] then 0 else Iterations(run[0].0) + TotalIterations(run[1..])
  }

  lemma {:induction false} LengthIsSize<T>(t: Tree<T>)
    ensures |InOrder(t)| == Size(t)
  {
    match t
    case Leaf =>
    case Fork(l, _, r) =>
      LengthIsSize(l);
      LengthIsSize(r);
  }

  lemma {:induction false} SumTimes(a: nat, b: nat, k: nat)
    ensures (a + 1 + b) * k == a * k + k + b * k
  {
  }

  lemma {:induction false} PotentialBound<T>(t: Tree<T>, n: nat)
    requires Size(t) <= n
    ensures Potential(t) <= Size(t) * Rank(n)
  {
    match t
    case Leaf =>
    case Fork(l, _, r) =>
      PotentialBound(l, n);
      PotentialBound(r, n);
      RankMonotone(Size(t), n);
      SumTimes(Size(l), Size(r), Rank(n));
  }

  lemma {:induction false} OneMore(m: int, price: int)
    ensures (m + 1) * price == m * price + price
  {
  }

  lemma {:induction false} RunCostFrom<T(!new)>(t: Tree<T>, run: seq<(Context<T>, Tree<T>)>, price: nat)
    requires Splays(t, run) && price == 3 * Rank(Size(t)) + 1
    ensures TotalIterations(run) <= |run| * price + Potential(t)
    decreases |run|
  {
    if run != [] {
      var t2 := FirstSplay(t, run, price);
      RunCostFrom(t2, run[1..], price);
      OneMore(|run| - 1, price);
    }
  }

  // The first splay of a run, and the tree it leaves.
  lemma {:induction false} FirstSplay<T(!new)>(t: Tree<T>, run: seq<(Context<T>, Tree<T>)>, price: nat)
    returns (t2: Tree<T>)
    requires run != [] && Splays(t, run) && price == 3 * Rank(Size(t)) + 1
    ensures Splays(t2, run[1..]) && Size(t2) == Size(t)
    ensures Iterations(run[0].0) + Potential(t2) <= Potential(t) + price
  {
    var (c, s) := run[0];
    t2 := Splayed(c, s);
    SplayCost(c, s);
    SplayedInOrder(c, s);
    InOrderPlug(c, s);
    LengthIsSize(t);
    LengthIsSize(t2);
  }

  /** Any run of m splays on a tree of n nodes takes at most m * (3 * rank(n) + 1) + n * rank(n) iterations. */
  lemma {:induction false} RunCost<T(!new)>(t: Tree<T>, run: seq<(Context<T>, Tree<T>)>)
    requires Splays(t, run)
    ensures TotalIterations(run) <= |run| * (3 * Rank(Size(t)) + 1) + Size(t) * Rank(Size(t))
  {
    RunCostFrom(t, run, 3 * Rank(Size(t)) + 1);
    PotentialBound(t, Size(t));
  }
}
