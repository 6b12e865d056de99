/** The shape of csh's variable and alias trees, and what rebalancing does to it (bin/csh/set.c). */
module VarTree {
  import opened VarOrder

  type Vec = seq<Name>
  datatype Binding = Binding(name: Name, vec: Vec)

  /** One tree node: `struct varent`, with its three links named. */
  class Varent {
    var name: Name
    var vec: Vec
    var left: Varent?
    var right: Varent?
    var parent: Varent?
    var bal: int

    constructor (name: Name, vec: Vec, parent: Varent?)
      ensures this.name == name && this.vec == vec && this.parent == parent
      ensures left == null && right == null && bal == 0
    {
      this.name, this.vec, this.parent := name, vec, parent;
      left, right, bal := null, null, 0;
    }
  }

  /** The abstract value of a subtree: which object sits where, and what it holds. */
  datatype Tree = Leaf | Node(left: Tree, ref: Varent, b: Binding, bal: int, right: Tree)

  /** A tree with one subtree cut out, read from the hole up to the header.
      `right` tells which child of `ref` the hole is; `sib` is the other child. */
  datatype Path = Top(head: Varent) | Step(up: Path, right: bool, ref: Varent, b: Binding, bal: int, sib: Tree)

  function Refs(t: Tree): set<Varent> {
    if t.Leaf? then {} else Refs(t.left) + {t.ref} + Refs(t.right)
  }

  ghost predicate Distinct(t: Tree) {
    t.Node? ==>
      && t.ref !in Refs(t.left) && t.ref !in Refs(t.right) && Refs(t.left) !! Refs(t.right)
      && Distinct(t.left) && Distinct(t.right)
  }

  function InOrder(t: Tree): seq<Binding> {
    if t.Leaf? then [] else InOrder(t.left) + [t.b] + InOrder(t.right)
  }

  function Size(t: Tree): nat {
    if t.Leaf? then 0 else Size(t.left) + 1 + Size(t.right)
  }

  function Max(a: int, b: int): int {
    if a < b then b else a
  }

  function Height(t: Tree): nat {
    if t.Leaf? then 0 else 1 + Max(Height(t.left), Height(t.right))
  }

  /** Every balance factor is exact and small. */
  ghost predicate Avl(t: Tree) {
    t.Node? ==>
      && t.bal == Height(t.right) - Height(t.left) && -1 <= t.bal <= 1
      && Avl(t.left) && Avl(t.right)
  }

  function Head(path: Path): Varent {
    if path.Top? then path.head else Head(path.up)
  }

  function PathRefs(path: Path): set<Varent> {
    if path.Top? then {path.head} else {path.ref} + Refs(path.sib) + PathRefs(path.up)
  }

  ghost predicate DistinctPath(path: Path) {
    path.Step? ==>
      && path.ref !in Refs(path.sib) && path.ref !in PathRefs(path.up)
      && Refs(path.sib) !! PathRefs(path.up)
      && Distinct(path.sib) && DistinctPath(path.up)
  }

  /** The node a path step makes out of the subtree in its hole. */
  function Close(path: Path, t: Tree): Tree
    requires path.Step?
  {
    if path.right then Node(path.sib, path.ref, path.b, path.bal, t)
    else Node(t, path.ref, path.b, path.bal, path.sib)
  }

  function Plug(path: Path, t: Tree): Tree {
    if path.Top? then t else Plug(path.up, Close(path, t))
  }

  /** The bindings left and right of the hole. */
  function Before(path: Path): seq<Binding> {
    if path.Top? then [] else Before(path.up) + if path.right then InOrder(path.sib) + [path.b] else []
  }

  function After(path: Path): seq<Binding> {
    if path.Top? then [] else (if path.right then [] else [path.b] + InOrder(path.sib)) + After(path.up)
  }

  /** Every balance factor on and beside the path is exact once the hole holds a tree of height h. */
  ghost predicate AvlPath(path: Path, h: int) {
    path.Step? ==>
      && path.bal == (if path.right then h - Height(path.sib) else Height(path.sib) - h)
      && -1 <= path.bal <= 1 && Avl(path.sib)
      && AvlPath(path.up, 1 + Max(h, Height(path.sib)))
  }

  lemma {:induction false} PlugInOrder(path: Path, t: Tree)
    ensures InOrder(Plug(path, t)) == Before(path) + InOrder(t) + After(path)
  {
    if path.Step? {
      PlugInOrder(path.up, Close(path, t));
      Regroup(Before(path.up), InOrder(path.sib), [path.b], InOrder(t), After(path.up));
      if !path.right {
        assert Before(path) == Before(path.up);
      } else {
        assert After(path) == After(path.up);
      }
    }
  }

  lemma Regroup<T>(p: seq<T>, s: seq<T>, m: seq<T>, t: seq<T>, n: seq<T>)
    ensures p + (s + m + t) + n == (p + (s + m)) + t + n
    ensures p + (t + m + s) + n == p + t + ((m + s) + n)
  {
  }

  lemma {:induction false} PlugShape(path: Path, t: Tree)
    ensures Refs(Plug(path, t)) + {Head(path)} == Refs(t) + PathRefs(path)
    ensures Distinct(t) && DistinctPath(path) && Refs(t) !! PathRefs(path) ==>
      Distinct(Plug(path, t)) && Head(path) !in Refs(Plug(path, t))
  {
    if path.Step? {
      PlugShape(path.up, Close(path, t));
    }
  }

  lemma {:induction false} PlugAvl(path: Path, t: Tree)
    requires Avl(t) && AvlPath(path, Height(t))
    ensures Avl(Plug(path, t))
  {
    if path.Step? {
      PlugAvl(path.up, Close(path, t));
    }
  }

  function RotateLeft(t: Tree): Tree
    requires t.Node? && t.right.Node?
  {
    Node(Node(t.left, t.ref, t.b, t.bal, t.right.left), t.right.ref, t.right.b, t.right.bal, t.right.right)
  }

  function RotateRight(t: Tree): Tree
    requires t.Node? && t.left.Node?
  {
    Node(t.left.left, t.left.ref, t.left.b, t.left.bal, Node(t.left.right, t.ref, t.b, t.bal, t.right))
  }

  lemma RotateLeftKeepsOrder(t: Tree)
    requires t.Node? && t.right.Node?
    ensures InOrder(RotateLeft(t)) == InOrder(t)
  {
    Reassociate(InOrder(t.left), [t.b], InOrder(t.right.left), [t.right.b], InOrder(t.right.right));
  }

  lemma RotateRightKeepsOrder(t: Tree)
    requires t.Node? && t.left.Node?
    ensures InOrder(RotateRight(t)) == InOrder(t)
  {
    Reassociate(InOrder(t.left.left), [t.left.b], InOrder(t.left.right), [t.b], InOrder(t.right));
  }

  lemma Reassociate<T>(a: seq<T>, b: seq<T>, c: seq<T>, d: seq<T>, e: seq<T>)
    ensures a + b + (c + d + e) == (a + b + c) + d + e
  {
  }

  lemma RotateLeftKeepsRefs(t: Tree)
    requires t.Node? && t.right.Node? && Distinct(t)
    ensures Refs(RotateLeft(t)) == Refs(t) && Distinct(RotateLeft(t))
  {
    var l := Node(t.left, t.ref, t.b, t.bal, t.right.left);
    assert Refs(l) == Refs(t.left) + {t.ref} + Refs(t.right.left);
    assert Refs(t.right) == Refs(t.right.left) + {t.right.ref} + Refs(t.right.right);
    assert Distinct(t.right);
  }

  lemma RotateRightKeepsRefs(t: Tree)
    requires t.Node? && t.left.Node? && Distinct(t)
    ensures Refs(RotateRight(t)) == Refs(t) && Distinct(RotateRight(t))
  {
    var r := Node(t.left.right, t.ref, t.b, t.bal, t.right);
    assert Refs(r) == Refs(t.left.right) + {t.ref} + Refs(t.right);
    assert Refs(t.left) == Refs(t.left.left) + {t.left.ref} + Refs(t.left.right);
    assert Distinct(t.left);
  }

  /** Rebalancing a node whose right side became one higher than its stale balance factor says:
      one pass through the right-heavy switch. */
  function HeavyRight(t: Tree): Tree
    requires t.Node? && (t.bal == 1 ==> t.right.Node? && (t.right.bal !in {0, 1} ==> t.right.left.Node?))
  {
    if t.bal != 1 then
      t.(bal := if t.bal == -1 then 0 else 1)
    else if t.right.bal == 1 then
      var r := RotateLeft(t);
      Node(r.left.(bal := 0), r.ref, r.b, 0, r.right)
    else if t.right.bal == 0 then
      var r := RotateLeft(t);
      Node(r.left.(bal := 1), r.ref, r.b, -1, r.right)
    else
      var r := RotateLeft(t.(right := RotateRight(t.right)));
      Node(r.left.(bal := if r.bal < 1 then 0 else -1), r.ref, r.b, 0,
           r.right.(bal := if r.bal > -1 then 0 else 1))
  }

  function HeavyLeft(t: Tree): Tree
    requires t.Node? && (t.bal == -1 ==> t.left.Node? && (t.left.bal !in {-1, 0} ==> t.left.right.Node?))
  {
    if t.bal != -1 then
      t.(bal := if t.bal == 1 then 0 else -1)
    else if t.left.bal == -1 then
      var r := RotateRight(t);
      Node(r.left, r.ref, r.b, 0, r.right.(bal := 0))
    else if t.left.bal == 0 then
      var r := RotateRight(t);
      Node(r.left, r.ref, r.b, 1, r.right.(bal := -1))
    else
      var r := RotateRight(t.(left := RotateLeft(t.left)));
      Node(r.left.(bal := if r.bal < 1 then 0 else -1), r.ref, r.b, 0,
           r.right.(bal := if r.bal > -1 then 0 else 1))
  }

  /** A node out of balance by one more than its stale factor, towards the right or the left. */
  ghost predicate Stale(t: Tree, toRight: bool) {
    && t.Node? && -1 <= t.bal <= 1 && Avl(t.left) && Avl(t.right)
    && Height(t.right) - Height(t.left) == t.bal + if toRight then 1 else -1
  }

  /** The height the node had when its factor was exact: its `d`-side child was one lower
      before an insertion, or one higher before a deletion. */
  ghost function OldHeight(t: Tree, toRight: bool, deleted: bool): int
    requires t.Node?
  {
    var was := if deleted then 1 else -1;
    if toRight == deleted then 1 + Max(Height(t.left) + was, Height(t.right))
    else 1 + Max(Height(t.left), Height(t.right) + was)
  }

  function Rebalance(t: Tree, toRight: bool): Tree
    requires Stale(t, toRight)
  {
    if toRight then HeavyRight(t) else HeavyLeft(t)
  }

  /** Rebalancing restores exact factors, keeps objects and order, and its root factor tells whether
      the height change goes on upwards: after an insertion iff it is not zero, after a deletion iff
      it is zero. */
  lemma RebalanceRestores(t: Tree, toRight: bool, deleted: bool)
    requires Stale(t, toRight)
    ensures var r := Rebalance(t, toRight);
      && r.Node? && Avl(r)
      && Height(r) == OldHeight(t, toRight, deleted)
                      + if deleted then (if r.bal == 0 then -1 else 0) else if r.bal == 0 then 0 else 1
  {
    if toRight {
      HeavyRightHeights(t);
    } else {
      HeavyLeftHeights(t);
    }
  }

  lemma HeavyRightHeights(t: Tree)
    requires Stale(t, true)
    ensures var r := HeavyRight(t);
      && r.Node? && Avl(r)
      && Height(r) == Height(t) - (if t.bal == 1 && r.bal == 0 then 1 else 0)
      && (t.bal == 1 ==> r.bal <= 0) && (t.bal == 0 ==> r.bal == 1)  && (t.bal == -1 ==> r.bal == 0)
  {
    if t.bal == 1 && t.right.bal == -1 {
      assert Avl(t.right.left);
    }
  }

  lemma HeavyLeftHeights(t: Tree)
    requires Stale(t, false)
    ensures var r := HeavyLeft(t);
      && r.Node? && Avl(r)
      && Height(r) == Height(t) - (if t.bal == -1 && r.bal == 0 then 1 else 0)
      && (t.bal == -1 ==> r.bal >= 0) && (t.bal == 0 ==> r.bal == -1) && (t.bal == 1 ==> r.bal == 0)
  {
    if t.bal == -1 && t.left.bal == 1 {
      assert Avl(t.left.right);
    }
  }

  /** Rebalancing keeps the objects and the order of the bindings. */
  lemma RebalanceKeeps(t: Tree, toRight: bool)
    requires Stale(t, toRight) && Distinct(t)
    ensures var r := Rebalance(t, toRight); Refs(r) == Refs(t) && Distinct(r) && InOrder(r) == InOrder(t)
  {
    if toRight {
      HeavyRightKeeps(t);
    } else {
      HeavyLeftKeeps(t);
    }
  }

  lemma HeavyRightKeeps(t: Tree)
    requires Stale(t, true) && Distinct(t)
    ensures var r := HeavyRight(t); Refs(r) == Refs(t) && Distinct(r) && InOrder(r) == InOrder(t)
  {
    if t.bal == 1 {
      var u := if t.right.bal == -1 then t.(right := RotateRight(t.right)) else t;
      if t.right.bal == -1 {
        RotateRightKeepsOrder(t.right);
        RotateRightKeepsRefs(t.right);
      }
      RotateLeftKeepsOrder(u);
      RotateLeftKeepsRefs(u);
      var r := RotateLeft(u);
      FactorsAside(r, HeavyRight(t));
    }
  }

  lemma HeavyLeftKeeps(t: Tree)
    requires Stale(t, false) && Distinct(t)
    ensures var r := HeavyLeft(t); Refs(r) == Refs(t) && Distinct(r) && InOrder(r) == InOrder(t)
  {
    if t.bal == -1 {
      var u := if t.left.bal == 1 then t.(left := RotateLeft(t.left)) else t;
      if t.left.bal == 1 {
        RotateLeftKeepsOrder(t.left);
        RotateLeftKeepsRefs(t.left);
      }
      RotateRightKeepsOrder(u);
      RotateRightKeepsRefs(u);
      var r := RotateRight(u);
      FactorsAside(r, HeavyLeft(t));
    }
  }

  /** Changing balance factors at the root and its children changes neither objects nor order. */
  lemma FactorsAside(t: Tree, u: Tree)
    requires t.Node? && u.Node? && u.ref == t.ref && u.b == t.b
    requires u.left == t.left || (t.left.Node? && u.left.Node? && u.left == t.left.(bal := u.left.bal))
    requires u.right == t.right || (t.right.Node? && u.right.Node? && u.right == t.right.(bal := u.right.bal))
    ensures Refs(u) == Refs(t) && InOrder(u) == InOrder(t) && (Distinct(t) ==> Distinct(u))
  {
    if t.left.Node? {
      FactorAside(t.left, u.left.bal);
    }
    if t.right.Node? {
      FactorAside(t.right, u.right.bal);
    }
  }

  lemma FactorAside(t: Tree, bal: int)
    requires t.Node?
    ensures var u := t.(bal := bal); Refs(u) == Refs(t) && InOrder(u) == InOrder(t) && Distinct(u) == Distinct(t)
  {
  }

  function Fib(n: nat): nat {
    if n < 2 then n else Fib(n - 2) + Fib(n - 1)
  }

  /** A tree with exact factors and height h holds at least Fib(h + 2) - 1 bindings. */
  lemma {:induction false} AvlIsShallow(t: Tree)
    requires Avl(t)
    ensures Fib(Height(t) + 2) <= |InOrder(t)| + 1
  {
    hide Fib;
    if t == Leaf {
      FibFirst();
    } else {
      AvlIsShallow(t.left);
      AvlIsShallow(t.right);
      var taller, other := Height(t) - 1, if t.bal < 0 then Height(t.right) else Height(t.left);
      FibMonotone(taller + 1, other + 2);
      FibSum(taller + 1);
    }
  }

  lemma FibFirst()
    ensures Fib(2) == 1
  {
    assert Fib(1) == 1;
  }

  lemma FibSum(n: nat)
    ensures Fib(n + 2) == Fib(n) + Fib(n + 1)
  {
  }

  lemma {:induction false} FibMonotone(m: nat, n: nat)
    ensures m <= n ==> Fib(m) <= Fib(n)
    decreases n
  {
    if m < n {
      FibMonotone(m, n - 1);
    }
  }
}
