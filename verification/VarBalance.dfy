/** The rotations and the bottom-up rebalancing loop, on the linked nodes themselves (bin/csh/set.c). */
module VarBalance {
  import opened VarTree

  /** The nodes linked below `p` are laid out as `t` says; `par` is the parent of its root. */
  ghost predicate Rep(t: Tree, p: Varent?, par: Varent?)
    reads Refs(t)
  {
    match t
    case Leaf => p == null
    case Node(l, n, b, bal, r) =>
      && p == n && n.name == b.name && n.vec == b.vec && n.bal == bal && n.parent == par
      && Rep(l, n.left, n) && Rep(r, n.right, n)
  }

  /** The nodes from `p` up to the header, with what hangs beside them, are laid out as `path` says;
      the hole is the link to `child`. */
  ghost predicate RepPath(path: Path, child: Varent?, p: Varent)
    reads PathRefs(path)
  {
    match path
    case Top(h) => p == h && h.left == child && h.right == null && h.parent == null
    case Step(up, right, n, b, bal, sib) =>
      && p == n && n.name == b.name && n.vec == b.vec && n.bal == bal
      && n.parent != null && RepPath(up, n, n.parent)
      && (if right then n.right == child && Rep(sib, n.left, n) else n.left == child && Rep(sib, n.right, n))
  }

  lemma {:induction false} RefsAllocated(t: Tree)
    ensures forall o <- Refs(t) :: allocated(o)
  {
    if t.Node? {
      RefsAllocated(t.left);
      RefsAllocated(t.right);
    }
  }

  /** Hanging a subtree below another parent changes one link. */
  method SetParent(c: Varent?, par: Varent, ghost t: Tree, ghost was: Varent?)
    requires Rep(t, c, was) && Distinct(t)
    modifies Refs(t)`parent
    ensures Rep(t, c, par)
  {
    if c != null {
      c.parent := par;
      assert Rep(t.left, c.left, c) && Rep(t.right, c.right, c);
    }
  }

  method RotateLeftNodes(p: Varent, ghost t: Tree) returns (q: Varent)
    requires Rep(t, p, p.parent) && Distinct(t) && t.right.Node?
    modifies Refs(t)
    ensures q == t.right.ref && Rep(RotateLeft(t), q, old(p.parent))
  {
    q := p.right;
    RotateLeftLinks(p, q, t.left, t.right.left, t.right.right);
  }

  method RotateLeftLinks(p: Varent, q: Varent, ghost a: Tree, ghost b: Tree, ghost c: Tree)
    requires Rep(a, p.left, p) && p.right == q && Rep(b, q.left, q) && Rep(c, q.right, q)
    requires {p, q} !! Refs(a) !! Refs(b) !! Refs(c) && p != q && Distinct(b)
    modifies p`right, p`parent, q`left, q`parent, Refs(b)`parent
    ensures Rep(a, p.left, p) && Rep(b, p.right, p) && Rep(c, q.right, q)
    ensures q.left == p && p.parent == q && q.parent == old(p.parent)
  {
    HandRight(p, q, a, b, c);
    q.left := p;
    p.parent := q;
  }

  method HandRight(p: Varent, q: Varent, ghost a: Tree, ghost b: Tree, ghost c: Tree)
    requires Rep(a, p.left, p) && p.right == q && Rep(b, q.left, q) && Rep(c, q.right, q)
    requires {p, q} !! Refs(a) !! Refs(b) !! Refs(c) && p != q && Distinct(b)
    modifies p`right, q`parent, Refs(b)`parent
    ensures Rep(a, p.left, p) && Rep(b, p.right, p) && Rep(c, q.right, q) && q.parent == p.parent
  {
    RefsAllocated(a);
    RefsAllocated(c);
    q.parent := p.parent;
    p.right := q.left;
    SetParent(p.right, p, b, q);
  }

  method RotateRightNodes(p: Varent, ghost t: Tree) returns (q: Varent)
    requires Rep(t, p, p.parent) && Distinct(t) && t.left.Node?
    modifies Refs(t)
    ensures q == t.left.ref && Rep(RotateRight(t), q, old(p.parent))
  {
    q := p.left;
    RotateRightLinks(p, q, t.left.left, t.left.right, t.right);
  }

  method RotateRightLinks(p: Varent, q: Varent, ghost a: Tree, ghost b: Tree, ghost c: Tree)
    requires Rep(a, q.left, q) && p.left == q && Rep(b, q.right, q) && Rep(c, p.right, p)
    requires {p, q} !! Refs(a) !! Refs(b) !! Refs(c) && p != q && Distinct(b)
    modifies p`left, p`parent, q`right, q`parent, Refs(b)`parent
    ensures Rep(a, q.left, q) && Rep(b, p.left, p) && Rep(c, p.right, p)
    ensures q.right == p && p.parent == q && q.parent == old(p.parent)
  {
    HandLeft(p, q, a, b, c);
    q.right := p;
    p.parent := q;
  }

  method HandLeft(p: Varent, q: Varent, ghost a: Tree, ghost b: Tree, ghost c: Tree)
    requires Rep(a, q.left, q) && p.left == q && Rep(b, q.right, q) && Rep(c, p.right, p)
    requires {p, q} !! Refs(a) !! Refs(b) !! Refs(c) && p != q && Distinct(b)
    modifies p`left, q`parent, Refs(b)`parent
    ensures Rep(a, q.left, q) && Rep(b, p.left, p) && Rep(c, p.right, p) && q.parent == p.parent
  {
    RefsAllocated(a);
    RefsAllocated(c);
    q.parent := p.parent;
    p.left := q.right;
    SetParent(p.left, p, b, q);
  }

  /** The double rotation: the heavy child is rotated the other way first. */
  method RotateRightThenLeft(p: Varent, ghost t: Tree) returns (q: Varent)
    requires Rep(t, p, p.parent) && Distinct(t) && t.right.Node? && t.right.left.Node?
    modifies Refs(t)
    ensures var r := RotateLeft(t.(right := RotateRight(t.right))); Rep(r, q, old(p.parent)) && q == r.ref
  {
    RefsAllocated(t.left);
    RotateRightKeepsRefs(t.right);
    var c := RotateRightNodes(p.right, t.right);
    p.right := c;
    q := RotateLeftNodes(p, t.(right := RotateRight(t.right)));
  }

  method RotateLeftThenRight(p: Varent, ghost t: Tree) returns (q: Varent)
    requires Rep(t, p, p.parent) && Distinct(t) && t.left.Node? && t.left.right.Node?
    modifies Refs(t)
    ensures var r := RotateRight(t.(left := RotateLeft(t.left))); Rep(r, q, old(p.parent)) && q == r.ref
  {
    RefsAllocated(t.right);
    RotateLeftKeepsRefs(t.left);
    var c := RotateLeftNodes(p.left, t.left);
    p.left := c;
    q := RotateRightNodes(p, t.(left := RotateLeft(t.left)));
  }

  method SetBal(q: Varent, x: int, ghost t: Tree)
    requires Rep(t, q, q.parent) && Distinct(t)
    modifies q`bal
    ensures Rep(t.(bal := x), q, q.parent)
  {
    q.bal := x;
  }

  method SetLeftBal(q: Varent, x: int, ghost t: Tree)
    requires Rep(t, q, q.parent) && Distinct(t) && t.left.Node?
    modifies Refs(t)`bal
    ensures Rep(t.(left := t.left.(bal := x)), q, q.parent)
  {
    assert Rep(t.left, q.left, q) && Rep(t.right, q.right, q);
    q.left.bal := x;
    assert Rep(t.right, q.right, q);
  }

  method SetRightBal(q: Varent, x: int, ghost t: Tree)
    requires Rep(t, q, q.parent) && Distinct(t) && t.right.Node?
    modifies Refs(t)`bal
    ensures Rep(t.(right := t.right.(bal := x)), q, q.parent)
  {
    assert Rep(t.left, q.left, q) && Rep(t.right, q.right, q);
    q.right.bal := x;
    assert Rep(t.left, q.left, q);
  }

  /** Setting the three factors after a double rotation. */
  method SetBalances(q: Varent, ghost t: Tree)
    requires Rep(t, q, q.parent) && Distinct(t) && t.left.Node? && t.right.Node?
    modifies Refs(t)`bal
    ensures Rep(Node(t.left.(bal := if t.bal < 1 then 0 else -1), t.ref, t.b, 0,
                     t.right.(bal := if t.bal > -1 then 0 else 1)), q, q.parent)
  {
    ghost var l := t.(left := t.left.(bal := if t.bal < 1 then 0 else -1));
    SetLeftBal(q, if q.bal < 1 then 0 else -1, t);
    ghost var r := l.(right := l.right.(bal := if t.bal > -1 then 0 else 1));
    SetRightBal(q, if q.bal > -1 then 0 else 1, l);
    SetBal(q, 0, r);
  }

  /** Setting the factors of the new root and of the old one after a single rotation. */
  method SetPair(q: Varent, onLeft: bool, child: int, root: int, ghost t: Tree)
    requires Rep(t, q, q.parent) && Distinct(t) && (if onLeft then t.left.Node? else t.right.Node?)
    modifies Refs(t)`bal
    ensures Rep(if onLeft then Node(t.left.(bal := child), t.ref, t.b, root, t.right)
                else Node(t.left, t.ref, t.b, root, t.right.(bal := child)), q, q.parent)
  {
    if onLeft {
      SetLeftBal(q, child, t);
      SetBal(q, root, t.(left := t.left.(bal := child)));
    } else {
      SetRightBal(q, child, t);
      SetBal(q, root, t.(right := t.right.(bal := child)));
    }
  }

  method HeavyRightNodes(p: Varent, ghost t: Tree) returns (q: Varent)
    requires Rep(t, p, p.parent) && Distinct(t) && Stale(t, true)
    modifies Refs(t)
    ensures Rep(HeavyRight(t), q, old(p.parent)) && q == HeavyRight(t).ref
  {
    if p.bal != 1 {
      q := p;
      SetBal(p, if p.bal == -1 then 0 else 1, t);
    } else if p.right.bal == 1 || p.right.bal == 0 {
      RotateLeftKeepsRefs(t);
      var even := p.right.bal == 0;
      q := RotateLeftNodes(p, t);
      SetPair(q, true, if even then 1 else 0, if even then -1 else 0, RotateLeft(t));
    } else {
      RotateRightKeepsRefs(t.right);
      RotateLeftKeepsRefs(t.(right := RotateRight(t.right)));
      q := RotateRightThenLeft(p, t);
      SetBalances(q, RotateLeft(t.(right := RotateRight(t.right))));
    }
  }

  method HeavyLeftNodes(p: Varent, ghost t: Tree) returns (q: Varent)
    requires Rep(t, p, p.parent) && Distinct(t) && Stale(t, false)
    modifies Refs(t)
    ensures Rep(HeavyLeft(t), q, old(p.parent)) && q == HeavyLeft(t).ref
  {
    if p.bal != -1 {
      q := p;
      SetBal(p, if p.bal == 1 then 0 else -1, t);
    } else if p.left.bal == -1 || p.left.bal == 0 {
      RotateRightKeepsRefs(t);
      var even := p.left.bal == 0;
      q := RotateRightNodes(p, t);
      SetPair(q, false, if even then -1 else 0, if even then 1 else 0, RotateRight(t));
    } else {
      RotateLeftKeepsRefs(t.left);
      RotateRightKeepsRefs(t.(left := RotateLeft(t.left)));
      q := RotateLeftThenRight(p, t);
      SetBalances(q, RotateRight(t.(left := RotateLeft(t.left))));
    }
  }

  lemma {:induction false} PathAllocated(path: Path)
    ensures forall o <- PathRefs(path) :: allocated(o)
  {
    if path.Step? {
      RefsAllocated(path.sib);
      PathAllocated(path.up);
    }
  }

  /** `pp->v_link[ff] = q`: what hangs in the hole is replaced. */
  method SetLink(pp: Varent, ff: bool, q: Varent?, ghost path: Path, ghost was: Varent?)
    requires RepPath(path, was, pp) && DistinctPath(path)
    requires ff == (path.Step? && path.right)
    modifies pp`left, pp`right
    ensures RepPath(path, q, pp)
  {
    if ff {
      assert Rep(path.sib, pp.left, pp) && RepPath(path.up, pp, pp.parent);
      pp.right := q;
    } else {
      assert path.Step? ==> Rep(path.sib, pp.right, pp) && RepPath(path.up, pp, pp.parent);
      pp.left := q;
    }
  }

  /** The test `pp->v_right == p` tells which link of `pp` leads to `p`. */
  lemma SideIs(pp: Varent, p: Varent, path: Path, t: Tree)
    requires RepPath(path, p, pp) && DistinctPath(path)
    requires t.Node? && t.ref == p && Refs(t) !! PathRefs(path)
    ensures pp.right == p <==> path.Step? && path.right
  {
    assert p in Refs(t);
  }

  /** The switch of one turn of the loop, for a node whose children are as `t` says. */
  method RebalanceNodes(p: Varent, toRight: bool, ghost t: Tree) returns (q: Varent)
    requires Rep(t, p, p.parent) && Distinct(t) && Stale(t, toRight)
    modifies Refs(t)
    ensures var r := Rebalance(t, toRight); r.Node? && r.ref == q && Rep(r, q, old(p.parent))
  {
    if toRight {
      q := HeavyRightNodes(p, t);
    } else {
      q := HeavyLeftNodes(p, t);
    }
  }

  /** Closing one step of the path makes a subtree out of the node there. */
  lemma CloseRep(path: Path, t: Tree, child: Varent?, p: Varent)
    requires path.Step? && RepPath(path, child, p) && Rep(t, child, p)
    ensures Rep(Close(path, t), p, p.parent) && RepPath(path.up, p, p.parent)
  {
  }

  /** Closing the whole path gives back a tree that hangs off the header. */
  lemma {:induction false} PlugRep(path: Path, t: Tree, child: Varent?, p: Varent)
    requires RepPath(path, child, p) && Rep(t, child, p)
    ensures Rep(Plug(path, t), Head(path).left, Head(path))
    ensures Head(path).right == null && Head(path).parent == null
  {
    if path.Step? {
      CloseRep(path, t, child, p);
      PlugRep(path.up, Close(path, t), p, p.parent);
    }
  }

  /** A tree that hangs off the header, with exact balance factors. */
  ghost predicate Rooted(tree: Tree, head: Varent)
    reads head, Refs(tree)
  {
    && Rep(tree, head.left, head) && head.right == null && head.parent == null
    && Distinct(tree) && head !in Refs(tree) && Avl(tree)
  }

  lemma CloseAll(path: Path, t: Tree, child: Varent?, p: Varent)
    requires RepPath(path, child, p) && Rep(t, child, p) && Consistent(path, t, 0)
    ensures Rooted(Plug(path, t), Head(path))
    ensures Refs(Plug(path, t)) + {Head(path)} == Refs(t) + PathRefs(path)
  {
    PlugRep(path, t, child, p);
    PlugShape(path, t);
    PlugAvl(path, t);
  }

  /** The height change still to be absorbed above the hole. */
  function Due(done: bool, d: bool): int {
    if done then 0 else if d then 1 else -1
  }

  /** A tree and the path above it share no object, and their balance factors are exact up to `due`. */
  ghost predicate Consistent(path: Path, t: Tree, due: int) {
    && Distinct(t) && DistinctPath(path) && Refs(t) !! PathRefs(path)
    && Avl(t) && AvlPath(path, Height(t) + due)
  }

  lemma CloseDistinct(path: Path, t: Tree)
    requires path.Step? && Distinct(t) && DistinctPath(path) && Refs(t) !! PathRefs(path)
    ensures Distinct(Close(path, t))
  {
  }

  /** The node at the end of the path, seen with its stale factor. */
  lemma CloseIsStale(path: Path, t: Tree, d: bool)
    requires path.Step? && Consistent(path, t, Due(false, d))
    ensures var node := Close(path, t);
      && Stale(node, path.right != d) && Distinct(node)
      && AvlPath(path.up, OldHeight(node, path.right != d, d))
  {
    CloseDistinct(path, t);
    hide Distinct, DistinctPath, Refs, PathRefs;
  }

  lemma CloseRefs(path: Path, t: Tree)
    requires path.Step? && DistinctPath(path) && Refs(t) !! PathRefs(path)
    ensures Refs(Close(path, t)) !! PathRefs(path.up)
    ensures Refs(Close(path, t)) + PathRefs(path.up) == Refs(t) + PathRefs(path)
  {
  }

  lemma PlugSameOrder(path: Path, t: Tree, u: Tree)
    requires InOrder(t) == InOrder(u)
    ensures InOrder(Plug(path, t)) == InOrder(Plug(path, u))
  {
    PlugInOrder(path, t);
    PlugInOrder(path, u);
  }

  /** `r` is `t` with exact factors again; its root factor tells how much of the change is still due. */
  ghost predicate Settled(t: Tree, r: Tree, toRight: bool, d: bool) {
    && t.Node? && r.Node? && Avl(r) && Distinct(r) && Refs(r) == Refs(t) && InOrder(r) == InOrder(t)
    && Height(r) + Due((r.bal == 0) != d, d) == OldHeight(t, toRight, d)
  }

  lemma RebalanceSettles(t: Tree, toRight: bool, d: bool)
    requires Stale(t, toRight) && Distinct(t)
    ensures Settled(t, Rebalance(t, toRight), toRight, d)
  {
    RebalanceKeeps(t, toRight);
    RebalanceRestores(t, toRight, d);
  }

  /** What one turn of the loop does to the abstract tree: the next position is consistent again, no
      object is gained or lost, and the bindings keep their order. */
  lemma StepConsistent(path: Path, t: Tree, r: Tree, d: bool)
    requires path.Step? && Consistent(path, t, Due(false, d))
    requires Settled(Close(path, t), r, path.right != d, d)
    ensures Consistent(path.up, r, Due((r.bal == 0) != d, d))
  {
    hide Distinct, Refs, PathRefs, InOrder, Avl, Height, OldHeight, Stale, Close;
    CloseIsStale(path, t, d);
    CloseRefs(path, t);
  }

  lemma StepRefs(path: Path, t: Tree, r: Tree, d: bool)
    requires path.Step? && Consistent(path, t, Due(false, d))
    requires Settled(Close(path, t), r, path.right != d, d)
    ensures Refs(r) + PathRefs(path.up) == Refs(t) + PathRefs(path)
  {
    CloseRefs(path, t);
  }

  lemma StepOrder(path: Path, t: Tree, r: Tree, d: bool)
    requires path.Step? && Settled(Close(path, t), r, path.right != d, d)
    ensures InOrder(Plug(path.up, r)) == InOrder(Plug(path, t))
  {
    PlugSameOrder(path.up, Close(path, t), r);
  }

  /** One turn of the loop: rebalance `p` and hang the result below `pp`. */
  method BalanceStep(p: Varent, pp: Varent, toRight: bool, d: bool, ff: bool, ghost t: Tree, ghost up: Path)
    returns (q: Varent, ghost r: Tree)
    requires Rep(t, p, pp) && Distinct(t) && Stale(t, toRight) && pp == p.parent
    requires RepPath(up, p, pp) && DistinctPath(up) && Refs(t) !! PathRefs(up)
    requires ff == (up.Step? && up.right)
    modifies Refs(t) + PathRefs(up)
    ensures RepPath(up, q, pp) && Rep(r, q, pp) && Settled(t, r, toRight, d) && q.bal == r.bal
  {
    PathAllocated(up);
    RefsAllocated(t);
    RebalanceSettles(t, toRight, d);
    q := RebalanceNodes(p, toRight, t);
    r := Rebalance(t, toRight);
    assert RepPath(up, p, pp) && pp in PathRefs(up);
    if q != p {
      SetLink(pp, ff, q, up, p);
    }
  }

  method Climb(p: Varent, pp: Varent, f: bool, d: bool, ghost path: Path, ghost t: Tree, ghost child: Varent?)
    returns (q: Varent, ff: bool, ghost r: Tree)
    requires RepPath(path, child, p) && Rep(t, child, p)
    requires path.Step? && Consistent(path, t, Due(false, d)) && f == path.right && pp == p.parent
    modifies Refs(t) + PathRefs(path)
    ensures RepPath(path.up, q, pp) && Rep(r, q, pp) && Settled(Close(path, t), r, path.right != d, d)
    ensures q.bal == r.bal && ff == (path.up.Step? && path.up.right)
  {
    ghost var node := Close(path, t);
    CloseIsStale(path, t, d);
    CloseRefs(path, t);
    CloseRep(path, t, child, p);
    SideIs(pp, p, path.up, node);
    ff := pp.right == p;
    q, r := BalanceStep(p, pp, f != d, d, ff, node, path.up);
  }

  /** `balance`: walks from `p0` towards the header, restoring exact balance factors, until the height
      change is absorbed. `f0` is the side of `p0` whose height changed, `d` tells deletion from insertion. */
  method Balance(p0: Varent, f0: bool, d: bool, ghost path0: Path, ghost t0: Tree, ghost child0: Varent?)
    returns (ghost tree: Tree)
    requires RepPath(path0, child0, p0) && Rep(t0, child0, p0)
    requires Consistent(path0, t0, Due(false, d)) && f0 == (path0.Step? && path0.right)
    modifies Refs(t0) + PathRefs(path0)
    ensures Rooted(tree, Head(path0)) && InOrder(tree) == InOrder(Plug(path0, t0))
    ensures Refs(tree) + {Head(path0)} == Refs(t0) + PathRefs(path0)
  {
    var p: Varent, f: bool := p0, f0;
    ghost var path, t, child := path0, t0, child0;
    var done := false;
    while !done && p.parent != null
      invariant RepPath(path, child, p) && Rep(t, child, p)
      invariant Consistent(path, t, Due(done, d)) && f == (path.Step? && path.right)
      invariant Head(path) == Head(path0) && Refs(t) + PathRefs(path) == Refs(t0) + PathRefs(path0)
      invariant InOrder(Plug(path, t)) == InOrder(Plug(path0, t0))
      decreases path
    {
      var pp := p.parent;
      ghost var r;
      var q, ff;
      q, ff, r := Climb(p, pp, f, d, path, t, child);
      StepConsistent(path, t, r, d);
      StepRefs(path, t, r, d);
      StepOrder(path, t, r, d);
      done := (q.bal == 0) != d;
      path, t, child := path.up, r, q;
      p, f := pp, ff;
    }
    CloseAll(path, t, child, p);
    tree := Plug(path, t);
  }
}
