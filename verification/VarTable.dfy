/** csh's variable (or alias) table: a header whose left link holds an AVL tree (bin/csh/set.c). */
module VarTable {
  import opened Basics
  import opened VarOrder
  import opened VarTree
  import opened VarBalance
  import opened VarMap

  class VarTable {
    const head: Varent
    ghost var tree: Tree

    ghost predicate Valid()
      reads this, head, Refs(tree)
    {
      Rooted(tree, head) && Sorted(InOrder(tree))
    }

    ghost function Contents(): map<Name, Vec>
      reads this
    {
      MapOf(InOrder(tree))
    }

    constructor ()
      ensures Valid() && fresh(head) && Contents() == map[]
    {
      head := new Varent([], [], null);
      tree := Leaf;
    }

    /** `adrof1`: the walk down from the header; the turns it takes are bounded by the tree's height. */
    method Adrof1(name: Name) returns (v: Varent?, ghost steps: nat)
      requires Valid()
      ensures v != null ==> v in Refs(tree) && v.name == name && name in Contents() && v.vec == Contents()[name]
      ensures v == null ==> name !in Contents()
      ensures steps <= Height(tree)
    {
      v, steps := head.left, 0;
      ghost var path, t, par: Varent := Top(head), tree, head;
      while v != null && Compare(name, v.name) != 0
        invariant Walking(tree, head, path, t, v, par, name)
        invariant steps + Height(t) <= Height(tree)
        decreases t
      {
        CompareIsTotalOrder(name, v.name, name);
        WalkDown(tree, head, path, t, v, par, name);
        var right := Compare(name, v.name) > 0;
        path, t, par := Down(path, t, right), Child(t, right), v;
        v := if right then v.right else v.left;
        steps := steps + 1;
      }
      if v == null {
        WalkEndsAbsent(path, name);
      } else {
        CompareIsTotalOrder(name, v.name, name);
        assert t.Node?;
        NodeIsBinding(path, t);
      }
    }

    /** Every object of the tree is at the end of some path. */
    lemma {:induction false} Locate(path: Path, t: Tree, p: Varent?, par: Varent, v: Varent)
      returns (path': Path, t': Tree)
      requires RepPath(path, p, par) && Rep(t, p, par) && Consistent(path, t, 0) && v in Refs(t)
      ensures t'.Node? && t'.ref == v && Plug(path', t') == Plug(path, t) && Head(path') == Head(path)
      ensures v.parent != null && RepPath(path', v, v.parent) && Rep(t', v, v.parent) && Consistent(path', t', 0)
      ensures Refs(t') + PathRefs(path') == Refs(t) + PathRefs(path)
      decreases t
    {
      if v == t.ref {
        path', t' := path, t;
      } else {
        var right := v in Refs(t.right);
        DownRep(path, t, p, par);
        DownConsistent(path, t, right);
        DownSame(path, t, right);
        path', t' := Locate(Down(path, t, right), Child(t, right), if right then p.right else p.left, p, v);
      }
    }

    method PutVec(c: Varent, vec: Vec, ghost path: Path, ghost t: Tree)
      requires c.parent != null && RepPath(path, c, c.parent) && Rep(t, c, c.parent) && t.Node?
      requires Consistent(path, t, 0)
      modifies c`vec
      ensures c.parent != null && RepPath(path, c, c.parent) && Rep(t.(b := t.b.(vec := vec)), c, c.parent)
    {
      c.vec := vec;
    }

    /** `c->vec = vec`, for a node of the tree. */
    method SetVec(c: Varent, vec: Vec)
      requires Valid() && c in Refs(tree)
      modifies this, c
      ensures Valid() && Refs(tree) == old(Refs(tree))
      ensures Contents() == old(Contents())[c.name := vec] && c.name == old(c.name)
    {
      hide MapOf, Sorted;
      ghost var path, t := Locate(Top(head), tree, head.left, head, c);
      hide Consistent;
      PutVec(c, vec, path, t);
      ghost var u := t.(b := t.b.(vec := vec));
      Rebind(path, t, vec);
      RebindConsistent(path, t, vec);
      CloseAll(path, u, c, c.parent);
      PlugShape(path, t);
      tree := Plug(path, u);
    }

    /** The walk of `setq`: the node that holds the name, or the link where a node for it belongs. */
    method FindLink(name: Name) returns (p: Varent, f: bool, c: Varent?, ghost path: Path, ghost t: Tree)
      requires Valid()
      ensures Valid() && Walking(tree, head, path, t, c, p, name) && f == (path.Step? && path.right)
      ensures c != null ==> c.name == name && c in Refs(tree) && name in Contents()
      ensures c == null ==> t == Leaf && name !in Contents()
    {
      p, f, c := head, false, head.left;
      path, t := Top(head), tree;
      RefsAllocated(tree);
      while c != null && Compare(name, c.name) != 0
        invariant Walking(tree, head, path, t, c, p, name) && Refs(t) <= Refs(tree)
        invariant f == (path.Step? && path.right)
        decreases t
      {
        CompareIsTotalOrder(name, c.name, name);
        WalkDown(tree, head, path, t, c, p, name);
        p, f := c, Compare(name, c.name) > 0;
        path, t := Down(path, t, f), Child(t, f);
        c := if f then p.right else p.left;
      }
      if c != null {
        CompareIsTotalOrder(name, c.name, name);
        assert t.Node?;
        NodeIsBinding(path, t);
      } else {
        WalkEndsAbsent(path, name);
      }
    }

    /** `setq`: overwrites the value bound to a name, or hangs a new node at its place and rebalances. */
    method Setq(name: Name, vec: Vec)
      requires Valid()
      modifies this, head, Refs(tree)
      ensures Valid() && fresh(Refs(tree) - old(Refs(tree)))
      ensures Contents() == old(Contents())[name := vec]
      ensures Refs(tree) >= old(Refs(tree)) && (Refs(tree) == old(Refs(tree)) <==> name in old(Contents()))
    {
      RefsAllocated(tree);
      ghost var path, t;
      var p, f, c;
      p, f, c, path, t := FindLink(name);
      if c != null {
        SetVec(c, vec);
      } else {
        c := InsertAt(p, f, name, vec, path);
      }
    }

    /** The new node takes its place below `p`, and the tree is rebalanced from there. (The source
        assigns the value after rebalancing, which does not look at it.) */
    method InsertAt(p: Varent, f: bool, name: Name, vec: Vec, ghost path: Path) returns (c: Varent)
      requires Valid() && Walking(tree, head, path, Leaf, null, p, name) && f == (path.Step? && path.right)
      modifies this, head, Refs(tree)
      ensures Valid() && Contents() == old(Contents())[name := vec]
      ensures fresh(c) && Refs(tree) == old(Refs(tree)) + {c}
    {
      hide MapOf, Sorted, Between, Distinct, DistinctPath;
      PathAllocated(path);
      c := new Varent(name, vec, p);
      ghost var t := Node(Leaf, c, Binding(name, vec), 0, Leaf);
      NewNode(path, c, Binding(name, vec));
      Inserted(path, c, Binding(name, vec));
      SetLink(p, f, c, path, null);
      tree := Balance(p, f, false, path, t, c);
    }

    /** The walk of `unsetv1` to the predecessor of `p`: left once, then right to the end. */
    method Predecessor(p: Varent, ghost path: Path, ghost t: Tree)
      returns (c: Varent, ghost path': Path, ghost t': Tree)
      requires p.parent != null && RepPath(path, p, p.parent) && Rep(t, p, p.parent)
      requires Consistent(path, t, 0) && t.Node? && t.left.Node?
      ensures c.parent != null && RepPath(path', c, c.parent) && Rep(t', c, c.parent) && Consistent(path', t', 0)
      ensures t'.Node? && t'.right == Leaf
      ensures Plug(path', t') == Plug(path, t) && Head(path') == Head(path)
      ensures Spine(path', Down(path, t, false))
      ensures Refs(t') + PathRefs(path') == Refs(t) + PathRefs(path) && c in Refs(t)
    {
      RefsAllocated(t);
      PathAllocated(path);
      c := p.left;
      DownRep(path, t, p, p.parent);
      DownConsistent(path, t, false);
      DownSame(path, t, false);
      path', t' := Down(path, t, false), t.left;
      while c.right != null
        invariant c.parent != null && RepPath(path', c, c.parent) && Rep(t', c, c.parent) && t'.Node?
        invariant Consistent(path', t', 0) && Plug(path', t') == Plug(path, t) && Head(path') == Head(path)
        invariant Spine(path', Down(path, t, false))
        invariant Refs(t') + PathRefs(path') == Refs(t) + PathRefs(path) && Refs(t') <= Refs(t)
        decreases t'
      {
        DownRep(path', t', c, c.parent);
        DownConsistent(path', t', true);
        DownSame(path', t', true);
        path', t' := Down(path', t', true), t'.right;
        c := c.right;
      }
    }

    /** `p->v_name = c->v_name; p->vec = c->vec`, where `c` is the predecessor of `p`. */
    method CopyUp(p: Varent, c: Varent, ghost path: Path, ghost t: Tree, ghost base: Path)
      requires c.parent != null && RepPath(path, c, c.parent) && Rep(t, c, c.parent) && t.Node?
      requires Consistent(path, t, 0) && base.Step? && !base.right && Spine(path, base) && base.ref == p
      modifies p`name, p`vec
      ensures c.parent != null && RepPath(Graft(path, base, t.b), c, c.parent) && Rep(t, c, c.parent)
    {
      SplitSpine(path, base, c, c.parent);
      assert p.parent != null && RepPath(base.up, p, p.parent) && Rep(base.sib, p.right, p);
      p.name := c.name;
      p.vec := c.vec;
      assert p.parent != null && RepPath(base.up, p, p.parent) && Rep(base.sib, p.right, p);
      JoinSpine(path, base, t.b, c, c.parent);
    }

    /** The one child of `p` moves into its place. */
    method Unlink(p: Varent, c: Varent?, ghost path: Path, ghost t: Tree) returns (pp: Varent, f: bool)
      requires p.parent != null && RepPath(path, p, p.parent) && Rep(t, p, p.parent)
      requires Consistent(path, t, 0) && t.Node? && (t.left == Leaf || t.right == Leaf)
      requires c == if p.right == null then p.left else p.right
      modifies PathRefs(path) + Refs(t)
      ensures RepPath(path, c, pp) && Rep(Rest(t), c, pp) && f == (path.Step? && path.right)
    {
      RestConsistent(path, t);
      RefsAllocated(Rest(t));
      assert Rep(Rest(t), c, p);
      pp := p.parent;
      SideIs(pp, p, path, t);
      f := pp.right == p;
      SetLink(pp, f, c, path, p);
      PathAllocated(path);
      SetParent(c, pp, Rest(t), p);
    }

    /** The tail of `unsetv1`: `p` is cut out, and the tree is rebalanced from its parent up. */
    method CutOut(p: Varent, c: Varent?, ghost path: Path, ghost t: Tree) returns (ghost tree': Tree)
      requires p.parent != null && RepPath(path, p, p.parent) && Rep(t, p, p.parent)
      requires Consistent(path, t, 0) && t.Node? && (t.left == Leaf || t.right == Leaf)
      requires c == if p.right == null then p.left else p.right
      modifies PathRefs(path) + Refs(t)
      ensures Rooted(tree', Head(path)) && InOrder(tree') == InOrder(Plug(path, Rest(t)))
      ensures p in Refs(Plug(path, t)) && Refs(tree') == Refs(Plug(path, t)) - {p}
    {
      var pp, f := Unlink(p, c, path, t);
      RestConsistent(path, t);
      tree' := Balance(pp, f, true, path, Rest(t), c);
      RestRefs(path, t, Refs(tree'));
    }

    /** The predecessor's binding moves up, and its node is cut out. */
    method MoveUp(p: Varent, c: Varent, ghost path: Path, ghost t: Tree, ghost base: Path) returns (ghost tree': Tree)
      requires c.parent != null && RepPath(path, c, c.parent) && Rep(t, c, c.parent) && t.Node? && t.right == Leaf
      requires Consistent(path, t, 0) && base.Step? && !base.right && Spine(path, base) && base.ref == p
      modifies PathRefs(path) + Refs(t)
      ensures Rooted(tree', Head(path)) && InOrder(tree') == InOrder(Plug(Graft(path, base, t.b), Rest(t)))
      ensures c in Refs(Plug(path, t)) && Refs(tree') == Refs(Plug(path, t)) - {c}
    {
      GraftConsistent(path, t, base, t.b);
      CopyUp(p, c, path, t, base);
      PlugShape(path, t);
      PlugShape(Graft(path, base, t.b), t);
      tree' := CutOut(c, c.left, Graft(path, base, t.b), t);
    }

    /** The case of two children. */
    method CutPredecessor(p: Varent, ghost path: Path, ghost t: Tree)
      returns (ghost tree': Tree, ghost gone: Varent)
      requires p.parent != null && RepPath(path, p, p.parent) && Rep(t, p, p.parent)
      requires Consistent(path, t, 0) && t.Node? && t.left.Node? && Sorted(InOrder(Plug(path, t)))
      modifies PathRefs(path) + Refs(t)
      ensures Rooted(tree', Head(path)) && Sorted(InOrder(tree'))
      ensures MapOf(InOrder(tree')) == MapOf(InOrder(Plug(path, t))) - {t.b.name}
      ensures gone in Refs(Plug(path, t)) && Refs(tree') == Refs(Plug(path, t)) - {gone}
    {
      ghost var path', t';
      var c;
      c, path', t' := Predecessor(p, path, t);
      GraftRemoves(path', t', Down(path, t, false));
      gone := c;
      tree' := MoveUp(p, c, path', t', Down(path, t, false));
    }

    /** At most one child: it moves into the place of `p`. */
    method CutSingle(p: Varent, c: Varent?, ghost path: Path, ghost t: Tree)
      returns (ghost tree': Tree, ghost gone: Varent)
      requires p.parent != null && RepPath(path, p, p.parent) && Rep(t, p, p.parent)
      requires Consistent(path, t, 0) && t.Node? && Sorted(InOrder(Plug(path, t)))
      requires t.left == Leaf || t.right == Leaf
      requires c == if p.right == null then p.left else p.right
      modifies PathRefs(path) + Refs(t)
      ensures Rooted(tree', Head(path)) && Sorted(InOrder(tree'))
      ensures MapOf(InOrder(tree')) == MapOf(InOrder(Plug(path, t))) - {t.b.name}
      ensures gone == p && gone in Refs(Plug(path, t)) && Refs(tree') == Refs(Plug(path, t)) - {gone}
    {
      RestRemoves(path, t);
      gone := p;
      tree' := CutOut(p, c, path, t);
    }

    /** `unsetv1`: removes the binding held by node `p`, and one node: that one, unless it has two children. */
    method Unsetv1(p: Varent) returns (ghost gone: Varent)
      requires Valid() && p in Refs(tree)
      modifies this, head, Refs(tree)
      ensures Valid() && gone in old(Refs(tree)) && Refs(tree) == old(Refs(tree)) - {gone}
      ensures Contents() == old(Contents()) - {old(p.name)}
      ensures old(p.left) == null || old(p.right) == null ==> gone == p
    {
      hide MapOf, Sorted, Avl, Distinct;
      ghost var path, t := Locate(Top(head), tree, head.left, head, p);
      ghost var tree';
      if p.right == null {
        tree', gone := CutSingle(p, p.left, path, t);
      } else if p.left == null {
        tree', gone := CutSingle(p, p.right, path, t);
      } else {
        tree', gone := CutPredecessor(p, path, t);
      }
      tree := tree';
    }

    /** `madrof`: the first binding below `vp0`, in order of names, whose name matches, or on whose name `Gmatch`
        reports an error, which ends the search. */
    method Madrof(pat: Pattern, vp0: Varent?, ghost t0: Tree, ghost par0: Varent) returns (r: Varent?)
      requires Rep(t0, vp0, par0)
      ensures r == null ==> NoneMatch(InOrder(t0), pat)
      ensures r != null ==> r in Refs(t0) && FirstMatch(InOrder(t0), Binding(r.name, r.vec), pat)
      decreases t0
    {
      var vp := vp0;
      ghost var t, par, seen := t0, par0, [];
      RefsAllocated(t0);
      while vp != null
        invariant Rep(t, vp, par) && Refs(t) <= Refs(t0) && (t != t0 ==> t < t0)
        invariant InOrder(t0) == seen + InOrder(t) && NoneMatch(seen, pat)
        decreases t
      {
        if vp.left != null {
          r := Madrof(pat, vp.left, t.left, vp);
          if r != null {
            SearchLeft(seen, t, Binding(r.name, r.vec), pat);
            return;
          }
        }
        SearchNode(seen, t, pat);
        if pat(vp.name) != Some(false) {
          return vp;
        }
        seen, t, par, vp := seen + InOrder(t.left) + [t.b], t.right, vp, vp.right;
      }
      assert InOrder(t0) == seen;
      r := null;
    }

    /** `madrof` on the whole table. */
    method FindMatch(pat: Pattern) returns (vp: Varent?)
      requires Valid()
      ensures Valid()
      ensures vp == null ==> forall name <- Contents() :: pat(name) == Some(false)
      ensures vp != null ==> vp in Refs(tree) && FirstOf(Contents(), vp.name, pat)
    {
      RefsAllocated(tree);
      vp := Madrof(pat, head.left, tree, head);
      if vp == null {
        NoneMatchInMap(InOrder(tree), pat);
      } else {
        FirstMatchInMap(InOrder(tree), Binding(vp.name, vp.vec), pat);
      }
    }

    /** The inner loop of `unset1`: as long as some name matches, the first one is unset. On an error `failed`, what
        came before it in the order of names is gone already. `cnt` is zero exactly when nothing goes. */
    method UnsetMatching(pat: Pattern) returns (cnt: nat, failed: bool)
      requires Valid()
      modifies this, head, Refs(tree)
      ensures Valid() && Refs(tree) <= old(Refs(tree))
      ensures Contents() == Unmatched(old(Contents()), pat)
      ensures failed <==> Fails(old(Contents()), pat)
      ensures cnt == 0 <==> Contents() == old(Contents())
    {
      hide Valid, Contents, Unmatched, Fails, FirstOf;
      cnt := 0;
      var vp := FindMatch(pat);
      while vp != null && pat(vp.name) == Some(true)
        invariant Valid() && Refs(tree) <= old(Refs(tree))
        invariant vp != null ==> vp in Refs(tree) && FirstOf(Contents(), vp.name, pat)
        invariant vp == null ==> forall name <- Contents() :: pat(name) == Some(false)
        invariant Unmatched(Contents(), pat) == Unmatched(old(Contents()), pat)
        invariant Fails(Contents(), pat) <==> Fails(old(Contents()), pat)
        invariant cnt == 0 ==> Contents() == old(Contents())
        invariant Contents().Keys <= old(Contents()).Keys
        invariant cnt > 0 ==> Contents().Keys < old(Contents()).Keys
        decreases Refs(tree)
      {
        UnmatchedWithout(Contents(), vp.name, pat);
        ghost var _ := Unsetv1(vp);
        cnt := cnt + 1;
        vp := FindMatch(pat);
      }
      failed := vp != null;
      if failed {
        UnmatchedFails(Contents(), vp.name, pat);
      } else {
        UnmatchedAll(Contents(), pat);
      }
    }

    /** `unset1`: every binding whose name matches one of the patterns goes, and no other. On an error only the first
        `done` patterns have been gone through, and the next up to the name on which it fails. */
    method Unset1(pats: seq<Pattern>) returns (done: nat)
      requires Valid()
      modifies this, head, Refs(tree)
      ensures Valid() && Refs(tree) <= old(Refs(tree))
      ensures done <= |pats| && forall k | 0 <= k < done :: !Fails(UnmatchedByAll(old(Contents()), pats[..k]), pats[k])
      ensures done == |pats| ==> Contents() == UnmatchedByAll(old(Contents()), pats)
      ensures done < |pats| ==> Fails(UnmatchedByAll(old(Contents()), pats[..done]), pats[done])
      ensures done < |pats| ==> Contents() == Unmatched(UnmatchedByAll(old(Contents()), pats[..done]), pats[done])
    {
      hide Valid, Contents, Unmatched, UnmatchedByAll, Fails;
      ghost var was := Contents();
      NoPatterns(was);
      for k := 0 to |pats|
        invariant Valid() && Refs(tree) <= old(Refs(tree))
        invariant Contents() == UnmatchedByAll(was, pats[..k])
        invariant forall j | 0 <= j < k :: !Fails(UnmatchedByAll(was, pats[..j]), pats[j])
      {
        var _, failed := UnsetMatching(pats[k]);
        if failed {
          return k;
        }
        OneMorePattern(was, pats, k);
      }
      assert pats[..|pats|] == pats;
      done := |pats|;
    }

    /** `while (p->v_left) p = p->v_left`, below the header. */
    method Leftmost(p0: Varent, ghost path0: Path, ghost t0: Tree) returns (p: Varent, ghost path: Path, ghost t: Tree)
      requires At(tree, head, path0, t0, p0)
      ensures At(tree, head, path, t, p) && t.left == Leaf && Before(path) == Before(path0)
    {
      p, path, t := p0, path0, t0;
      RefsAllocated(t0);
      PathAllocated(path0);
      while p.left != null
        invariant At(tree, head, path, t, p) && Before(path) == Before(path0)
        decreases t
      {
        AtDown(tree, head, path, t, p, false, p.left);
        assert Before(Down(path, t, false)) == Before(path);
        p, path, t := p.left, Down(path, t, false), t.left;
      }
      assert Rep(t.left, p.left, p);
    }

    /** `do { c = p; p = p->v_parent; } while (p->v_right == c)`: leaves every subtree of which `p0` was
        the last node. Ends at the header, or at the node that comes next in order. */
    method ClimbOut(p0: Varent, ghost path0: Path, ghost t0: Tree) returns (p: Varent, ghost path: Path, ghost t: Tree)
      requires At(tree, head, path0, t0, p0)
      ensures p == head ==> Before(path0) + InOrder(t0) == InOrder(tree)
      ensures p != head ==>
        At(tree, head, path, t, p) && Before(path) + InOrder(t.left) == Before(path0) + InOrder(t0)
    {
      var c := p0;
      p, path, t := p0.parent, path0, t0;
      AtHeader(tree, head, path, t, c);
      while p.right == c
        invariant At(tree, head, path, t, c) && p == c.parent
        invariant p.right == c <==> path.Step? && path.right
        invariant Before(path) + InOrder(t) == Before(path0) + InOrder(t0)
        decreases path
      {
        AtUp(tree, head, path, t, c);
        path, t, c, p := path.up, Close(path, t), p, p.parent;
        AtHeader(tree, head, path, t, c);
      }
      AtHeader(tree, head, path, t, c);
      if path.Step? {
        AtUp(tree, head, path, t, c);
        path, t := path.up, Close(path, t);
      }
    }

    /** `plist`: the stackless walk, from the header, that lists every binding once, in order of names. */
    method Plist() returns (out: seq<Binding>)
      requires Valid()
      ensures out == InOrder(tree) && MapOf(out) == Contents()
      ensures forall i, j :: 0 <= i < j < |out| ==> InFront(out[i].name, out[j].name)
    {
      out := Walk();
      forall i, j | 0 <= i < j < |out| ensures InFront(out[i].name, out[j].name) {
        LessExactly(out[i].name, out[j].name);
      }
    }

    /** The loop of `plist`. */
    method Walk() returns (out: seq<Binding>)
      requires Valid()
      ensures out == InOrder(tree) && Sorted(out) && MapOf(out) == Contents()
    {
      out := [];
      var p: Varent, down := head, true;
      ghost var path, t := Top(head), tree;
      RefsAllocated(tree);
      while true
        invariant Valid()
        invariant p == head ==> out == if down then [] else InOrder(tree)
        invariant p != head ==>
          At(tree, head, path, t, p) && out == Before(path) + if down then [] else InOrder(t.left)
        invariant |out| <= |InOrder(tree)|
        decreases |InOrder(tree)| - |out|
      {
        if down {
          if p == head && head.left != null {
            AtTop(tree, head, head.left);
            p, path, t := head.left, Top(head), tree;
          }
          if p != head {
            p, path, t := Leftmost(p, path, t);
            assert out == Before(path) + InOrder(t.left);
          }
        }
        if p.parent == null {
          return;
        }
        Listed(path, t, out);
        assert Rep(t.right, p.right, p);
        out := out + [Binding(p.name, p.vec)];
        if p.right != null {
          AtDown(tree, head, path, t, p, true, p.right);
          p, path, t, down := p.right, Down(path, t, true), t.right, true;
        } else {
          p, path, t := ClimbOut(p, path, t);
          down := false;
        }
      }
    }
  }

  /** No error up to `name`, in the order of names. */
  ghost predicate Reached(m: map<Name, Vec>, pat: Pattern, name: Name) {
    forall n <- m :: Less(n, name) ==> pat(n).Some?
  }

  /** What is left when the pattern is gone through in the order of names, up to an error. */
  ghost function Unmatched(m: map<Name, Vec>, pat: Pattern): map<Name, Vec> {
    map name | name in m && !(pat(name) == Some(true) && Reached(m, pat, name)) :: m[name]
  }

  /** Some name brings out an error in the pattern. */
  ghost predicate Fails(m: map<Name, Vec>, pat: Pattern) {
    exists name <- m :: pat(name).None?
  }

  lemma UnmatchedWithout(m: map<Name, Vec>, name: Name, pat: Pattern)
    requires FirstOf(m, name, pat) && pat(name) == Some(true)
    ensures Unmatched(m - {name}, pat) == Unmatched(m, pat)
    ensures Fails(m - {name}, pat) <==> Fails(m, pat)
    ensures (m - {name}).Keys < m.Keys
  {
    var r := m - {name};
    forall n ensures Reached(r, pat, n) <==> Reached(m, pat, n) {
      if Reached(r, pat, n) {
        forall k <- m | Less(k, n) ensures pat(k).Some? {
          assert k == name || k in r;
        }
      }
    }
    if n :| n in m && pat(n).None? {
      assert n in r;
    }
  }

  lemma UnmatchedAll(m: map<Name, Vec>, pat: Pattern)
    requires forall name <- m :: pat(name) == Some(false)
    ensures Unmatched(m, pat) == m && !Fails(m, pat)
  {
  }

  lemma Answers(a: Option<bool>)
    ensures a == None || a == Some(true) || a == Some(false)
  {
    if a.Some? {
      assert a == if a.value then Some(true) else Some(false);
    }
  }

  lemma UnmatchedFails(m: map<Name, Vec>, name: Name, pat: Pattern)
    requires FirstOf(m, name, pat) && pat(name) != Some(true)
    ensures Unmatched(m, pat) == m && Fails(m, pat)
  {
    Answers(pat(name));
    forall n <- m | pat(n) == Some(true) ensures !Reached(m, pat, n) {
      CompareIsTotalOrder(name, n, name);
      CompareIsTotalOrder(n, name, n);
      assert Less(name, n);
    }
  }

  ghost function UnmatchedByAll(m: map<Name, Vec>, pats: seq<Pattern>): map<Name, Vec> {
    map name | name in m && NoPatternMatches(pats, name) :: m[name]
  }

  ghost predicate NoPatternMatches(pats: seq<Pattern>, name: Name) {
    forall i :: 0 <= i < |pats| ==> pats[i](name) != Some(true)
  }

  lemma NoPatterns(m: map<Name, Vec>)
    ensures UnmatchedByAll(m, []) == m
  {
  }

  lemma OneMorePattern(m: map<Name, Vec>, pats: seq<Pattern>, k: nat)
    requires k < |pats| && !Fails(UnmatchedByAll(m, pats[..k]), pats[k])
    ensures Unmatched(UnmatchedByAll(m, pats[..k]), pats[k]) == UnmatchedByAll(m, pats[..k + 1])
  {
    var r := UnmatchedByAll(m, pats[..k]);
    forall n <- r ensures Reached(r, pats[k], n) {
    }
    var p, q := pats[..k], pats[..k + 1];
    forall name ensures NoPatternMatches(q, name) <==> NoPatternMatches(p, name) && pats[k](name) != Some(true) {
      assert q[k] == pats[k];
      assert forall i :: 0 <= i < k ==> q[i] == p[i];
    }
  }
}
