/** What a tree of bindings means as a map, and how a walk down narrows the place of a name. */
module VarMap {
  import opened Basics
  import opened VarOrder
  import opened VarTree
  import opened VarBalance

  ghost predicate Sorted(s: seq<Binding>) {
    forall i, j :: 0 <= i < j < |s| ==> Less(s[i].name, s[j].name)
  }

  /** The map a list of bindings stands for. */
  ghost function MapOf(s: seq<Binding>): map<Name, Vec> {
    if s == [] then map[] else MapOf(s[1..])[s[0].name := s[0].vec]
  }

  lemma {:induction false} MapOfConcat(a: seq<Binding>, b: seq<Binding>)
    ensures MapOf(a + b) == MapOf(b) + MapOf(a)
  {
    if a == [] {
      assert a + b == b;
    } else {
      MapOfConcat(a[1..], b);
      assert (a + b)[1..] == a[1..] + b;
    }
  }

  lemma {:induction false} MapOfKeys(s: seq<Binding>, name: Name)
    ensures name in MapOf(s) <==> exists i :: 0 <= i < |s| && s[i].name == name
  {
    if s != [] {
      MapOfKeys(s[1..], name);
      if name in MapOf(s[1..]) {
        var i :| 0 <= i < |s[1..]| && s[1..][i].name == name;
        assert s[i + 1].name == name;
      }
      if i :| 0 < i < |s| && s[i].name == name {
        assert s[1..][i - 1].name == name;
      }
    }
  }

  /** Everything in `s` is below, or above, `name`. */
  ghost predicate Below(s: seq<Binding>, name: Name) {
    forall i :: 0 <= i < |s| ==> Less(s[i].name, name)
  }

  ghost predicate Above(s: seq<Binding>, name: Name) {
    forall i :: 0 <= i < |s| ==> Less(name, s[i].name)
  }

  /** The name belongs into the hole. */
  ghost predicate Between(path: Path, name: Name) {
    Below(Before(path), name) && Above(After(path), name)
  }

  lemma AroundMeans(a: seq<Binding>, b: Binding, c: seq<Binding>)
    requires Below(a, b.name) && Above(c, b.name)
    ensures b.name !in MapOf(a + c)
    ensures MapOf(a + [b] + c) == MapOf(a + c)[b.name := b.vec]
  {
    NotInMap(a, b.name);
    NotInMap(c, b.name);
    MapOfConcat(a, c);
    MapOfConcat(a, [b] + c);
    assert a + [b] + c == a + ([b] + c);
    MapOfCons(b, c);
  }

  lemma MapOfCons(b: Binding, c: seq<Binding>)
    ensures MapOf([b] + c) == MapOf(c)[b.name := b.vec]
  {
    assert ([b] + c)[1..] == c;
  }

  lemma NotInMap(s: seq<Binding>, name: Name)
    requires Below(s, name) || Above(s, name)
    ensures name !in MapOf(s)
  {
    MapOfKeys(s, name);
    forall i | 0 <= i < |s| ensures s[i].name != name {
      CompareIsTotalOrder(s[i].name, name, name);
    }
  }

  /** In a sorted list every element separates what stands before it from what stands after it. */
  lemma SortedSplits(a: seq<Binding>, b: Binding, c: seq<Binding>)
    requires Sorted(a + [b] + c)
    ensures Below(a, b.name) && Above(c, b.name)
  {
    var s := a + [b] + c;
    assert s[|a|] == b;
    forall i | 0 <= i < |a| ensures Less(a[i].name, b.name) {
      assert s[i] == a[i];
    }
    forall i | 0 <= i < |c| ensures Less(b.name, c[i].name) {
      assert s[|a| + 1 + i] == c[i];
    }
  }

  lemma SortedInsert(a: seq<Binding>, b: Binding, c: seq<Binding>)
    requires Sorted(a + c) && Below(a, b.name) && Above(c, b.name)
    ensures Sorted(a + [b] + c)
  {
    var s, t := a + [b] + c, a + c;
    forall i, j | 0 <= i < j < |s| ensures Less(s[i].name, s[j].name) {
      if i < |a| && j > |a| {
        assert s[i] == t[i] && s[j] == t[j - 1];
      } else if j < |a| {
        assert s[i] == t[i] && s[j] == t[j];
      } else if i > |a| {
        assert s[i] == t[i - 1] && s[j] == t[j - 1];
      } else if i == |a| {
        assert s[j] == c[j - |a| - 1];
      }
    }
  }

  lemma SortedDelete(a: seq<Binding>, b: Binding, c: seq<Binding>)
    requires Sorted(a + [b] + c)
    ensures Sorted(a + c)
  {
    var s, t := a + [b] + c, a + c;
    forall i, j | 0 <= i < j < |t| ensures Less(t[i].name, t[j].name) {
      assert t[i] == s[if i < |a| then i else i + 1];
      assert t[j] == s[if j < |a| then j else j + 1];
    }
  }

  lemma BelowTrans(s: seq<Binding>, a: Name, b: Name)
    requires Below(s, a) && Less(a, b)
    ensures Below(s, b)
  {
    forall i | 0 <= i < |s| ensures Less(s[i].name, b) {
      CompareIsTotalOrder(s[i].name, a, b);
    }
  }

  lemma AboveTrans(s: seq<Binding>, a: Name, b: Name)
    requires Above(s, a) && Less(b, a)
    ensures Above(s, b)
  {
    forall i | 0 <= i < |s| ensures Less(b, s[i].name) {
      CompareIsTotalOrder(b, a, s[i].name);
    }
  }

  /** The path to a child of the node in the hole. */
  function Down(path: Path, t: Tree, right: bool): Path
    requires t.Node?
  {
    Step(path, right, t.ref, t.b, t.bal, if right then t.left else t.right)
  }

  function Child(t: Tree, right: bool): Tree
    requires t.Node?
  {
    if right then t.right else t.left
  }

  /** Going down one link looks at the same tree. */
  lemma DownSame(path: Path, t: Tree, right: bool)
    requires t.Node?
    ensures Plug(Down(path, t, right), Child(t, right)) == Plug(path, t)
    ensures Head(Down(path, t, right)) == Head(path)
    ensures Refs(Child(t, right)) + PathRefs(Down(path, t, right)) == Refs(t) + PathRefs(path)
  {
  }

  lemma DownConsistent(path: Path, t: Tree, right: bool)
    requires t.Node? && Consistent(path, t, 0)
    ensures Consistent(Down(path, t, right), Child(t, right), 0)
  {
  }

  lemma DownRep(path: Path, t: Tree, p: Varent, par: Varent)
    requires t.Node? && RepPath(path, p, par) && Rep(t, p, par)
    ensures RepPath(Down(path, t, false), p.left, p) && Rep(t.left, p.left, p)
    ensures RepPath(Down(path, t, true), p.right, p) && Rep(t.right, p.right, p)
  {
  }

  /** Where the node in the hole stands among the bindings. */
  lemma NodeSplits(path: Path, t: Tree)
    requires t.Node? && Sorted(InOrder(Plug(path, t)))
    ensures InOrder(Plug(path, t)) == (Before(path) + InOrder(t.left)) + [t.b] + (InOrder(t.right) + After(path))
    ensures Below(Before(path) + InOrder(t.left), t.b.name)
    ensures Above(InOrder(t.right) + After(path), t.b.name)
  {
    PlugInOrder(path, t);
    Regroup5(Before(path), InOrder(t.left), [t.b], InOrder(t.right), After(path));
    SortedSplits(Before(path) + InOrder(t.left), t.b, InOrder(t.right) + After(path));
  }

  lemma Regroup5<T>(p: seq<T>, l: seq<T>, b: seq<T>, r: seq<T>, n: seq<T>)
    ensures p + (l + b + r) + n == (p + l) + b + (r + n)
  {
  }

  lemma ConcatBounds(a: seq<Binding>, b: seq<Binding>, name: Name)
    ensures Below(a + b, name) <==> Below(a, name) && Below(b, name)
    ensures Above(a + b, name) <==> Above(a, name) && Above(b, name)
  {
    var s := a + b;
    assert forall i :: 0 <= i < |a| ==> s[i] == a[i];
    assert forall i :: 0 <= i < |b| ==> s[|a| + i] == b[i];
  }

  /** Going down towards a name keeps its place in the hole. */
  lemma DownBetween(path: Path, t: Tree, name: Name)
    requires t.Node? && Sorted(InOrder(Plug(path, t))) && Between(path, name)
    ensures Less(name, t.b.name) ==> Between(Down(path, t, false), name)
    ensures Less(t.b.name, name) ==> Between(Down(path, t, true), name)
  {
    NodeSplits(path, t);
    var l, r := Before(path) + InOrder(t.left), InOrder(t.right) + After(path);
    ConcatBounds(Before(path), InOrder(t.left), t.b.name);
    ConcatBounds(InOrder(t.right), After(path), t.b.name);
    if Less(name, t.b.name) {
      AboveTrans(InOrder(t.right), t.b.name, name);
      ConcatBounds([t.b], InOrder(t.right), name);
      ConcatBounds([t.b] + InOrder(t.right), After(path), name);
      assert Before(Down(path, t, false)) == Before(path);
    }
    if Less(t.b.name, name) {
      BelowTrans(InOrder(t.left), t.b.name, name);
      ConcatBounds(InOrder(t.left), [t.b], name);
      ConcatBounds(Before(path), InOrder(t.left) + [t.b], name);
      assert After(Down(path, t, true)) == After(path);
    }
  }

  /** The turn a walk takes at a node with another name. */
  lemma DownTowards(path: Path, t: Tree, name: Name)
    requires t.Node? && Sorted(InOrder(Plug(path, t))) && Between(path, name) && name != t.b.name
    ensures Between(Down(path, t, Compare(name, t.b.name) > 0), name)
  {
    CompareIsTotalOrder(t.b.name, name, name);
    CompareIsTotalOrder(name, t.b.name, name);
    DownBetween(path, t, name);
  }

  /** A walk that ends in an empty link has shown that the name is not bound. */
  lemma WalkEndsAbsent(path: Path, name: Name)
    requires Between(path, name)
    ensures name !in MapOf(InOrder(Plug(path, Leaf)))
  {
    PlugInOrder(path, Leaf);
    assert Before(path) + [] + After(path) == Before(path) + After(path);
    MapOfConcat(Before(path), After(path));
    NotInMap(Before(path), name);
    NotInMap(After(path), name);
  }

  /** A node holds the binding of its name. */
  lemma NodeIsBinding(path: Path, t: Tree)
    requires t.Node? && Sorted(InOrder(Plug(path, t)))
    ensures var m := MapOf(InOrder(Plug(path, t))); t.b.name in m && m[t.b.name] == t.b.vec
  {
    NodeSplits(path, t);
    AroundMeans(Before(path) + InOrder(t.left), t.b, InOrder(t.right) + After(path));
  }

  /** Replacing the value held by a node updates the map at its name only. */
  lemma Rebind(path: Path, t: Tree, vec: Vec)
    requires t.Node? && Sorted(InOrder(Plug(path, t)))
    ensures var u := t.(b := t.b.(vec := vec));
      && Sorted(InOrder(Plug(path, u)))
      && MapOf(InOrder(Plug(path, u))) == MapOf(InOrder(Plug(path, t)))[t.b.name := vec]
  {
    var u := t.(b := t.b.(vec := vec));
    var a, c := Before(path) + InOrder(t.left), InOrder(t.right) + After(path);
    NodeSplits(path, t);
    PlugInOrder(path, u);
    Regroup5(Before(path), InOrder(t.left), [u.b], InOrder(t.right), After(path));
    SortedDelete(a, t.b, c);
    SortedInsert(a, u.b, c);
    AroundMeans(a, t.b, c);
    AroundMeans(a, u.b, c);
  }

  lemma RebindConsistent(path: Path, t: Tree, vec: Vec)
    requires t.Node? && Consistent(path, t, 0)
    ensures var u := t.(b := t.b.(vec := vec)); Consistent(path, u, 0) && Refs(u) == Refs(t)
  {
  }

  /** Putting a new node into an empty link where its name belongs adds one binding. */
  lemma Inserted(path: Path, v: Varent, b: Binding)
    requires Sorted(InOrder(Plug(path, Leaf))) && Between(path, b.name)
    ensures var s := InOrder(Plug(path, Node(Leaf, v, b, 0, Leaf)));
      Sorted(s) && MapOf(s) == MapOf(InOrder(Plug(path, Leaf)))[b.name := b.vec]
  {
    hide Sorted, MapOf, Below, Above, Before, After;
    PlugInOrder(path, Leaf);
    PlugInOrder(path, Node(Leaf, v, b, 0, Leaf));
    assert [] + [b] + [] == [b];
    assert Before(path) + [] + After(path) == Before(path) + After(path);
    SortedInsert(Before(path), b, After(path));
    AroundMeans(Before(path), b, After(path));
  }

  /** A position in a walk from the header of `tree` towards `name`: `c` hangs below `p`. */
  ghost predicate Walking(tree: Tree, head: Varent, path: Path, t: Tree, c: Varent?, p: Varent, name: Name)
    reads PathRefs(path), Refs(t)
  {
    && RepPath(path, c, p) && Rep(t, c, p) && Consistent(path, t, 0)
    && Plug(path, t) == tree && Head(path) == head && Between(path, name)
    && Refs(t) + PathRefs(path) == Refs(tree) + {head}
  }

  lemma WalkDown(tree: Tree, head: Varent, path: Path, t: Tree, c: Varent, p: Varent, name: Name)
    requires Walking(tree, head, path, t, c, p, name) && Sorted(InOrder(tree)) && name != c.name
    ensures var right := Compare(name, c.name) > 0;
      Walking(tree, head, Down(path, t, right), Child(t, right), if right then c.right else c.left, c, name)
  {
    var right := Compare(name, c.name) > 0;
    DownTowards(path, t, name);
    DownRep(path, t, c, p);
    DownConsistent(path, t, right);
    DownSame(path, t, right);
  }

  /** A new node in an empty link makes the subtree there one higher. */
  lemma NewNode(path: Path, v: Varent, b: Binding)
    requires Consistent(path, Leaf, 0) && v !in PathRefs(path)
    ensures var t := Node(Leaf, v, b, 0, Leaf); Consistent(path, t, Due(false, false)) && Refs(t) == {v}
  {
  }

  /** `path` goes on from `base` by turning right only. */
  ghost predicate Spine(path: Path, base: Path) {
    path == base || (path.Step? && path.right && Spine(path.up, base))
  }

  /** The same path with the binding at the end of `base` replaced. */
  function Graft(path: Path, base: Path, b: Binding): Path
    requires base.Step?
  {
    if path == base then base.(b := b) else if path.Top? then path else path.(up := Graft(path.up, base, b))
  }

  lemma {:induction false} GraftShape(path: Path, base: Path, b: Binding, h: int)
    requires base.Step? && Spine(path, base)
    ensures var g := Graft(path, base, b);
      && PathRefs(g) == PathRefs(path) && (DistinctPath(path) ==> DistinctPath(g))
      && Head(g) == Head(path) && (AvlPath(path, h) ==> AvlPath(g, h))
      && base.ref in PathRefs(path)
  {
    if path != base {
      GraftShape(path.up, base, b, 1 + Max(h, Height(path.sib)));
    }
  }

  lemma {:induction false} GraftOrder(path: Path, base: Path, b: Binding)
    requires base.Step? && !base.right && Spine(path, base)
    ensures Before(Graft(path, base, b)) == Before(path)
    ensures After(path) == [base.b] + (InOrder(base.sib) + After(base.up))
    ensures After(Graft(path, base, b)) == [b] + (InOrder(base.sib) + After(base.up))
  {
    if path == base {
      assert [base.b] + InOrder(base.sib) + After(base.up) == [base.b] + (InOrder(base.sib) + After(base.up));
      assert [b] + InOrder(base.sib) + After(base.up) == [b] + (InOrder(base.sib) + After(base.up));
    } else {
      GraftOrder(path.up, base, b);
      assert After(path) == After(path.up);
      assert After(Graft(path, base, b)) == After(Graft(path.up, base, b));
    }
  }

  /** The objects on and beside the part of the path below the end of `base`. */
  function SpineRefs(path: Path, base: Path): set<Varent> {
    if path == base || path.Top? then {} else {path.ref} + Refs(path.sib) + SpineRefs(path.up, base)
  }

  /** The layout of that part alone; it does not look at the object at the end of `base`,
      whose child towards the hole is `top`. */
  ghost predicate RepSpine(path: Path, base: Path, child: Varent?, x: Varent, top: Varent?)
    requires base.Step?
    reads SpineRefs(path, base)
  {
    if path == base then x == base.ref && child == top
    else
      && path.Step? && path.right && x == path.ref && x.name == path.b.name && x.vec == path.b.vec
      && x.bal == path.bal && x.parent != null && x.right == child && Rep(path.sib, x.left, x)
      && RepSpine(path.up, base, x, x.parent, top)
  }

  lemma {:induction false} SplitSpine(path: Path, base: Path, child: Varent?, x: Varent)
    requires base.Step? && !base.right && Spine(path, base) && RepPath(path, child, x) && DistinctPath(path)
    ensures RepSpine(path, base, child, x, base.ref.left) && RepPath(base, base.ref.left, base.ref)
    ensures base.ref !in SpineRefs(path, base) && SpineRefs(path, base) <= PathRefs(path)
    ensures base.ref in PathRefs(path) && DistinctPath(base)
  {
    if path != base {
      SplitSpine(path.up, base, x, x.parent);
    }
  }

  lemma {:induction false} JoinSpine(path: Path, base: Path, b: Binding, child: Varent?, x: Varent)
    requires base.Step? && !base.right && Spine(path, base)
    requires RepSpine(path, base, child, x, base.ref.left) && RepPath(base.(b := b), base.ref.left, base.ref)
    ensures RepPath(Graft(path, base, b), child, x)
  {
    if path != base {
      JoinSpine(path.up, base, b, x, x.parent);
    }
  }

  /** Cutting a node with one empty child out of the tree: its other child moves up. */
  function Rest(t: Tree): Tree
    requires t.Node? && (t.left == Leaf || t.right == Leaf)
  {
    if t.right == Leaf then t.left else t.right
  }

  lemma RestConsistent(path: Path, t: Tree)
    requires t.Node? && (t.left == Leaf || t.right == Leaf) && Consistent(path, t, 0)
    ensures Consistent(path, Rest(t), Due(false, true))
    ensures Refs(t) == Refs(Rest(t)) + {t.ref} && t.ref !in Refs(Rest(t)) && t.ref !in PathRefs(path)
  {
  }

  /** Removing a node with one empty child removes its binding. */
  lemma RestRemoves(path: Path, t: Tree)
    requires t.Node? && (t.left == Leaf || t.right == Leaf) && Sorted(InOrder(Plug(path, t)))
    ensures var s := InOrder(Plug(path, Rest(t)));
      Sorted(s) && MapOf(s) == MapOf(InOrder(Plug(path, t))) - {t.b.name}
  {
    var a, c := Before(path) + InOrder(t.left), InOrder(t.right) + After(path);
    NodeSplits(path, t);
    PlugInOrder(path, Rest(t));
    assert Before(path) + InOrder(Rest(t)) + After(path) == a + c;
    RemoveMiddle(a, t.b, c);
  }

  /** Moving the predecessor's binding up and cutting its node out removes the upper node's binding. */
  lemma GraftRemoves(path: Path, t: Tree, base: Path)
    requires base.Step? && !base.right && Spine(path, base) && t.Node? && t.right == Leaf
    requires Sorted(InOrder(Plug(path, t)))
    ensures var s := InOrder(Plug(Graft(path, base, t.b), Rest(t)));
      Sorted(s) && MapOf(s) == MapOf(InOrder(Plug(path, t))) - {base.b.name}
  {
    var g := Graft(path, base, t.b);
    var a, z := Before(path) + InOrder(t.left) + [t.b], InOrder(base.sib) + After(base.up);
    GraftOrder(path, base, t.b);
    PlugInOrder(path, t);
    PlugInOrder(g, Rest(t));
    Regroup6(Before(path), InOrder(t.left), [t.b], [base.b], z);
    RemoveMiddle(a, base.b, z);
  }

  lemma Regroup6<T>(p: seq<T>, l: seq<T>, b: seq<T>, m: seq<T>, z: seq<T>)
    ensures p + (l + b + []) + (m + z) == (p + l + b) + m + z
    ensures p + l + (b + z) == (p + l + b) + z
  {
  }

  lemma RemoveMiddle(a: seq<Binding>, b: Binding, c: seq<Binding>)
    requires Sorted(a + [b] + c)
    ensures Sorted(a + c) && MapOf(a + c) == MapOf(a + [b] + c) - {b.name}
  {
    SortedSplits(a, b, c);
    SortedDelete(a, b, c);
    AroundMeans(a, b, c);
  }

  lemma GraftConsistent(path: Path, t: Tree, base: Path, b: Binding)
    requires base.Step? && Spine(path, base) && Consistent(path, t, 0)
    ensures Consistent(Graft(path, base, b), t, 0) && Head(Graft(path, base, b)) == Head(path)
    ensures PathRefs(Graft(path, base, b)) == PathRefs(path) && base.ref in PathRefs(path)
  {
    GraftShape(path, base, b, Height(t));
  }

  lemma RestRefs(path: Path, t: Tree, refs: set<Varent>)
    requires t.Node? && (t.left == Leaf || t.right == Leaf) && Consistent(path, t, 0)
    requires refs + {Head(path)} == Refs(Rest(t)) + PathRefs(path) && Head(path) !in refs
    ensures t.ref in Refs(Plug(path, t)) && refs == Refs(Plug(path, t)) - {t.ref}
  {
    RestConsistent(path, t);
    PlugShape(path, t);
    HeadInPath(path);
  }

  lemma {:induction false} HeadInPath(path: Path)
    ensures Head(path) in PathRefs(path)
  {
    if path.Step? {
      HeadInPath(path.up);
    }
  }

  /** What `Gmatch` says of a name: whether the pattern takes it, or nothing if it reports an error. */
  type Pattern = Name -> Option<bool>

  ghost predicate NoneMatch(s: seq<Binding>, pat: Pattern) {
    forall i :: 0 <= i < |s| ==> pat(s[i].name) == Some(false)
  }

  lemma NoneMatchConcat(a: seq<Binding>, b: seq<Binding>, pat: Pattern)
    ensures NoneMatch(a + b, pat) <==> NoneMatch(a, pat) && NoneMatch(b, pat)
  {
    var s := a + b;
    assert forall i :: 0 <= i < |a| ==> s[i] == a[i];
    assert forall i :: 0 <= i < |b| ==> s[|a| + i] == b[i];
  }

  /** `b` is the first binding of `s`, in order, whose name is not turned down. */
  ghost predicate FirstMatch(s: seq<Binding>, b: Binding, pat: Pattern) {
    exists i :: 0 <= i < |s| && s[i] == b && pat(b.name) != Some(false) && NoneMatch(s[..i], pat)
  }

  lemma FirstMatchIn(a: seq<Binding>, s: seq<Binding>, c: seq<Binding>, b: Binding, pat: Pattern)
    requires NoneMatch(a, pat) && FirstMatch(s, b, pat)
    ensures FirstMatch(a + s + c, b, pat)
  {
    var i :| 0 <= i < |s| && s[i] == b && pat(b.name) != Some(false) && NoneMatch(s[..i], pat);
    var z := a + s + c;
    NoneMatchConcat(a, s[..i], pat);
    assert z[..|a| + i] == a + s[..i];
    assert z[|a| + i] == b;
  }

  /** Where the search stands after a node's left subtree, and after the node itself. */
  lemma SearchLeft(seen: seq<Binding>, t: Tree, x: Binding, pat: Pattern)
    requires t.Node? && NoneMatch(seen, pat) && FirstMatch(InOrder(t.left), x, pat)
    ensures FirstMatch(seen + InOrder(t), x, pat)
  {
    FirstMatchIn(seen, InOrder(t.left), [t.b] + InOrder(t.right), x, pat);
    Reassociate4(seen, InOrder(t.left), [t.b], InOrder(t.right));
  }

  lemma Reassociate4<T>(a: seq<T>, b: seq<T>, c: seq<T>, d: seq<T>)
    ensures a + (b + c + d) == a + b + (c + d) == (a + b + c) + d
  {
  }

  lemma SearchNode(seen: seq<Binding>, t: Tree, pat: Pattern)
    requires t.Node? && NoneMatch(seen, pat) && NoneMatch(InOrder(t.left), pat)
    ensures pat(t.b.name) != Some(false) ==> FirstMatch(seen + InOrder(t), t.b, pat)
    ensures pat(t.b.name) == Some(false) ==> NoneMatch(seen + InOrder(t.left) + [t.b], pat)
    ensures seen + InOrder(t) == (seen + InOrder(t.left) + [t.b]) + InOrder(t.right)
  {
    NoneMatchConcat(seen, InOrder(t.left), pat);
    var upTo := seen + InOrder(t.left);
    Reassociate4(seen, InOrder(t.left), [t.b], InOrder(t.right));
    if pat(t.b.name) != Some(false) {
      assert [t.b][0] == t.b && [t.b][..0] == [];
      assert FirstMatch([t.b], t.b, pat);
      FirstMatchIn(upTo, [t.b], InOrder(t.right), t.b, pat);
    }
    NoneMatchConcat(upTo, [t.b], pat);
  }

  /** `name` is the first name of the map that the pattern does not turn down. */
  ghost predicate FirstOf(m: map<Name, Vec>, name: Name, pat: Pattern) {
    && name in m && pat(name) != Some(false)
    && forall n <- m :: Less(n, name) ==> pat(n) == Some(false)
  }

  /** In a sorted list of bindings, a binding found is the one its name has in the map, and its name is the first. */
  lemma FirstMatchInMap(s: seq<Binding>, b: Binding, pat: Pattern)
    requires Sorted(s) && FirstMatch(s, b, pat)
    ensures FirstOf(MapOf(s), b.name, pat) && MapOf(s)[b.name] == b.vec
  {
    var i :| 0 <= i < |s| && s[i] == b && pat(b.name) != Some(false) && NoneMatch(s[..i], pat);
    assert s == s[..i] + [b] + s[i + 1..];
    SortedSplits(s[..i], b, s[i + 1..]);
    AroundMeans(s[..i], b, s[i + 1..]);
    forall n <- MapOf(s) | Less(n, b.name) ensures pat(n) == Some(false) {
      MapOfKeys(s, n);
      var k :| 0 <= k < |s| && s[k].name == n;
      CompareIsTotalOrder(n, b.name, n);
      if k < i {
        assert s[..i][k] == s[k];
      }
    }
  }

  lemma NoneMatchInMap(s: seq<Binding>, pat: Pattern)
    requires NoneMatch(s, pat)
    ensures forall name <- MapOf(s) :: pat(name) == Some(false)
  {
    forall name <- MapOf(s) ensures pat(name) == Some(false) {
      MapOfKeys(s, name);
    }
  }

  /** Node `p`, at the end of `path`, is the root of the subtree `t` of `tree`. */
  ghost predicate At(tree: Tree, head: Varent, path: Path, t: Tree, p: Varent)
    reads p, PathRefs(path), Refs(t)
  {
    && t.Node? && p.parent != null && RepPath(path, p, p.parent) && Rep(t, p, p.parent)
    && Distinct(t) && DistinctPath(path) && Refs(t) !! PathRefs(path)
    && Plug(path, t) == tree && Head(path) == head
  }

  lemma AtTop(tree: Tree, head: Varent, p: Varent)
    requires Rooted(tree, head) && p == head.left
    ensures At(tree, head, Top(head), tree, p)
  {
  }

  lemma AtDown(tree: Tree, head: Varent, path: Path, t: Tree, p: Varent, right: bool, c: Varent)
    requires At(tree, head, path, t, p) && c == if right then p.right else p.left
    ensures At(tree, head, Down(path, t, right), Child(t, right), c)
  {
    DownRep(path, t, p, p.parent);
    assert Rep(Child(t, right), c, p);
  }

  lemma AtUp(tree: Tree, head: Varent, path: Path, t: Tree, c: Varent)
    requires At(tree, head, path, t, c) && path.Step?
    ensures At(tree, head, path.up, Close(path, t), c.parent)
    ensures path.right ==> Before(path.up) + InOrder(Close(path, t)) == Before(path) + InOrder(t)
    ensures !path.right ==> Before(path.up) + InOrder(Close(path, t).left) == Before(path) + InOrder(t)
  {
    CloseRep(path, t, c, c.parent);
    CloseRefs(path, t);
    Reassociate4(Before(path.up), InOrder(path.sib), [path.b], InOrder(t));
    assert Before(path.up) + [] == Before(path.up);
  }

  lemma AtHeader(tree: Tree, head: Varent, path: Path, t: Tree, c: Varent)
    requires At(tree, head, path, t, c)
    ensures c.parent == head <==> path.Top?
    ensures c.parent.right == c <==> path.Step? && path.right
    ensures path.Top? ==> t == tree && Before(path) == []
  {
    SideIs(c.parent, c, path, t);
    if path.Step? {
      HeadInPath(path.up);
    }
  }

  /** What has been listed once the node in the hole has been. */
  lemma Listed(path: Path, t: Tree, out: seq<Binding>)
    requires t.Node? && out == Before(path) + InOrder(t.left)
    ensures out + [t.b] == Before(Down(path, t, true))
    ensures t.right == Leaf ==> out + [t.b] == Before(path) + InOrder(t)
    ensures InOrder(Plug(path, t)) == out + [t.b] + (InOrder(t.right) + After(path))
  {
    PlugInOrder(path, t);
    Reassociate4(Before(path), InOrder(t.left), [t.b], InOrder(t.right) + After(path));
    Regroup5(Before(path), InOrder(t.left), [t.b], InOrder(t.right), After(path));
  }
}
