/** Absolute paths in normal form (bin/csh/dir.c). */
module DirSpec {
  import opened Basics

  const SLASH := 47
  const DOT := 46

  type Name = Word

  const HERE: Name := [DOT]
  const UP: Name := [DOT, DOT]

  /** How many slashes a text begins with. */
  function Slashes(r: seq<int>): (k: nat)
    ensures k <= |r| && (k < |r| ==> r[k] != SLASH) && forall i :: 0 <= i < k ==> r[i] == SLASH
  {
    if r == [] || r[0] != SLASH then 0 else 1 + Slashes(r[1..])
  }

  /** How far it goes to the next slash or the end. */
  function NameLength(r: seq<int>): (n: nat)
    ensures n <= |r| && SLASH !in r[..n] && (n < |r| ==> r[n] == SLASH)
  {
    if r == [] || r[0] == SLASH then 0
    else
      var n := NameLength(r[1..]);
      assert r[..n + 1] == [r[0]] + r[1..][..n];
      n + 1
  }

  /** The components of a path, empty ones left out. */
  function Names(r: seq<int>): (ns: seq<Name>)
    decreases |r|
  {
    var k := Slashes(r);
    if k == |r| then []
    else
      var t := r[k..];
      assert NameLength(t) > 0;
      [t[..NameLength(t)]] + Names(t[NameLength(t)..])
  }

  /** A component leads down, up, or nowhere; up from the root is nowhere. */
  function Step(st: seq<Name>, name: Name): seq<Name> {
    if name == HERE then st
    else if name == UP then if st == [] then [] else st[..|st| - 1]
    else st + [name]
  }

  function Walk(st: seq<Name>, ns: seq<Name>): seq<Name>
    decreases |ns|
  {
    if ns == [] then st else Walk(Step(st, ns[0]), ns[1..])
  }

  /** The path to a place below the root. */
  function Path(st: seq<Name>): seq<int> {
    if st == [] then [] else Path(st[..|st| - 1]) + [SLASH] + st[|st| - 1]
  }

  /** The text ends in a component that is a dot, with no slash behind it. */
  predicate EndsInDot(r: seq<int>) {
    Names(r) != [] && r[|r| - 1] != SLASH && Names(r)[|Names(r)| - 1] == HERE
  }

  /** What `dcanon` makes of the place st and the rest r of a path. At the root, a last component that is a dot
      stays. */
  function Canonical(st: seq<Name>, r: seq<int>): seq<int> {
    var w := Walk(st, Names(r));
    if w != [] then Path(w) else if EndsInDot(r) then [SLASH, DOT] else [SLASH]
  }

  /** A component that a path in normal form may have. */
  predicate Proper(name: Name) {
    name != [] && SLASH !in name && name != HERE && name != UP
  }

  ghost predicate AllProper(st: seq<Name>) {
    forall i :: 0 <= i < |st| ==> Proper(st[i])
  }

  /** Components of some text. */
  ghost predicate AllNames(st: seq<Name>) {
    forall i :: 0 <= i < |st| ==> st[i] != [] && SLASH !in st[i]
  }

  /** What is between the slashes of some path: there may be nothing between two of them, and dots are left. */
  ghost predicate Parts(st: seq<Name>) {
    forall i :: 0 <= i < |st| ==> SLASH !in st[i]
  }

  /** A path that `dcanon` leaves: in normal form, but for a dot that may come first. */
  ghost predicate Kept(st: seq<Name>) {
    forall i :: 0 <= i < |st| ==> Proper(st[i]) || (i == 0 && st[i] == HERE)
  }

  lemma NamesFirst(k: nat, name: Name, rest: seq<int>, r: seq<int>)
    requires |r| == k + |name| + |rest| && (forall i :: 0 <= i < k ==> r[i] == SLASH) && r[k..] == name + rest
    requires name != [] && SLASH !in name && (rest == [] || rest[0] == SLASH)
    ensures Names(r) == [name] + Names(rest)
  {
    var t := r[k..];
    assert r[k] == name[0];
    SlashesAre(r, k);
    NameLengthIs(name, rest);
    assert t[..|name|] == name && t[|name|..] == rest;
  }

  lemma {:induction false} SlashesAre(r: seq<int>, k: nat)
    requires k < |r| && r[k] != SLASH && forall i :: 0 <= i < k ==> r[i] == SLASH
    ensures Slashes(r) == k
  {
    var j := Slashes(r);
    assert j >= k;
  }

  lemma {:induction false} NameLengthIs(name: Name, rest: seq<int>)
    requires SLASH !in name && (rest == [] || rest[0] == SLASH)
    ensures NameLength(name + rest) == |name|
  {
    if name != [] {
      assert (name + rest)[1..] == name[1..] + rest;
      NameLengthIs(name[1..], rest);
    }
  }

  lemma NoNames(r: seq<int>)
    requires forall i :: 0 <= i < |r| ==> r[i] == SLASH
    ensures Names(r) == []
  {
    var k := Slashes(r);
  }

  lemma {:induction false} WalkProper(st: seq<Name>, ns: seq<Name>)
    requires AllProper(st) && forall i :: 0 <= i < |ns| ==> ns[i] != [] && SLASH !in ns[i]
    ensures AllProper(Walk(st, ns))
    decreases |ns|
  {
    if ns != [] {
      WalkProper(Step(st, ns[0]), ns[1..]);
    }
  }

  lemma {:induction false} NamesAreNames(r: seq<int>)
    ensures forall i :: 0 <= i < |Names(r)| ==> Names(r)[i] != [] && SLASH !in Names(r)[i]
    decreases |r|
  {
    var k := Slashes(r);
    if k < |r| {
      var t := r[k..];
      NamesAreNames(t[NameLength(t)..]);
    }
  }

  /** The text r is slashes, a name, and a rest that is empty or goes on with a slash. */
  ghost predicate Splits(r: seq<int>, k: nat, name: Name, rest: seq<int>) {
    && |r| == k + |name| + |rest| && r[k..] == name + rest && (forall i :: 0 <= i < k ==> r[i] == SLASH)
    && name != [] && SLASH !in name && (rest == [] || rest[0] == SLASH)
  }

  /** The first component does its step, and the rest follows. */
  lemma StepOn(st: seq<Name>, r: seq<int>, k: nat, name: Name, rest: seq<int>)
    requires Splits(r, k, name, rest) && rest != []
    ensures Canonical(st, r) == Canonical(Step(st, name), rest)
  {
    hide Names, NameLength, Slashes, Path, Step;
    NamesFirst(k, name, rest, r);
    if Names(rest) == [] {
      NoNamesSlash(rest);
    }
    assert r[|r| - 1] == r[k..][|r| - 1 - k] == rest[|rest| - 1];
    var ns := Names(rest);
    assert ([name] + ns)[1..] == ns;
    assert EndsInDot(r) == EndsInDot(rest);
    hide EndsInDot;
  }

  lemma {:induction false} NoNamesSlash(r: seq<int>)
    requires Names(r) == [] && r != []
    ensures r[|r| - 1] == SLASH
  {
  }

  lemma StepLast(st: seq<Name>, r: seq<int>, k: nat, name: Name)
    requires Splits(r, k, name, [])
    ensures var w := Step(st, name);
      Canonical(st, r) == if w != [] then Path(w) else if name == HERE then [SLASH, DOT] else [SLASH]
  {
    NamesFirst(k, name, [], r);
    NoNames([]);
    hide Names, Path, Step;
    assert name + [] == name && r[|r| - 1] == r[k..][|name| - 1];
    assert name[|name| - 1] in name && r[|r| - 1] != SLASH;
    assert Names(r) == [name] && [name][1..] == [];
    assert Walk(st, [name]) == Step(st, name);
  }

  lemma NothingLeft(st: seq<Name>, r: seq<int>)
    requires forall i :: 0 <= i < |r| ==> r[i] == SLASH
    ensures Canonical(st, r) == if st != [] then Path(st) else [SLASH]
  {
    NoNames(r);
  }

  lemma PathMore(st: seq<Name>, name: Name)
    ensures Path(st + [name]) == Path(st) + [SLASH] + name
  {
    assert (st + [name])[..|st|] == st;
  }

  lemma PathSplit(st: seq<Name>, r: seq<int>)
    requires st != []
    ensures var n := |st| - 1; Path(st) + r == Path(st[..n]) + ([SLASH] + st[n] + r)
  {
  }

  /** What is not empty of it. */
  function Solid(st: seq<Name>): (t: seq<Name>)
    ensures |t| <= |st|
  {
    if st == [] then [] else
      var n := |st| - 1;
      Solid(st[..n]) + if st[n] == [] then [] else [st[n]]
  }

  lemma NameAhead(name: Name, r: seq<int>)
    requires SLASH !in name && (r == [] || r[0] == SLASH)
    ensures Names([SLASH] + name + r) == (if name == [] then [] else [name]) + Names(r)
  {
    var q := [SLASH] + name + r;
    assert q[1..] == name + r;
    if name == [] {
      hide Names;
      MoreSlash(q, r);
    } else {
      hide Names;
      NamesFirst(1, name, r, q);
    }
  }

  lemma MoreSlash(q: seq<int>, r: seq<int>)
    requires q != [] && q[0] == SLASH && q[1..] == r
    ensures Names(q) == Names(r)
  {
    if r != [] && exists i :: 0 <= i < |r| && r[i] != SLASH {
      var k := Slashes(r);
      assert Slashes(q) == k + 1;
      assert k < |r| ==> q[k + 1..] == r[k..];
    } else {
      NoNames(r);
      NoNames(q);
    }
  }

  lemma NamesOfLonger(st: seq<Name>, r: seq<int>)
    requires st != [] && SLASH !in st[|st| - 1] && (r == [] || r[0] == SLASH)
    requires var p, q := st[..|st| - 1], [SLASH] + st[|st| - 1] + r; Names(Path(p) + q) == Solid(p) + Names(q)
    ensures Names(Path(st) + r) == Solid(st) + Names(r)
  {
    hide Names, Path;
    var n := |st| - 1;
    PathSplit(st, r);
    NameAhead(st[n], r);
    var name := if st[n] == [] then [] else [st[n]];
    assert Solid(st[..n]) + (name + Names(r)) == Solid(st) + Names(r);
  }

  /** Where the names of a path come from. */
  lemma {:induction false} NamesOfPath(st: seq<Name>, r: seq<int>)
    requires Parts(st) && (r == [] || r[0] == SLASH)
    ensures Names(Path(st) + r) == Solid(st) + Names(r)
    decreases |st|
  {
    if st == [] {
      NamesOfNone(r);
    } else {
      NamesOfPath(st[..|st| - 1], [SLASH] + st[|st| - 1] + r);
      NamesOfLonger(st, r);
    }
  }

  lemma NamesOfNone(r: seq<int>)
    ensures Names(Path([]) + r) == Solid([]) + Names(r)
  {
    hide Names, Path;
    PathOfNone(r);
    assert [] + Names(r) == Names(r);
  }

  lemma {:induction false} SolidAll(st: seq<Name>)
    requires Parts(st)
    ensures |Solid(st)| == |st| <==> AllNames(st)
    ensures AllNames(st) ==> Solid(st) == st
  {
    if st != [] {
      var n := |st| - 1;
      SolidAll(st[..n]);
      assert AllNames(st) <==> AllNames(st[..n]) && st[n] != [];
      assert st == st[..n] + [st[n]];
    }
  }

  lemma {:induction false} SolidNames(st: seq<Name>)
    requires Parts(st)
    ensures AllNames(Solid(st))
  {
    if st != [] {
      SolidNames(st[..|st| - 1]);
    }
  }

  lemma {:induction false} WalkConcat(st: seq<Name>, a: seq<Name>, b: seq<Name>)
    ensures Walk(st, a + b) == Walk(Walk(st, a), b)
    decreases |a|
  {
    if a == [] {
      assert a + b == b;
    } else {
      assert (a + b)[1..] == a[1..] + b;
      WalkConcat(Step(st, a[0]), a[1..], b);
    }
  }

  lemma {:induction false} WalkDown(st: seq<Name>, ns: seq<Name>)
    requires AllProper(ns)
    ensures Walk(st, ns) == st + ns
    decreases |ns|
  {
    if ns != [] {
      assert Proper(ns[0]) && st + [ns[0]] + ns[1..] == st + ns;
      WalkDown(st + [ns[0]], ns[1..]);
    } else {
      assert st + ns == st;
    }
  }

  lemma WalkFromFront(st: seq<Name>, ns: seq<Name>)
    requires AllProper(st)
    ensures Walk([], st + ns) == Walk(st, ns)
  {
    hide *;
    WalkConcat([], st, ns);
    WalkDown([], st);
    assert [] + st == st;
  }

  lemma LastOf<T>(a: seq<T>, b: seq<T>)
    requires b != []
    ensures (a + b)[|a + b| - 1] == b[|b| - 1]
  {
  }

  lemma EndsFromFront(st: seq<Name>, r: seq<int>)
    requires Parts(st) && r != [] && r[0] == SLASH
    ensures EndsInDot(Path(st) + r) == EndsInDot(r)
  {
    NamesOfPath(st, r);
    LastOf(Path(st), r);
    if Names(r) == [] {
      NoNamesSlash(r);
    } else {
      hide Names, Path;
      LastOf(Solid(st), Names(r));
    }
  }

  /** Starting behind a path in normal form gives the same as starting in front of it. */
  lemma SameFromFront(st: seq<Name>, r: seq<int>)
    requires AllProper(st) && (r == [] || r[0] == SLASH) && (st != [] || r != [])
    ensures Canonical(st, r) == Canonical([], Path(st) + r)
  {
    assert Walk(st, []) == st && AllNames(st) && Parts(st);
    hide Names, Path, Walk, AllProper, AllNames, Parts, EndsInDot;
    NamesOfPath(st, r);
    SolidAll(st);
    WalkFromFront(st, Names(r));
    NoNames([]);
    if r != [] {
      EndsFromFront(st, r);
    }
  }

  /** The names lead up from a place that is d below the top. */
  predicate LeadsOut(d: nat, ns: seq<Name>)
    decreases |ns|
  {
    ns != [] &&
    if ns[0] == HERE then LeadsOut(d, ns[1..])
    else if ns[0] == UP then d == 0 || LeadsOut(d - 1, ns[1..])
    else LeadsOut(d + 1, ns[1..])
  }

  /** What comes first stays, until the names lead up from it. */
  lemma {:induction false} WalkBehind(x: Name, st: seq<Name>, ns: seq<Name>)
    ensures Walk([x] + st, ns) == if LeadsOut(|st|, ns) then Walk(st, ns) else [x] + Walk(st, ns)
    decreases |ns|
  {
    if ns != [] {
      var name := ns[0];
      if name == UP && st == [] {
        assert Step([x] + st, UP) == [] == Step(st, UP);
      } else {
        assert Step([x] + st, name) == [x] + Step(st, name) by {
          if name == UP {
            assert ([x] + st)[..|st|] == [x] + st[..|st| - 1];
          } else if name != HERE {
            assert [x] + st + [name] == [x] + (st + [name]);
          }
        }
        WalkBehind(x, Step(st, name), ns[1..]);
      }
    }
  }

  /** Once the names lead out, it does not matter where they have begun. */
  lemma {:induction false} WalkOut(st: seq<Name>, d: nat, ns: seq<Name>)
    requires LeadsOut(d, ns) && |st| <= d + 1
    ensures Walk(st, ns) == Walk([], ns)
    decreases |ns|
  {
    var name := ns[0];
    if name == HERE {
      WalkOut(st, d, ns[1..]);
    } else if name == UP {
      assert Step([], UP) == [];
      if d > 0 {
        WalkOut(Step(st, UP), d - 1, ns[1..]);
      } else {
        assert Step(st, UP) == [];
      }
    } else {
      WalkOut(st + [name], d + 1, ns[1..]);
      WalkOut([name], d + 1, ns[1..]);
      assert [] + [name] == [name];
    }
  }

  /** Until then a shorter path remains shorter. */
  lemma {:induction false} WalkShorter(a: seq<Name>, b: seq<Name>, ns: seq<Name>)
    requires |b| < |a| && !LeadsOut(|a| - 1, ns)
    ensures |Walk(b, ns)| < |Walk(a, ns)|
    decreases |ns|
  {
    if ns != [] {
      WalkShorter(Step(a, ns[0]), Step(b, ns[0]), ns[1..]);
    }
  }

  /** A walk does not get longer than its names; and only proper names make it as long. */
  lemma {:induction false} WalkLength(st: seq<Name>, ns: seq<Name>)
    requires AllNames(ns)
    ensures |Walk(st, ns)| <= |st| + |ns|
    ensures |Walk(st, ns)| == |st| + |ns| ==> AllProper(ns)
    decreases |ns|
  {
    if ns != [] {
      WalkLength(Step(st, ns[0]), ns[1..]);
      if |Walk(st, ns)| == |st| + |ns| {
        assert Proper(ns[0]) && AllProper(ns[1..]);
        assert forall i :: 0 < i < |ns| ==> ns[i] == ns[1..][i - 1];
      }
    }
  }

  lemma {:induction false} WalkParts(st: seq<Name>, ns: seq<Name>)
    requires Parts(st) && AllNames(ns)
    ensures Parts(Walk(st, ns))
    decreases |ns|
  {
    if ns != [] {
      WalkParts(Step(st, ns[0]), ns[1..]);
    }
  }

  /** A path has its parts in one way only. */
  lemma {:induction false} PathOnce(a: seq<Name>, b: seq<Name>)
    requires Parts(a) && Parts(b) && Path(a) == Path(b)
    ensures a == b
    decreases |a|
  {
    if a != [] && b != [] {
      var x, y := a[|a| - 1], b[|b| - 1];
      var p, q := Path(a[..|a| - 1]), Path(b[..|b| - 1]);
      assert p + [SLASH] + x == q + [SLASH] + y;
      LastSlash(p, x, q, y);
      PathOnce(a[..|a| - 1], b[..|b| - 1]);
      assert a == a[..|a| - 1] + [x] && b == b[..|b| - 1] + [y];
    }
  }

  lemma LastSlash(p: seq<int>, x: Name, q: seq<int>, y: Name)
    requires p + [SLASH] + x == q + [SLASH] + y && SLASH !in x && SLASH !in y
    ensures p == q && x == y
  {
    var s, t := p + [SLASH] + x, q + [SLASH] + y;
    assert s[|p|] == SLASH == t[|q|];
    assert forall i :: |p| < i < |s| ==> s[i] == x[i - |p| - 1];
    assert forall i :: |q| < i < |t| ==> t[i] == y[i - |q| - 1];
    assert |p| == |q|;
    assert s[..|p|] == p && t[..|p|] == q && s[|p| + 1..] == x && t[|p| + 1..] == y;
  }

  lemma {:induction false} PathBehindDot(st: seq<Name>)
    ensures Path([HERE] + st) == [SLASH, DOT] + Path(st)
  {
    var n := |st| - 1;
    if st == [] {
      assert [HERE] + st == [HERE] && [HERE][..0] == [];
    } else {
      PathBehindDot(st[..n]);
      assert ([HERE] + st)[..n + 1] == [HERE] + st[..n];
    }
  }

  lemma PathOfNone(r: seq<int>)
    ensures Path([]) + r == r
  {
  }

  /** A path in normal form stays as it is. */
  lemma CanonicalTwice(st: seq<Name>)
    requires AllProper(st) && st != []
    ensures Canonical([], Path(st)) == Path(st)
  {
    SameFromFront(st, []);
    assert Path(st) + [] == Path(st);
    NoNames([]);
  }

  /** The result is in normal form, but for a dot at the root. */
  lemma CanonicalIsProper(st: seq<Name>, r: seq<int>) returns (w: seq<Name>)
    requires AllProper(st)
    ensures AllProper(w)
    ensures Canonical(st, r) == if w != [] then Path(w) else if EndsInDot(r) then [SLASH, DOT] else [SLASH]
  {
    w := Walk(st, Names(r));
    NamesAreNames(r);
    WalkProper(st, Names(r));
  }

  /** The text of a directory: its path, or the root. */
  function Dirname(st: seq<Name>): seq<int> {
    if st == [] then [SLASH] else Path(st)
  }

  lemma {:induction false} WalkKept(st: seq<Name>, ns: seq<Name>)
    requires Kept(st) && forall i :: 0 <= i < |ns| ==> ns[i] != [] && SLASH !in ns[i]
    ensures Kept(Walk(st, ns))
    decreases |ns|
  {
    if ns != [] {
      WalkKept(Step(st, ns[0]), ns[1..]);
    }
  }

  /** Whatever comes out is what may be started from again. */
  lemma CanonicalIsKept(st: seq<Name>, r: seq<int>) returns (w: seq<Name>)
    requires Kept(st)
    ensures Kept(w) && Canonical(st, r) == Dirname(w)
  {
    w := Walk(st, Names(r));
    NamesAreNames(r);
    WalkKept(st, Names(r));
    if w == [] && EndsInDot(r) {
      PathBehindDot([]);
      PathOfNone([]);
      w := [HERE];
      assert [HERE] + [] == [HERE];
    }
  }

  /** What a path comes to from the front has fewer parts than the path, unless they are all proper. */
  lemma FewerParts(st: seq<Name>)
    requires Parts(st)
    ensures var c := Walk([], Solid(st)); |c| <= |st| && Parts(c) && (|c| == |st| ==> AllProper(st))
  {
    SolidNames(st);
    SolidAll(st);
    WalkLength([], Solid(st));
    WalkParts([], Solid(st));
  }

  lemma FromFront(st: seq<Name>, r: seq<int>)
    requires Parts(st) && r != [] && r[0] == SLASH
    ensures var c := Walk(Walk([], Solid(st)), Names(r));
      Canonical([], Path(st) + r) == if c != [] then Path(c) else if EndsInDot(r) then [SLASH, DOT] else [SLASH]
  {
    hide Names, Path, Walk, Parts, EndsInDot;
    NamesOfPath(st, r);
    EndsFromFront(st, r);
    WalkConcat([], Solid(st), Names(r));
  }

  /** What is left of a path with less than proper parts, and what it comes to from the front. */
  lemma BothWalks(st: seq<Name>, ns: seq<Name>)
    requires Parts(st) && AllNames(ns) && !AllProper(st) && !LeadsOut(|st| - 1, ns)
    ensures var w, c := Walk(st, ns), Walk(Walk([], Solid(st)), ns);
      |c| < |w| && Parts(w) && Parts(c) && w == [st[0]] + Walk(st[1..], ns)
  {
    FewerParts(st);
    WalkShorter(st, Walk([], Solid(st)), ns);
    WalkParts(st, ns);
    WalkParts(Walk([], Solid(st)), ns);
    assert st == [st[0]] + st[1..];
    WalkBehind(st[0], st[1..], ns);
  }

  lemma RootPaths()
    ensures Path([[]]) == [SLASH] && Path([HERE]) == [SLASH, DOT]
  {
    var e: Name := [];
    assert [e][..0] == [] && [HERE][..0] == [];
  }

  lemma OutSame(st: seq<Name>, r: seq<int>)
    requires Parts(st) && r != [] && r[0] == SLASH && st != [] && LeadsOut(|st| - 1, Names(r))
    ensures Canonical(st, r) == Canonical([], Path(st) + r)
  {
    var c := Walk([], Solid(st));
    FewerParts(st);
    FromFront(st, r);
    hide Names, Path, Parts, AllProper, EndsInDot, Solid, Walk;
    WalkOut(st, |st| - 1, Names(r));
    WalkOut(c, |st| - 1, Names(r));
  }

  lemma NotOut(st: seq<Name>, r: seq<int>)
    requires Parts(st) && r != [] && r[0] == SLASH && st != [] && !AllProper(st) && !LeadsOut(|st| - 1, Names(r))
    ensures Canonical(st, r) == Canonical([], Path(st) + r) <==>
            Walk(st[1..], Names(r)) == [] && st[0] == if EndsInDot(r) then HERE else []
  {
    var ns := Names(r);
    NamesAreNames(r);
    assert AllNames(ns);
    FromFront(st, r);
    hide Names, Path, Walk, Parts, AllProper, EndsInDot, LeadsOut, Solid, AllNames;
    BothWalks(st, ns);
    DifferentPaths(Walk(st, ns), Walk(Walk([], Solid(st)), ns), st[0], EndsInDot(r));
  }

  /** Starting behind the current directory is starting in front of it exactly if all its parts are proper; or the path
      leads up from all of it; or leads back to its first part, which is a dot as the path ends in one, or is empty. */
  lemma FromFrontExactly(st: seq<Name>, r: seq<int>)
    requires Parts(st) && r != [] && r[0] == SLASH
    ensures Canonical(st, r) == Canonical([], Path(st) + r) <==>
            AllProper(st) || LeadsOut(|st| - 1, Names(r)) ||
            (Walk(st[1..], Names(r)) == [] && st[0] == if EndsInDot(r) then HERE else [])
  {
    assert !AllProper(st) ==> st != [];
    hide Canonical, Names, Path, Walk, Parts, AllProper, EndsInDot, LeadsOut;
    if AllProper(st) {
      SameFromFront(st, r);
    } else if LeadsOut(|st| - 1, Names(r)) {
      OutSame(st, r);
    } else {
      NotOut(st, r);
    }
  }

  lemma DifferentPaths(w: seq<Name>, c: seq<Name>, x: Name, dot: bool)
    requires |c| < |w| && Parts(w) && Parts(c) && w[0] == x
    ensures Path(w) == (if c != [] then Path(c) else if dot then [SLASH, DOT] else [SLASH]) <==>
            w == [x] && x == if dot then HERE else []
  {
    RootPaths();
    var d := if c != [] then c else if dot then [HERE] else [[]];
    assert Parts(d);
    hide Path, Parts;
    if Path(w) == Path(d) {
      PathOnce(w, d);
    }
  }

  /** The place that the text of a directory stands for. */
  function Split(s: seq<int>): (st: seq<Name>)
    requires s == [] || s[0] == SLASH
  {
    if s == [] then [] else
      var n := NameLength(s[1..]);
      [s[1..n + 1]] + Split(s[n + 1..])
  }

  function Place(cwd: seq<int>): seq<Name>
    requires cwd != [] && cwd[0] == SLASH
  {
    if |cwd| == 1 then [] else Split(cwd)
  }

  lemma {:induction false} SplitParts(s: seq<int>)
    requires s == [] || s[0] == SLASH
    ensures Parts(Split(s)) && Path(Split(s)) == s
  {
    if s != [] {
      var n := NameLength(s[1..]);
      var name, t := s[1..n + 1], s[n + 1..];
      assert SLASH !in name && (t == [] || t[0] == SLASH) && s == [SLASH] + name + t;
      assert Split(s) == [name] + Split(t);
      hide NameLength, Path, Split;
      SplitParts(t);
      PathInFront(name, Split(t));
    }
  }

  /** What `dcanon` has left stands for the place that it was meant for. */
  lemma PlaceKept(st: seq<Name>)
    requires Kept(st)
    ensures Dirname(st) != [] && Dirname(st)[0] == SLASH && Place(Dirname(st)) == st
  {
    if st != [] {
      assert Parts(st);
      var s := Path(st);
      PathInFront(st[0], st[1..]);
      assert [st[0]] + st[1..] == st && st[0] != [];
      SplitParts(s);
      PathOnce(Split(s), st);
    }
  }

  lemma OneName(name: Name)
    requires Proper(name)
    ensures var r := [SLASH] + name; Names(r) == [name] && Splits(r, 1, name, []) && !EndsInDot(r)
  {
    var r := [SLASH] + name;
    assert r[1..] == name + [];
    NamesFirst(1, name, [], r);
    NoNames([]);
  }

  /** A name leads down by itself, wherever that is. */
  lemma DownOne(st: seq<Name>, name: Name)
    requires Parts(st) && Proper(name)
    ensures Canonical(st, [SLASH] + name) == Path(st) + [SLASH] + name
    ensures Canonical([], Path(st) + ([SLASH] + name)) == Path(Walk([], Solid(st))) + [SLASH] + name
  {
    var c, ns := Walk([], Solid(st)), [name];
    OneName(name);
    FromFront(st, [SLASH] + name);
    assert ns[1..] == [] && Walk(c, ns) == c + [name] && Walk(st, ns) == st + [name];
    PathMore(st, name);
    PathMore(c, name);
  }

  /** The dot that is left of `/.` can be a current directory: from there `f` leads to `/./f`, and not to `/f`. */
  lemma DotAtRootStays()
    ensures Canonical([], [SLASH, DOT]) == [SLASH, DOT] && Place([SLASH, DOT]) == [HERE]
    ensures Canonical(Place([SLASH, DOT]), [SLASH, 102]) == [SLASH, DOT, SLASH, 102]
    ensures Canonical([], [SLASH, DOT] + [SLASH, 102]) == [SLASH, 102]
  {
    hide Canonical, Place, Path, Solid, Walk, Step;
    DotAtRoot();
    DotPlace();
    assert Proper([102]) && Parts([HERE]);
    DownOne([HERE], [102]);
    assert [SLASH] + [102] == [SLASH, 102];
    NoDots();
  }

  lemma DotPlace()
    ensures Place([SLASH, DOT]) == [HERE] && Path([HERE]) == [SLASH, DOT]
  {
    RootPaths();
    PlaceKept([HERE]);
  }

  lemma NoDots()
    ensures Walk([], Solid([HERE])) == [] && Path([]) + [SLASH] + [102] == [SLASH, 102]
  {
    assert [HERE][..0] == [] && Solid([HERE]) == [HERE] && [HERE][1..] == [];
  }

  lemma DotAtRoot()
    ensures Canonical([], [SLASH, DOT]) == [SLASH, DOT]
  {
    var dot: seq<int> := [SLASH, DOT];
    assert dot[1..] == HERE + [];
    StepLast([], dot, 1, HERE);
  }

  /** So can a home directory with a slash at its end: from `/h/` the path `f` leads to `/h//f`, and not to `/h/f`. */
  lemma SlashAtEndStays()
    ensures Canonical(Place([SLASH, 104, SLASH]), [SLASH, 102]) == [SLASH, 104, SLASH, SLASH, 102]
    ensures Canonical([], [SLASH, 104, SLASH] + [SLASH, 102]) == [SLASH, 104, SLASH, 102]
  {
    hide Canonical, Place, Path, Solid, Walk, Step;
    var st: seq<Name> := [[104], []];
    HomePlace();
    assert Proper([102]) && Parts(st);
    DownOne(st, [102]);
    assert [SLASH] + [102] == [SLASH, 102];
    HomeSolid();
  }

  lemma HomeSolid()
    ensures Path(Walk([], Solid([[104], []]))) == [SLASH, 104]
  {
    var h, e: Name := [104], [];
    var st := [h, e];
    assert st[..1] == [h] && Solid([h]) == [h] && Solid(st) == [h];
    assert [h][1..] == [] && Walk([], [h]) == [] + [h] == [h];
    PathMore([], h);
  }

  lemma HomePlace()
    ensures Place([SLASH, 104, SLASH]) == [[104], []] && Path([[104], []]) == [SLASH, 104, SLASH]
  {
    var s: seq<int>, h: Name, e: Name := [SLASH, 104, SLASH], [104], [];
    PathMore([h], e);
    PathMore([], h);
    assert [] + [h] == [h] && [h] + [e] == [h, e];
    SplitParts(s);
    PathOnce(Split(s), [h, e]);
  }

  /** Nothing in a path has to be taken out until a slash at its end is come to. */
  predicate Straight(r: seq<int>)
    decreases |r|
  {
    r != [] && r[0] == SLASH &&
    var n := NameLength(r[1..]);
    if n == 0 then |r| == 1 else Proper(r[1..n + 1]) && Straight(r[n + 1..])
  }

  /** That is, it is a path in normal form with a slash behind it. */
  lemma StraightExactly(r: seq<int>)
    ensures Straight(r) <==> exists ns :: AllProper(ns) && r == Path(ns) + [SLASH]
  {
    if Straight(r) {
      var ns := StraightOnly(r);
    }
    forall ns | AllProper(ns) && r == Path(ns) + [SLASH]
      ensures Straight(r)
    {
      StraightOn(ns, [SLASH]);
    }
  }

  lemma {:induction false} StraightOn(ns: seq<Name>, r: seq<int>)
    requires AllProper(ns) && r != [] && r[0] == SLASH
    ensures Straight(Path(ns) + r) == Straight(r)
    decreases |ns|
  {
    if ns == [] {
      PathOfNone(r);
    } else {
      var n := |ns| - 1;
      var name := ns[n];
      var q := [SLASH] + name + r;
      PathSplit(ns, r);
      assert Proper(name);
      NameLengthIs(name, r);
      assert q[1..] == name + r && q[1..|name| + 1] == name && q[|name| + 1..] == r;
      StraightOn(ns[..n], q);
    }
  }

  lemma {:induction false} StraightOnly(r: seq<int>) returns (ns: seq<Name>)
    requires Straight(r)
    ensures AllProper(ns) && r == Path(ns) + [SLASH]
    decreases |r|
  {
    var n := NameLength(r[1..]);
    ns := [];
    if n == 0 {
      PathOfNone([SLASH]);
    } else {
      var name := r[1..n + 1];
      var more := StraightOnly(r[n + 1..]);
      ns := [name] + more;
      assert r == [SLASH] + name + r[n + 1..];
      PathInFront(name, more);
    }
  }

  lemma {:induction false} PathInFront(name: Name, ns: seq<Name>)
    ensures Path([name] + ns) == [SLASH] + name + Path(ns)
  {
    var n := |ns| - 1;
    if ns == [] {
      assert [name] + ns == [name] && [name][..0] == [];
    } else {
      PathInFront(name, ns[..n]);
      assert ([name] + ns)[..n + 1] == [name] + ns[..n];
    }
  }
}
