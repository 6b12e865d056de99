/** Where paths lead, in a file system without symbolic links: a path in the normal form of csh leads where the path
    leads that it is made of (bin/csh/dir.c). */
module DirMeaning {
  import opened Basics
  import opened DirSpec

  /** How far it goes to the next slash or the end. */
  function Until(r: seq<int>): (n: nat)
    ensures n <= |r| && (r != [] && r[0] != 47 ==> n > 0)
  {
    if r == [] || r[0] == 47 then 0 else 1 + Until(r[1..])
  }

  /** The place that a path leads to from another, component by component: a dot leads nowhere, two dots up, or nowhere
      from the root, and any other name down to a directory, if there is one. */
  function Reach(dirs: seq<Name> -> bool, st: seq<Name>, r: seq<int>): Option<seq<Name>>
    decreases |r|
  {
    if r == [] then Some(st)
    else if r[0] == 47 then Reach(dirs, st, r[1..])
    else
      var name, rest := r[..Until(r)], r[Until(r)..];
      if name == [46] then Reach(dirs, st, rest)
      else if name == [46, 46] then Reach(dirs, if st == [] then [] else st[..|st| - 1], rest)
      else if dirs(st + [name]) then Reach(dirs, st + [name], rest)
      else None
  }

  function Follow(dirs: seq<Name> -> bool, st: seq<Name>, ns: seq<Name>): Option<seq<Name>>
    decreases |ns|
  {
    if ns == [] then Some(st)
    else if ns[0] == [46] then Follow(dirs, st, ns[1..])
    else if ns[0] == [46, 46] then Follow(dirs, if st == [] then [] else st[..|st| - 1], ns[1..])
    else if dirs(st + [ns[0]]) then Follow(dirs, st + [ns[0]], ns[1..])
    else None
  }

  lemma {:induction false} UntilIs(r: seq<int>)
    ensures Until(r) == NameLength(r)
  {
    if r != [] {
      UntilIs(r[1..]);
    }
  }

  lemma SlashOff(r: seq<int>)
    requires r != [] && r[0] == 47
    ensures Names(r) == Names(r[1..])
  {
    assert forall k: nat :: k < |r| ==> r[1..][k..] == r[k + 1..];
  }

  lemma NameOff(r: seq<int>)
    requires r != [] && r[0] != 47
    ensures Names(r) == [r[..Until(r)]] + Names(r[Until(r)..])
  {
    UntilIs(r);
    assert r[0..] == r;
  }

  lemma {:induction false} ReachFollows(dirs: seq<Name> -> bool, st: seq<Name>, r: seq<int>)
    ensures Reach(dirs, st, r) == Follow(dirs, st, Names(r))
    decreases |r|
  {
    if r == [] {
      NoNames(r);
    } else if r[0] == 47 {
      SlashOff(r);
      ReachFollows(dirs, st, r[1..]);
    } else {
      NameOff(r);
      var name, rest := r[..Until(r)], r[Until(r)..];
      hide Names, Until;
      ReachFollows(dirs, st, rest);
      ReachFollows(dirs, if st == [] then [] else st[..|st| - 1], rest);
      ReachFollows(dirs, st + [name], rest);
    }
  }

  /** The place and all above it are directories. */
  ghost predicate Down(dirs: seq<Name> -> bool, st: seq<Name>) {
    forall k: nat :: 0 < k <= |st| ==> dirs(st[..k])
  }

  lemma DownMore(dirs: seq<Name> -> bool, st: seq<Name>, name: Name)
    requires Down(dirs, st) && dirs(st + [name])
    ensures Down(dirs, st + [name])
  {
    forall k: nat | 0 < k <= |st| + 1 ensures dirs((st + [name])[..k]) {
      assert (st + [name])[..k] == if k <= |st| then st[..k] else st + [name];
    }
  }

  lemma DownLess(dirs: seq<Name> -> bool, st: seq<Name>)
    requires Down(dirs, st) && st != []
    ensures Down(dirs, st[..|st| - 1])
  {
    var t := st[..|st| - 1];
    forall k: nat | 0 < k <= |t| ensures dirs(t[..k]) {
      assert t[..k] == st[..k];
    }
  }

  lemma {:induction false} FollowWalks(dirs: seq<Name> -> bool, st: seq<Name>, ns: seq<Name>)
    requires Down(dirs, st) && Follow(dirs, st, ns).Some?
    ensures Follow(dirs, st, ns) == Some(Walk(st, ns)) && Down(dirs, Walk(st, ns))
    decreases |ns|
  {
    if ns != [] {
      if ns[0] == [46] {
        FollowWalks(dirs, st, ns[1..]);
      } else if ns[0] == [46, 46] {
        if st != [] {
          DownLess(dirs, st);
        }
        FollowWalks(dirs, if st == [] then [] else st[..|st| - 1], ns[1..]);
      } else {
        DownMore(dirs, st, ns[0]);
        FollowWalks(dirs, st + [ns[0]], ns[1..]);
      }
    }
  }

  lemma {:induction false} FollowDown(dirs: seq<Name> -> bool, st: seq<Name>, ns: seq<Name>)
    requires AllProper(ns) && Down(dirs, st + ns)
    ensures Follow(dirs, st, ns) == Some(st + ns)
    decreases |ns|
  {
    if ns == [] {
      assert st + [] == st;
    } else {
      assert Proper(ns[0]);
      assert (st + ns)[..|st| + 1] == st + [ns[0]];
      assert st + [ns[0]] + ns[1..] == st + ns;
      FollowDown(dirs, st + [ns[0]], ns[1..]);
    }
  }

  lemma RootReached(dirs: seq<Name> -> bool)
    ensures Reach(dirs, [], [47]) == Some([]) && Reach(dirs, [], [47, 46]) == Some([])
  {
    var r: seq<int>, t: seq<int> := [47, 46], [46];
    assert r[1..] == t && Until(t) == 1 && t[..1] == [46] && t[1..] == [];
    assert Reach(dirs, [], t) == Some([]);
  }

  lemma PathReached(dirs: seq<Name> -> bool, d: seq<Name>)
    requires AllProper(d) && Down(dirs, d)
    ensures Reach(dirs, [], Path(d)) == Some(d)
  {
    assert AllNames(d) && Parts(d);
    hide Names, Path, Follow, Reach, Solid, AllProper, AllNames, Parts, Down;
    assert Path(d) + [] == Path(d) && [] + d == d;
    NamesOfPath(d, []);
    SolidAll(d);
    NoNames([]);
    ReachFollows(dirs, [], Path(d));
    assert Solid(d) + [] == Solid(d);
    FollowDown(dirs, [], d);
  }

  /** If a path leads from a directory to a directory, then the normal form that is made of it leads there too, from
      the root. */
  lemma LeadsThere(dirs: seq<Name> -> bool, st: seq<Name>, r: seq<int>)
    requires AllProper(st) && Down(dirs, st) && Reach(dirs, st, r).Some?
    ensures Reach(dirs, [], Canonical(st, r)) == Reach(dirs, st, r)
  {
    hide Names, Path, Follow, Reach, Walk, EndsInDot, Down;
    ReachFollows(dirs, st, r);
    FollowWalks(dirs, st, Names(r));
    NamesAreNames(r);
    WalkProper(st, Names(r));
    if Walk(st, Names(r)) == [] {
      RootReached(dirs);
    } else {
      PathReached(dirs, Walk(st, Names(r)));
    }
  }
}
