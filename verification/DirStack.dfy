/** The directory stack of csh (bin/csh/dir.c): a circular doubly linked list with a head that is no directory.
    Read from the current directory along the `prev` links, past the head, it is the stack. */
module DirStack {
  import opened Basics
  import opened ExprNumber

  type Name = Word

  /** What a command ends with. `System` and `CantChange`: no such directory. */
  datatype Status = Done | NoDir | TooMany | Deep | BadDir | Empty | NoHomeDir | CantChange | System

  /** The command argument +n as a number; 0 if it is something else. */
  function Index(v: Word): nat {
    if v == [] || v[0] != PLUS || exists c <- v[1..] :: !IsDigit(c) then 0
    else
      var i := Getn(v[1..]);
      if i.Some? && i.value > 0 then i.value else 0
  }

  function Rotation(s: seq<Name>, n: nat): (r: seq<Name>)
    requires n <= |s|
    ensures |r| == |s|
  {
    s[n..] + s[..n]
  }

  /** `pushd` as it should be: with nothing the upper two are exchanged, with +n the stack is turned, with a
      directory that is pushed. */
  function Pushd(s: seq<Name>, v: seq<Word>, chdir: Name -> bool, follow: Word -> Option<Name>): (Status, seq<Name>)
    requires s != []
  {
    if |v| > 1 then (TooMany, s)
    else if v == [] then
      if |s| == 1 then (NoDir, s)
      else if !chdir(s[1]) then (System, s)
      else (Done, [s[1], s[0]] + s[2..])
    else if Index(v[0]) > 0 then
      if Index(v[0]) >= |s| then (Deep, s)
      else if !chdir(s[Index(v[0])]) then (System, s)
      else (Done, Rotation(s, Index(v[0])))
    else if follow(v[0]).None? then (System, s)
    else (Done, [follow(v[0]).value] + s)
  }

  /** `popd`: the top, or the n-th directory, goes. */
  function Popd(s: seq<Name>, v: seq<Word>, chdir: Name -> bool): (Status, seq<Name>)
    requires s != []
  {
    if |v| > 1 then (TooMany, s)
    else if v != [] && Index(v[0]) == 0 then (BadDir, s)
    else
      var n := if v == [] then 0 else Index(v[0]);
      if n >= |s| then (Deep, s)
      else if |s| == 1 then (Empty, s)
      else if n == 0 && !chdir(s[1]) then (System, s)
      else (Done, s[..n] + s[n + 1..])
  }

  /** `cd`: the top gives way to the home directory or the given one; with +n it goes, and the stack is turned. */
  function Cd(s: seq<Name>, v: seq<Word>, home: Name, chdir: Name -> bool, follow: Word -> Option<Name>)
    : (Status, seq<Name>)
    requires s != []
  {
    if |v| > 1 then (TooMany, s)
    else if v == [] then
      if home == [] then (NoHomeDir, s)
      else if !chdir(home) then (CantChange, s)
      else (Done, [home] + s[1..])
    else if Index(v[0]) > 0 then
      if Index(v[0]) >= |s| then (Deep, s)
      else if !chdir(s[Index(v[0])]) then (System, s)
      else (Done, s[Index(v[0])..] + s[1..Index(v[0])])
    else if follow(v[0]).None? then (System, s)
    else (Done, [follow(v[0]).value] + s[1..])
  }

  /** Pushing a directory and popping it leaves the stack as it was. */
  lemma PushPop(s: seq<Name>, v: Word, chdir: Name -> bool, follow: Word -> Option<Name>)
    requires s != [] && Index(v) == 0 && follow(v).Some? && chdir(s[0])
    ensures Popd(Pushd(s, [v], chdir, follow).1, [], chdir) == (Done, s)
  {
    var t := [follow(v).value] + s;
    assert t[1..] == s && t[..0] + t[1..] == s && t[1] == s[0];
  }

  /** Exchanging the upper two twice changes nothing. */
  lemma ExchangeTwice(s: seq<Name>, chdir: Name -> bool, follow: Word -> Option<Name>)
    requires |s| > 1 && chdir(s[0]) && chdir(s[1])
    ensures Pushd(Pushd(s, [], chdir, follow).1, [], chdir, follow) == (Done, s)
  {
    var t := [s[1], s[0]] + s[2..];
    assert t[2..] == s[2..] && [s[0], s[1]] + s[2..] == s;
  }

  /** Turning by m and then by n is turning by m + n, all the way round at most once. */
  lemma TurnTwice(s: seq<Name>, m: nat, n: nat)
    requires m <= |s| && n <= |s|
    ensures Rotation(Rotation(s, m), n) == Rotation(s, if m + n <= |s| then m + n else m + n - |s|)
  {
    var t := Rotation(s, m);
    if m + n <= |s| {
      assert t[n..] == s[m + n..] + s[..m] && t[..n] == s[m..m + n];
      assert s[..m + n] == s[..m] + s[m..m + n];
    } else {
      assert t[n..] == s[m + n - |s|..m] && t[..n] == s[m..] + s[..m + n - |s|];
      assert s[m + n - |s|..] == s[m + n - |s|..m] + s[m..];
    }
  }

  /** `pushd` loses no name, and brings in none but that of a new directory. */
  lemma PushConserves(s: seq<Name>, v: seq<Word>, chdir: Name -> bool, follow: Word -> Option<Name>)
    requires s != [] && Pushd(s, v, chdir, follow).0 == Done
    ensures multiset(Pushd(s, v, chdir, follow).1) ==
      multiset(s) + if v != [] && Index(v[0]) == 0 then multiset{follow(v[0]).value} else multiset{}
  {
    hide Index;
    if v == [] {
      ExchangeConserves(s);
    } else if Index(v[0]) > 0 {
      RotationConserves(s, Index(v[0]));
    } else {
      assert Pushd(s, v, chdir, follow).1 == [follow(v[0]).value] + s;
    }
  }

  lemma ExchangeConserves(s: seq<Name>)
    requires |s| > 1
    ensures multiset([s[1], s[0]] + s[2..]) == multiset(s)
  {
    assert s == [s[0], s[1]] + s[2..];
  }

  lemma RotationConserves(s: seq<Name>, n: nat)
    requires n <= |s|
    ensures multiset(Rotation(s, n)) == multiset(s)
  {
    assert s == s[..n] + s[n..];
  }

  /** `popd` takes away one name, and `cd` takes away the one at the top and may bring in another. */
  lemma PopConserves(s: seq<Name>, v: seq<Word>, chdir: Name -> bool)
    requires s != [] && Popd(s, v, chdir).0 == Done
    ensures multiset(Popd(s, v, chdir).1) == multiset(s) - multiset{s[if v == [] then 0 else Index(v[0])]}
  {
    hide Index;
    var n := if v == [] then 0 else Index(v[0]);
    assert s == s[..n] + [s[n]] + s[n + 1..];
  }

  lemma CdConserves(s: seq<Name>, v: seq<Word>, home: Name, chdir: Name -> bool, follow: Word -> Option<Name>)
    requires s != [] && Cd(s, v, home, chdir, follow).0 == Done
    ensures multiset(Cd(s, v, home, chdir, follow).1) == multiset(s) - multiset{s[0]} +
      if v == [] then multiset{home} else if Index(v[0]) == 0 then multiset{follow(v[0]).value} else multiset{}
  {
    hide Index;
    assert s == [s[0]] + s[1..];
    if v != [] && Index(v[0]) > 0 {
      assert s[1..] == s[1..Index(v[0])] + s[Index(v[0])..];
    }
  }

  /** A plus sign and a number in decimal. */
  lemma IndexIs(n: nat)
    requires 0 < n < 0x8000_0000
    ensures Index([43] + Putn(n)) == n
  {
    var v := [43] + Putn(n);
    assert v[1..] == Putn(n);
    PutnEgetn(n);
    assert Putn(n)[0] in Putn(n);
    hide Digits, Getn;
  }

  /** With `+n`, the n-th directory comes to the top, those below it follow, and then those above it, in order. */
  lemma PushdTurns(s: seq<Name>, n: nat, chdir: Name -> bool, follow: Word -> Option<Name>)
    requires 0 < n < |s| && n < 0x8000_0000 && chdir(s[n])
    ensures var r := Pushd(s, [[43] + Putn(n)], chdir, follow); r.0 == Done && |r.1| == |s|
    ensures var r := Pushd(s, [[43] + Putn(n)], chdir, follow);
      forall i :: 0 <= i < |s| ==> r.1[i] == s[if i + n < |s| then i + n else i + n - |s|]
  {
    hide Index;
    IndexIs(n);
  }

  /** With `+n`, `popd` takes the n-th directory away, and those below it move up. */
  lemma PopdTakes(s: seq<Name>, n: nat, chdir: Name -> bool)
    requires 0 < n < |s| && n < 0x8000_0000
    ensures var r := Popd(s, [[43] + Putn(n)], chdir); r.0 == Done && |r.1| == |s| - 1
    ensures var r := Popd(s, [[43] + Putn(n)], chdir);
      forall i :: 0 <= i < |s| - 1 ==> r.1[i] == s[if i < n then i else i + 1]
  {
    hide Index;
    IndexIs(n);
  }

  /** With `+n`, `cd` takes the top away and turns the stack, so that the n-th directory comes to the top. */
  lemma CdTurns(s: seq<Name>, n: nat, home: Name, chdir: Name -> bool, follow: Word -> Option<Name>)
    requires 0 < n < |s| && n < 0x8000_0000 && chdir(s[n])
    ensures var r := Cd(s, [[43] + Putn(n)], home, chdir, follow); r.0 == Done && |r.1| == |s| - 1
    ensures var r := Cd(s, [[43] + Putn(n)], home, chdir, follow);
      forall i :: 0 <= i < |s| - 1 ==> r.1[i] == s[if i + n < |s| then i + n else i + n - |s| + 1]
  {
    hide Index;
    IndexIs(n);
  }

  class Directory {
    var next: Directory?
    var prev: Directory?
    var count: nat
    var name: Name

    constructor (cp: Name)
      ensures name == cp && count == 0
    {
      name, count, next, prev := cp, 0, null, null;
    }
  }

  /** Consecutive nodes are linked both ways. */
  ghost predicate Chain(q: seq<Directory>)
    reads q`next, q`prev
  {
    forall i :: 0 <= i < |q| - 1 ==> q[i].prev == q[i + 1] && q[i + 1].next == q[i]
  }

  ghost predicate Distinct(q: seq<Directory>) {
    forall i, j :: 0 <= i < j < |q| ==> q[i] != q[j]
  }

  /** Different nodes, and links round. */
  ghost predicate Ring(q: seq<Directory>)
    reads q`next, q`prev
  {
    q != [] && Distinct(q) && Chain(q + [q[0]])
  }

  /** The ring may be entered anywhere. */
  lemma Turned(a: seq<Directory>, b: seq<Directory>)
    requires a != [] && b != [] && Ring(a + b)
    ensures Ring(b + a)
  {
    var q, r := a + b + [a[0]], b + a + [b[0]];
    assert (a + b)[0] == a[0] && (b + a)[0] == b[0];
    forall i | 0 <= i < |r| - 1
      ensures r[i].prev == r[i + 1] && r[i + 1].next == r[i]
    {
      var k := if i < |b| then |a| + i else i - |b|;
      assert q[k] == r[i] && q[k + 1] == r[i + 1];
    }
    forall i, j | 0 <= i < j < |b + a|
      ensures (b + a)[i] != (b + a)[j]
    {
      assert (b + a)[i] in a + b && (b + a)[j] in a + b;
      var k, m := if i < |b| then |a| + i else i - |b|, if j < |b| then |a| + j else j - |b|;
      assert (a + b)[k] == (b + a)[i] && (a + b)[m] == (b + a)[j];
    }
  }

  /** What comes behind the first node, what is in front of it, and that the rest is different. */
  lemma Around(d: Directory, q: seq<Directory>)
    requires q != [] && Ring([d] + q)
    ensures d.prev == q[0] && q[0].next == d && d.next == q[|q| - 1] && q[|q| - 1].prev == d && d !in q
    ensures Chain(q) && Distinct(q)
  {
    var r := [d] + q + [d];
    assert ([d] + q)[0] == d;
    assert r[0] == d && r[1] == q[0] && r[|q|] == q[|q| - 1] && r[|q| + 1] == d;
    forall i | 0 <= i < |q|
      ensures q[i] != d
    {
      assert ([d] + q)[i + 1] == q[i];
    }
    forall i | 0 <= i < |q| - 1
      ensures q[i].prev == q[i + 1] && q[i + 1].next == q[i]
    {
      assert r[i + 1] == q[i] && r[i + 2] == q[i + 1];
    }
    forall i, j | 0 <= i < j < |q|
      ensures q[i] != q[j]
    {
      assert ([d] + q)[i + 1] == q[i] && ([d] + q)[j + 1] == q[j];
    }
  }

  /** Nodes that are linked, and the ends with them, are a ring. */
  lemma Closed(q: seq<Directory>)
    requires q != [] && Distinct(q) && Chain(q) && q[|q| - 1].prev == q[0] && q[0].next == q[|q| - 1]
    ensures Ring(q)
  {
  }

  /** A node is taken out. */
  method Unlink(dp: Directory, ghost q: seq<Directory>)
    requires q != [] && Ring([dp] + q)
    modifies q`next, q`prev
    ensures Ring(q)
  {
    Around(dp, q);
    dp.prev.next := dp.next;
    dp.next.prev := dp.prev;
    Closed(q);
  }

  /** A node that is not in the ring is put above d. */
  method Link(dp: Directory, d: Directory, ghost q: seq<Directory>)
    requires q != [] && Ring([d] + q) && dp !in q && dp != d
    modifies d`next, q`prev, dp`next, dp`prev
    ensures Ring([dp, d] + q)
  {
    Around(d, q);
    ghost var e := q[|q| - 1];
    dp.next := d.next;
    dp.prev := d;
    d.next.prev := dp;
    d.next := dp;
    ghost var r := [dp, d] + q;
    assert forall i {:trigger r[i]} :: 2 <= i < |r| ==> r[i] == q[i - 2];
    Closed(r);
  }

  /** A new node takes the place of d. */
  method Replace(dp: Directory, d: Directory, ghost q: seq<Directory>)
    requires q != [] && Ring([d] + q) && dp !in q && dp != d
    modifies q`next, q`prev, dp`next, dp`prev
    ensures Ring([dp] + q)
  {
    Around(d, q);
    dp.next := d.next;
    dp.prev := d.prev;
    dp.prev.next := dp;
    dp.next.prev := dp;
    ghost var r := [dp] + q;
    assert forall i {:trigger r[i]} :: 1 <= i < |r| ==> r[i] == q[i - 1];
    Closed(r);
  }

  /** `dfree`: a node that some process still refers to is kept, without links. */
  method Dfree(dp: Directory)
    modifies dp`next, dp`prev
    ensures dp.count != 0 ==> dp.next == dp.prev == null
  {
    if dp.count != 0 {
      dp.next, dp.prev := null, null;
    }
  }

  /** The names of the directories; the head is none. */
  ghost function NamesOf(q: seq<Directory>, head: Directory): (s: seq<Name>)
    reads q`name
    ensures |s| <= |q|
  {
    if q == [] then [] else (if q[0] == head then [] else [q[0].name]) + NamesOf(q[1..], head)
  }

  lemma {:induction false} NamesConcat(a: seq<Directory>, b: seq<Directory>, head: Directory)
    ensures NamesOf(a + b, head) == NamesOf(a, head) + NamesOf(b, head)
  {
    if a == [] {
      assert a + b == b;
    } else {
      assert (a + b)[1..] == a[1..] + b;
      NamesConcat(a[1..], b, head);
    }
  }

  lemma NamesWith(a: seq<Directory>, d: Directory, b: seq<Directory>, head: Directory)
    ensures NamesOf(a + [d] + b, head) == NamesOf(a, head) + (if d == head then [] else [d.name]) + NamesOf(b, head)
    ensures NamesOf([d], head) == if d == head then [] else [d.name]
  {
    NamesConcat(a + [d], b, head);
    NamesConcat(a, [d], head);
    assert [d][1..] == [];
  }

  /** The ring entered at d. */
  lemma TurnedTo(a: seq<Directory>, d: Directory, b: seq<Directory>, head: Directory)
    requires Ring(a + [d] + b)
    ensures Ring([d] + (b + a)) && a + [d] + b != [] && multiset([d] + (b + a)) == multiset(a + [d] + b)
    ensures NamesOf([d] + (b + a), head) == (if d == head then [] else [d.name]) + NamesOf(b, head) + NamesOf(a, head)
  {
    hide Ring, NamesOf;
    assert a + [d] + b == a + ([d] + b) && [d] + b + a == [d] + (b + a);
    if a != [] {
      Turned(a, [d] + b);
    } else {
      assert [] + ([d] + b) == [d] + b && b + [] == b;
    }
    NamesWith([], d, b + a, head);
    NamesConcat(b, a, head);
    assert [] + [d] + (b + a) == [d] + (b + a) && NamesOf([], head) == [] by {
      NoNames(head);
    }
  }

  lemma Elsewhere(r: seq<Directory>, k: nat, d: Directory)
    requires k < |r| && d in r && r[k] != d
    ensures d in r[k + 1..] + r[..k]
  {
    var i :| 0 <= i < |r| && r[i] == d;
    assert d in if i < k then r[..k] else r[k + 1..];
  }

  lemma SameNodes(a: seq<Directory>, b: seq<Directory>)
    requires multiset(a) == multiset(b)
    ensures forall d <- a :: d in b
  {
    forall d | d in a
      ensures d in b
    {
      assert d in multiset(a);
    }
  }

  lemma OneGone(a: seq<Directory>, b: seq<Directory>, dp: Directory)
    requires multiset(a) + multiset{dp} == multiset(b)
    ensures forall d <- b :: d == dp || d in a
  {
    forall d | d in b && d != dp
      ensures d in a
    {
      assert d in multiset(b);
    }
  }

  lemma NoNames(head: Directory)
    ensures NamesOf([], head) == []
  {
  }

  /** The node behind the one at place i, round the ring. */
  lemma Behind(r: seq<Directory>, i: nat)
    requires i < |r| && Ring(r)
    ensures r[i].prev == r[if i + 1 < |r| then i + 1 else 0]
  {
    var q := r + [r[0]];
    assert q[i] == r[i] && q[i + 1] == r[if i + 1 < |r| then i + 1 else 0];
  }

  class Stack {
    const dhead: Directory
    var dcwd: Directory
    ghost var rest: seq<Directory>

    /** `dinit`, with the directory that csh starts in. */
    constructor (cp: Name)
      ensures Valid() && Names() == [cp] && fresh(Nodes())
    {
      var head := new Directory([]);
      var dp := new Directory(cp);
      dhead, dcwd, rest := head, dp, [head];
      new;
      head.next, head.prev := dp, dp;
      dp.next, dp.prev := head, head;
      NamesWith([], dp, [head], head);
      NamesWith([], head, [], head);
      assert [] + [dp] + [head] == Nodes();
    }

    ghost function Nodes(): (r: seq<Directory>)
      reads this
      ensures r != []
    {
      [dcwd] + rest
    }

    ghost predicate Valid()
      reads this, dcwd`next, dcwd`prev, rest`next, rest`prev
    {
      Ring(Nodes()) && dhead in rest
    }

    /** The stack, from the top. */
    ghost function Names(): (s: seq<Name>)
      reads this, dcwd`name, rest`name
    {
      NamesOf(Nodes(), dhead)
    }

    /** How many directories there are in front of the node at place k. */
    ghost function Above(k: nat): nat
      requires k <= |Nodes()|
      reads this, dcwd`name, rest`name
    {
      |NamesOf(Nodes()[..k], dhead)|
    }

    lemma Place(k: nat)
      requires k < |Nodes()|
      ensures Above(0) == 0 && Above(|Nodes()|) == |Names()|
      ensures Above(k + 1) == Above(k) + if Nodes()[k] == dhead then 0 else 1
      ensures Nodes()[k] != dhead ==> Above(k) < |Names()| && Names()[Above(k)] == Nodes()[k].name
      ensures Names() == NamesOf(Nodes()[..k], dhead) + NamesOf(Nodes()[k..], dhead)
    {
      var r := Nodes();
      assert r[..|r|] == r && r[..k + 1] == r[..k] + [r[k]] + [] && r == r[..k] + [r[k]] + r[k + 1..];
      NamesWith(r[..k], r[k], [], dhead);
      NamesWith(r[..k], r[k], r[k + 1..], dhead);
      assert r == r[..k] + r[k..];
      NamesConcat(r[..k], r[k..], dhead);
    }

    /** Along the link, and on if that leads to the head: the next directory, or from the last one back to the
        top. */
    method Below(dp: Directory, ghost k: nat) returns (p: Directory, ghost m: nat)
      requires Valid() && k < |Nodes()| && Nodes()[k] == dp != dhead
      ensures m < |Nodes()| && Nodes()[m] == p != dhead
      ensures if Above(k) + 1 < |Names()| then k < m && Above(m) == Above(k) + 1 else m == 0
      ensures p == dcwd <==> m == 0
    {
      hide NamesOf, Above;
      ghost var r := Nodes();
      Behind(r, k);
      Place(k);
      m := if k + 1 < |r| then k + 1 else 0;
      p := dp.prev;
      if p == dhead {
        Behind(r, m);
        Place(m);
        m := if m + 1 < |r| then m + 1 else 0;
        p := p.prev;
        OneHead();
      }
      if m > 0 {
        Place(m);
      }
    }

    /** `dfind`: the directory that +n stands for, with its place, if it is that; `Deep` if the stack is not that
        deep. */
    method Dfind(v: Word) returns (e: Status, found: bool, dp: Directory, ghost k: nat)
      requires Valid()
      ensures found <==> e == Done && Index(v) > 0
      ensures e == if Index(v) < |Names()| then Done else Deep
      ensures found ==> k < |Nodes()| && Nodes()[k] == dp != dhead && Above(k) == Index(v)
    {
      hide Ring, NamesOf, Index, Above;
      e, found, dp, k := Done, false, dcwd, 0;
      OneHead();
      Place(0);
      var n := Index(v);
      var i := n;
      while i != 0
        invariant 0 <= i <= n && k < |Nodes()| && Nodes()[k] == dp != dhead
        invariant Above(k) == n - i < |Names()|
      {
        Place(k);
        dp, k := Below(dp, k);
        if dp == dcwd {
          e := Deep;
          return;
        }
        i := i - 1;
      }
      found := n != 0;
    }

    lemma OneHead()
      requires Valid()
      ensures forall i, j :: 0 <= i < |Nodes()| && 0 <= j < |Nodes()| && Nodes()[i] == dhead == Nodes()[j] ==> i == j
      ensures dcwd != dhead
    {
      var k :| 0 <= k < |rest| && rest[k] == dhead;
      assert Nodes()[k + 1] == dhead && Nodes()[0] == dcwd;
    }

    /** The nodes and the names in front of and behind a directory. */
    lemma Parts(k: nat)
      requires k < |Nodes()| && Nodes()[k] != dhead
      ensures Above(k) < |Names()| && Nodes() == Nodes()[..k] + [Nodes()[k]] + Nodes()[k + 1..]
      ensures NamesOf(Nodes()[..k], dhead) == Names()[..Above(k)] && Names()[Above(k)] == Nodes()[k].name
      ensures NamesOf(Nodes()[k + 1..], dhead) == Names()[Above(k) + 1..]
    {
      var r := Nodes();
      Place(k);
      assert r == r[..k] + [r[k]] + r[k + 1..];
      NamesWith(r[..k], r[k], r[k + 1..], dhead);
    }

    /** The ring entered at a directory. */
    lemma Round(k: nat)
      requires Valid() && k < |Nodes()| && Nodes()[k] != dhead
      ensures var q := Nodes()[k + 1..] + Nodes()[..k];
        Ring([Nodes()[k]] + q) && dhead in q && multiset([Nodes()[k]] + q) == multiset(Nodes())
      ensures var q := Nodes()[k + 1..] + Nodes()[..k];
        Above(k) < |Names()| && NamesOf([Nodes()[k]] + q, dhead) == Rotation(Names(), Above(k))
    {
      hide Ring, NamesOf, Above;
      var r := Nodes();
      Parts(k);
      OneHead();
      TurnedTo(r[..k], r[k], r[k + 1..], dhead);
      Elsewhere(r, k, dhead);
      assert Names()[Above(k)..] == [r[k].name] + Names()[Above(k) + 1..];
    }

    /** `dnewcwd` on a directory further down: the stack is turned. */
    method Turn(dp: Directory, ghost k: nat)
      requires Valid() && k < |Nodes()| && Nodes()[k] == dp != dhead
      modifies this`dcwd, this`rest
      ensures Valid() && multiset(Nodes()) == old(multiset(Nodes()))
      ensures old(Above(k)) < |old(Names())| && Names() == Rotation(old(Names()), old(Above(k)))
    {
      hide Ring, NamesOf, Above, Rotation;
      Round(k);
      ghost var r := Nodes();
      dcwd, rest := dp, r[k + 1..] + r[..k];
    }

    /** The ring without a directory that is not the top, entered behind that directory and at the top. */
    lemma Without(k: nat) returns (a: seq<Directory>, b: seq<Directory>)
      requires Valid() && 0 < k < |Nodes()| && Nodes()[k] != dhead
      ensures rest == a + [Nodes()[k]] + b && a == Nodes()[1..k] && b == Nodes()[k + 1..] && dhead in a + b
      ensures Nodes()[..k] == [dcwd] + a
      ensures Ring([Nodes()[k]] + (b + [dcwd] + a)) && Nodes()[k] !in b + [dcwd] + a
      ensures forall d <- b + [dcwd] + a :: d == dcwd || d in rest
      ensures 0 < Above(k) < |Names()|
      ensures NamesOf([dcwd] + (a + b), dhead) == Names()[..Above(k)] + Names()[Above(k) + 1..]
    {
      hide Ring, NamesOf, Above, Rotation;
      a, b := Cut(k);
      Round(k);
      Around(Nodes()[k], b + [dcwd] + a);
      NamesWithout(k, a, b);
    }

    lemma NamesWithout(k: nat, a: seq<Directory>, b: seq<Directory>)
      requires Valid() && 0 < k < |Nodes()| && Nodes()[k] != dhead
      requires b == Nodes()[k + 1..] && Nodes()[..k] == [dcwd] + a
      ensures 0 < Above(k) < |Names()|
      ensures NamesOf([dcwd] + (a + b), dhead) == Names()[..Above(k)] + Names()[Above(k) + 1..]
    {
      hide *;
      Parts(k);
      AboveTop(k);
      NamesConcat([dcwd] + a, b, dhead);
      assert [dcwd] + a + b == [dcwd] + (a + b);
    }

    lemma Cut(k: nat) returns (a: seq<Directory>, b: seq<Directory>)
      requires Valid() && 0 < k < |Nodes()| && Nodes()[k] != dhead
      ensures a == Nodes()[1..k] && Nodes()[..k] == [dcwd] + a && b == Nodes()[k + 1..]
      ensures rest == a + [Nodes()[k]] + b && dhead in a + b
      ensures b + Nodes()[..k] == b + [dcwd] + a
    {
      hide Ring;
      var r := Nodes();
      a, b := r[1..k], r[k + 1..];
      assert r[..k] == [dcwd] + a && b + ([dcwd] + a) == b + [dcwd] + a && rest == a + [r[k]] + b;
    }

    lemma AboveTop(k: nat)
      requires Valid() && 0 < k <= |Nodes()|
      ensures Above(k) > 0
    {
      OneHead();
    }

    /** A directory that is not the top goes. */
    method Remove(dp: Directory, ghost k: nat)
      requires Valid() && 0 < k < |Nodes()| && Nodes()[k] == dp != dhead
      modifies this`rest, dcwd`next, dcwd`prev, rest`next, rest`prev
      ensures Valid() && multiset(rest) + multiset{dp} == old(multiset(rest))
      ensures dp !in Nodes() && forall d <- rest :: d in old(rest)
      ensures var s, n := old(Names()), old(Above(k)); 0 < n < |s| && Names() == s[..n] + s[n + 1..]
    {
      hide Ring, NamesOf, Above;
      ghost var a, b := Without(k);
      Unlink(dp, b + [dcwd] + a);
      TurnedTo(b, dcwd, a, dhead);
      rest := a + b;
    }

    /** The top goes, and a directory further down takes its place. */
    method RemoveTop(p: Directory, ghost m: nat)
      requires Valid() && 0 < m < |Nodes()| && Nodes()[m] == p != dhead
      modifies this`dcwd, this`rest, rest`next, rest`prev
      ensures Valid() && multiset(Nodes()) == old(multiset(rest))
      ensures var s, n := old(Names()), old(Above(m)); 0 < n < |s| && Names() == s[n..] + s[1..n]
    {
      hide Ring, NamesOf, Above;
      ghost var a, b := Without(m);
      Lower(m, a, b);
      Unlink(dcwd, rest);
      TurnedTo(a, p, b, dhead);
      dcwd, rest := p, b + a;
    }

    lemma Lower(k: nat, a: seq<Directory>, b: seq<Directory>)
      requires Valid() && 0 < k < |Nodes()| && Nodes()[k] != dhead
      requires a == Nodes()[1..k] && b == Nodes()[k + 1..] && Nodes()[..k] == [dcwd] + a && 0 < Above(k) < |Names()|
      ensures NamesOf([Nodes()[k]] + (b + a), dhead) == Names()[Above(k)..] + Names()[1..Above(k)]
    {
      hide Ring, NamesOf, Above;
      var d := Nodes()[k];
      Parts(k);
      OneHead();
      assert [] + [dcwd] + a == [dcwd] + a && [] + [d] + (b + a) == [d] + (b + a);
      NamesWith([], dcwd, a, dhead);
      NoNames(dhead);
      NamesConcat(b, a, dhead);
      NamesWith([], d, b + a, dhead);
      assert Names()[..Above(k)][1..] == Names()[1..Above(k)];
    }

    /** A directory that is not in the ring is put on top. */
    method Put(dp: Directory)
      requires Valid() && dp !in Nodes()
      modifies this`dcwd, this`rest, dcwd`next, rest`prev, dp`next, dp`prev
      ensures Valid() && dcwd == dp && rest == old(Nodes()) && Names() == [dp.name] + old(Names())
    {
      hide Ring, NamesOf;
      Link(dp, dcwd, rest);
      ghost var r := Nodes();
      assert [dp, dcwd] + rest == [dp] + r && [] + [dp] + r == [dp] + r;
      NamesWith([], dp, r, dhead);
      NoNames(dhead);
      dcwd, rest := dp, r;
    }

    /** A new directory takes the place of the top. */
    method SetTop(dp: Directory)
      requires Valid() && dp !in Nodes()
      modifies this`dcwd, dcwd`next, dcwd`prev, rest`next, rest`prev, dp`next, dp`prev
      ensures Valid() && dcwd == dp && |old(Names())| > 0 && Names() == [dp.name] + old(Names())[1..]
      ensures old(dcwd).count != 0 ==> old(dcwd).next == old(dcwd).prev == null
    {
      hide Ring, NamesOf;
      Apart();
      TopName(dcwd);
      Replace(dp, dcwd, rest);
      Dfree(dcwd);
      TopName(dp);
      dcwd := dp;
    }

    lemma TopName(d: Directory)
      requires d != dhead
      ensures NamesOf([d] + rest, dhead) == [d.name] + NamesOf(rest, dhead)
    {
      assert ([d] + rest)[1..] == rest;
    }

    lemma Apart()
      requires Valid()
      ensures dcwd !in rest && dcwd != dhead
    {
      Around(dcwd, rest);
    }

    /** The exchange of the upper two. */
    method Exchange(dp: Directory, ghost k: nat)
      requires Valid() && 0 < k < |Nodes()| && Nodes()[k] == dp != dhead && Above(k) == 1
      modifies this`dcwd, this`rest, dcwd`next, dcwd`prev, rest`next, rest`prev
      ensures Valid() && multiset(Nodes()) == old(multiset(Nodes()))
      ensures var s := old(Names()); |s| > 1 && Names() == [s[1], s[0]] + s[2..]
    {
      hide Ring, NamesOf, Above;
      Place(k);
      assert dp == rest[k - 1] && dp in rest;
      Remove(dp, k);
      assert forall i :: 0 <= i < |rest| ==> rest[i] in old(rest);
      Put(dp);
    }

    /** `pushd`. What `chdir` says of a directory, and what becomes of a name behind it, are parameters. */
    method Dopushd(v: seq<Word>, chdir: Name -> bool, follow: Word -> Option<Name>) returns (e: Status)
      requires Valid()
      modifies this`dcwd, this`rest, dcwd`next, dcwd`prev, rest`next, rest`prev
      ensures Valid() && old(Names()) != [] && (e, Names()) == Pushd(old(Names()), v, chdir, follow)
      ensures forall d <- Nodes() :: d in old(Nodes()) || fresh(d)
    {
      hide Ring, NamesOf, Above, Index;
      Place(0);
      Apart();
      e := Done;
      var dp, found;
      ghost var k;
      if v == [] {
        dp, k := Below(dcwd, 0);
        if dp == dcwd {
          return NoDir;
        }
        Place(k);
        if !chdir(dp.name) {
          return System;
        }
        Exchange(dp, k);
        SameNodes(Nodes(), old(Nodes()));
      } else if |v| > 1 {
        e := TooMany;
      } else {
        e, found, dp, k := Dfind(v[0]);
        if e == Deep {
          return;
        }
        if found {
          Place(k);
          if !chdir(dp.name) {
            return System;
          }
          Turn(dp, k);
          SameNodes(Nodes(), old(Nodes()));
        } else {
          var f := follow(v[0]);
          if f.None? {
            return System;
          }
          dp := new Directory(f.value);
          Put(dp);
        }
      }
    }

    lemma {:induction false} Count(q: seq<Directory>)
      requires Distinct(q)
      ensures |NamesOf(q, dhead)| == |q| - if dhead in q then 1 else 0
    {
      if q != [] {
        assert forall i, j :: 0 <= i < j < |q[1..]| ==> q[1..][i] == q[i + 1] != q[j + 1] == q[1..][j];
        Count(q[1..]);
        assert q == [q[0]] + q[1..];
        assert q[0] !in q[1..];
      }
    }

    /** A directory is alone exactly if it has the head on both sides. */
    lemma Alone(k: nat)
      requires Valid() && k < |Nodes()| && Nodes()[k] != dhead
      ensures Nodes()[k].prev == dhead == Nodes()[k].next <==> |Names()| == 1
    {
      hide NamesOf, Above;
      var d := Nodes()[k];
      var q := Nodes()[k + 1..] + Nodes()[..k];
      Round(k);
      Count(Nodes());
      Around(d, q);
      assert |q| > 1 ==> q[0] != q[|q| - 1];
    }

    /** The last statements of `popd`; for the top, p is the directory below. */
    method Drop(dp: Directory, ghost k: nat, p: Directory?, ghost m: nat)
      requires Valid() && k < |Nodes()| && Nodes()[k] == dp != dhead
      requires dp == dcwd ==> 0 < m < |Nodes()| && Nodes()[m] == p != dhead && Above(m) == 1
      modifies this`dcwd, this`rest, dcwd`next, dcwd`prev, rest`next, rest`prev
      ensures Valid() && forall d <- Nodes() :: d in old(Nodes())
      ensures forall d <- old(Nodes()) :: d == dp || d in Nodes()
      ensures var s, n := old(Names()), old(Above(k)); n < |s| && Names() == s[..n] + s[n + 1..]
      ensures dp !in Nodes() && (dp.count != 0 ==> dp.next == dp.prev == null)
    {
      hide Ring, NamesOf, Above;
      Place(k);
      Apart();
      if dp == dcwd {
        TopPlace(k);
        RemoveTop(p, m);
        SameNodes(Nodes(), old(rest));
        SameNodes(old(rest), Nodes());
      } else {
        assert dp == rest[k - 1];
        Remove(dp, k);
        OneGone(rest, old(rest), dp);
      }
      Dfree(dp);
    }

    lemma TopPlace(k: nat)
      requires Valid() && k < |Nodes()| && Nodes()[k] == dcwd
      ensures k == 0 && Above(k) == 0
    {
      Apart();
    }

    /** `popd`. */
    method Dopopd(v: seq<Word>, chdir: Name -> bool) returns (e: Status)
      requires Valid()
      modifies this`dcwd, this`rest, dcwd`next, dcwd`prev, rest`next, rest`prev
      ensures Valid() && old(Names()) != [] && (e, Names()) == Popd(old(Names()), v, chdir)
      ensures forall d <- Nodes() :: d in old(Nodes())
      ensures forall d <- old(Nodes()) :: d in Nodes() || d.count == 0 || d.next == d.prev == null
    {
      hide Ring, NamesOf, Above, Index;
      Place(0);
      Apart();
      e := Done;
      var dp, found, p: Directory? := dcwd, true, null;
      ghost var k, m := 0, 0;
      if |v| > 1 {
        return TooMany;
      }
      if v != [] {
        e, found, dp, k := Dfind(v[0]);
        if e == Deep {
          return;
        }
        if !found {
          return BadDir;
        }
      }
      Alone(k);
      if dp.prev == dhead && dp.next == dhead {
        return Empty;
      }
      if dp == dcwd {
        TopPlace(k);
        p, m := Below(dp, k);
        Place(m);
        if !chdir(p.name) {
          return System;
        }
      }
      Drop(dp, k, p, m);
    }

    /** `cd`. */
    method Dochngd(v: seq<Word>, home: Name, chdir: Name -> bool, follow: Word -> Option<Name>) returns (e: Status)
      requires Valid()
      modifies this`dcwd, this`rest, dcwd`next, dcwd`prev, rest`next, rest`prev
      ensures Valid() && old(Names()) != [] && (e, Names()) == Cd(old(Names()), v, home, chdir, follow)
      ensures forall d <- Nodes() :: d in old(Nodes()) || fresh(d)
      ensures forall d <- old(Nodes()) :: d in Nodes() || d.count == 0 || d.next == d.prev == null
    {
      hide Ring, NamesOf, Above, Index;
      Place(0);
      Apart();
      var cp: Name;
      if v == [] {
        if home == [] {
          return NoHomeDir;
        }
        if !chdir(home) {
          return CantChange;
        }
        cp := home;
      } else if |v| > 1 {
        return TooMany;
      } else {
        var found, dp;
        ghost var k;
        e, found, dp, k := Dfind(v[0]);
        if e == Deep {
          return;
        }
        if found {
          Place(k);
          if !chdir(dp.name) {
            return System;
          }
          Leave(dp, k);
          return;
        }
        var f := follow(v[0]);
        if f.None? {
          return System;
        }
        cp := f.value;
      }
      var dp := new Directory(cp);
      SetTop(dp);
      e := Done;
    }

    /** The top goes, and a directory further down takes its place, for `cd`. */
    method Leave(dp: Directory, ghost k: nat)
      requires Valid() && k < |Nodes()| && Nodes()[k] == dp != dhead && Above(k) > 0
      modifies this`dcwd, this`rest, dcwd`next, dcwd`prev, rest`next, rest`prev
      ensures Valid() && forall d <- Nodes() :: d in old(Nodes())
      ensures forall d <- old(Nodes()) :: d in Nodes() || d.count == 0 || d.next == d.prev == null
      ensures var s, n := old(Names()), old(Above(k)); 0 < n < |s| && Names() == s[n..] + s[1..n]
    {
      hide Ring, NamesOf, Above;
      Place(k);
      Apart();
      ghost var was := rest;
      var d := dcwd;
      RemoveTop(dp, k);
      SameNodes(Nodes(), was);
      SameNodes(was, Nodes());
      Dfree(d);
    }

    /** `printdirs`: what is printed. */
    method Printdirs() returns (printed: seq<Name>)
      requires Valid()
      ensures printed == Names()
    {
      hide Ring, NamesOf;
      var dp := dcwd;
      ghost var k := 0;
      printed := [];
      Place(0);
      while true
        invariant k < |Nodes()| && dp == Nodes()[k] && printed == NamesOf(Nodes()[..k], dhead)
        decreases |Nodes()| - k
      {
        if dp != dhead {
          printed := printed + [dp.name];
        }
        Printed(k);
        dp := dp.prev;
        if dp == dcwd {
          return;
        }
        k := k + 1;
      }
    }

    lemma Printed(k: nat)
      requires Valid() && k < |Nodes()|
      ensures var r, d := Nodes(), Nodes()[k];
        NamesOf(r[..k + 1], dhead) == NamesOf(r[..k], dhead) + if d == dhead then [] else [d.name]
      ensures if Nodes()[k].prev == dcwd then k + 1 == |Nodes()| && NamesOf(Nodes()[..k + 1], dhead) == Names()
        else k + 1 < |Nodes()| && Nodes()[k].prev == Nodes()[k + 1]
    {
      hide NamesOf;
      var r := Nodes();
      Behind(r, k);
      Apart();
      assert r[..k + 1] == r[..k] + [r[k]] && (k + 1 == |r| ==> r[..k + 1] == r);
      NamesConcat(r[..k], [r[k]], dhead);
      NamesWith([], r[k], [], dhead);
    }
  }
}
