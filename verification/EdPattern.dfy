/** What ed's regular expressions mean: which stretches of a line they match, and which of these is chosen
    (bin/ed/ed.c). Groups and back-references are not modelled. */
module EdPattern {
  import opened Basics

  /** What one character has to be. */
  datatype Atom = Chr(c: int) | Dot | Class(chars: seq<int>, negated: bool)

  datatype Item = Item(atom: Atom, star: bool)

  /** A pattern: items, and whether a dollar asks for the end of the line behind them. */
  datatype Pattern = Pattern(items: seq<Item>, dollar: bool)

  predicate Fits(a: Atom, c: int) {
    match a
    case Chr(d) => c == d
    case Dot => true
    case Class(chars, negated) => (c in chars) != negated
  }

  /** A line: its characters, without the null that ends it. */
  ghost predicate IsLine(s: seq<int>) {
    forall c <- s :: c != 0
  }

  ghost predicate AllFit(a: Atom, s: seq<int>, i: nat, j: nat)
    requires i <= j <= |s|
  {
    forall k :: i <= k < j ==> Fits(a, s[k])
  }

  /** The items match s[i..j]. */
  ghost predicate Matches(p: Pattern, s: seq<int>, i: nat, j: nat)
    requires i <= |s|
    decreases |p.items|
  {
    if p.items == [] then
      i == j && (p.dollar ==> j == |s|)
    else
      var it, rest := p.items[0], p.(items := p.items[1..]);
      if it.star then exists k :: i <= k <= |s| && AllFit(it.atom, s, i, k) && Matches(rest, s, k, j)
      else i < |s| && Fits(it.atom, s[i]) && Matches(rest, s, i + 1, j)
  }

  /** How far the characters from i on fit the atom. */
  function RunEnd(a: Atom, s: seq<int>, i: nat): (e: nat)
    requires i <= |s|
    ensures i <= e <= |s| && AllFit(a, s, i, e) && (e < |s| ==> !Fits(a, s[e]))
    decreases |s| - i
  {
    if i < |s| && Fits(a, s[i]) then RunEnd(a, s, i + 1) else i
  }

  /** Where the match found by trying the longest run of every star first ends. */
  function MatchEnd(p: Pattern, s: seq<int>, i: nat): (r: Option<nat>)
    requires i <= |s|
    decreases |p.items|, 1, 0
  {
    if p.items == [] then
      if p.dollar && i < |s| then None else Some(i)
    else
      var it, rest := p.items[0], p.(items := p.items[1..]);
      if it.star then LongestFirst(rest, s, i, RunEnd(it.atom, s, i))
      else if i < |s| && Fits(it.atom, s[i]) then MatchEnd(rest, s, i + 1)
      else None
  }

  /** The first success among the starts k, k - 1, ..., i of the rest of the pattern. */
  function LongestFirst(p: Pattern, s: seq<int>, i: nat, k: nat): (r: Option<nat>)
    requires i <= k <= |s|
    decreases |p.items|, 2, k
  {
    var r := MatchEnd(p, s, k);
    if r.Some? || k == i then r else LongestFirst(p, s, i, k - 1)
  }

  /** The match that the greedy search ends in is one. */
  lemma {:induction false} MatchEndSound(p: Pattern, s: seq<int>, i: nat)
    requires i <= |s|
    ensures MatchEnd(p, s, i).Some? ==> Matches(p, s, i, MatchEnd(p, s, i).value)
    decreases |p.items|, 1, 0
  {
    if p.items != [] {
      var it, rest := p.items[0], p.(items := p.items[1..]);
      if it.star {
        LongestFirstSound(it, rest, s, i, RunEnd(it.atom, s, i));
      } else if i < |s| {
        MatchEndSound(rest, s, i + 1);
      }
    }
  }

  lemma {:induction false} LongestFirstSound(it: Item, rest: Pattern, s: seq<int>, i: nat, k: nat)
    requires i <= k <= |s| && it.star && AllFit(it.atom, s, i, k)
    ensures var r := LongestFirst(rest, s, i, k);
      r.Some? ==> exists m :: i <= m <= |s| && AllFit(it.atom, s, i, m) && Matches(rest, s, m, r.value)
    decreases |rest.items|, 2, k
  {
    MatchEndSound(rest, s, k);
    if MatchEnd(rest, s, k).None? && k > i {
      LongestFirstSound(it, rest, s, i, k - 1);
    }
  }

  /** If there is a match, the greedy search succeeds. */
  lemma {:induction false} MatchEndComplete(p: Pattern, s: seq<int>, i: nat, j: nat)
    requires i <= |s| && Matches(p, s, i, j)
    ensures MatchEnd(p, s, i).Some?
    decreases |p.items|, 1, 0
  {
    if p.items != [] {
      var it, rest := p.items[0], p.(items := p.items[1..]);
      if it.star {
        var k :| i <= k <= |s| && AllFit(it.atom, s, i, k) && Matches(rest, s, k, j);
        MatchEndComplete(rest, s, k, j);
        LongestFirstFinds(rest, s, i, RunEnd(it.atom, s, i), k);
      } else {
        MatchEndComplete(rest, s, i + 1, j);
      }
    }
  }

  lemma {:induction false} LongestFirstFinds(p: Pattern, s: seq<int>, i: nat, e: nat, k: nat)
    requires i <= k <= e <= |s| && MatchEnd(p, s, k).Some?
    ensures LongestFirst(p, s, i, e).Some?
    decreases e
  {
    if k < e {
      LongestFirstFinds(p, s, i, e - 1, k);
    }
  }

  /** The greedy search from a place succeeds exactly if the pattern matches something there. */
  lemma MatchEndDecides(p: Pattern, s: seq<int>, i: nat)
    requires i <= |s|
    ensures MatchEnd(p, s, i).Some? <==> exists j: nat :: Matches(p, s, i, j)
  {
    MatchEndSound(p, s, i);
    if MatchEnd(p, s, i).Some? {
      var j := MatchEnd(p, s, i).value;
      assert Matches(p, s, i, j);
    }
    forall j: nat | Matches(p, s, i, j) ensures MatchEnd(p, s, i).Some? {
      MatchEndComplete(p, s, i, j);
    }
  }

  /** A match in which the runs of the stars end at `ks`, in the order of the stars. */
  ghost predicate Via(p: Pattern, s: seq<int>, i: nat, ks: seq<nat>, j: nat)
    requires i <= |s|
    decreases |p.items|
  {
    if p.items == [] then
      ks == [] && i == j && (p.dollar ==> j == |s|)
    else
      var it, rest := p.items[0], p.(items := p.items[1..]);
      if it.star then
        ks != [] && i <= ks[0] <= |s| && AllFit(it.atom, s, i, ks[0]) && Via(rest, s, ks[0], ks[1..], j)
      else i < |s| && Fits(it.atom, s[i]) && Via(rest, s, i + 1, ks, j)
  }

  lemma {:induction false} ViaMatches(p: Pattern, s: seq<int>, i: nat, ks: seq<nat>, j: nat)
    requires i <= |s| && Via(p, s, i, ks, j)
    ensures Matches(p, s, i, j)
    decreases |p.items|
  {
    if p.items != [] {
      var it, rest := p.items[0], p.(items := p.items[1..]);
      if it.star {
        ViaMatches(rest, s, ks[0], ks[1..], j);
      } else {
        ViaMatches(rest, s, i + 1, ks, j);
      }
    }
  }

  /** No choice in `b` is preferred to the one in `a` at the first place where they differ. */
  ghost predicate AtLeastAsLong(a: seq<nat>, b: seq<nat>) {
    if a == [] then b == []
    else b != [] && (a[0] > b[0] || (a[0] == b[0] && AtLeastAsLong(a[1..], b[1..])))
  }

  lemma {:induction false} RunEndIsLast(a: Atom, s: seq<int>, i: nat, k: nat)
    requires i <= k <= |s| && AllFit(a, s, i, k)
    ensures k <= RunEnd(a, s, i)
  {
  }

  lemma {:induction false} LongestFirstIsLongest(p: Pattern, s: seq<int>, i: nat, e: nat) returns (k: nat)
    requires i <= e <= |s| && LongestFirst(p, s, i, e).Some?
    ensures i <= k <= e && MatchEnd(p, s, k) == LongestFirst(p, s, i, e)
    ensures forall m :: k < m <= e ==> MatchEnd(p, s, m).None?
    decreases e
  {
    if MatchEnd(p, s, e).Some? {
      k := e;
    } else {
      k := LongestFirstIsLongest(p, s, i, e - 1);
    }
  }

  /** Among all matches from a place, the greedy search ends in the one that prefers longer runs, the first
      star's most. */
  lemma {:induction false} MatchEndIsGreediest(p: Pattern, s: seq<int>, i: nat) returns (ks: seq<nat>)
    requires i <= |s| && MatchEnd(p, s, i).Some?
    ensures Via(p, s, i, ks, MatchEnd(p, s, i).value)
    ensures forall ls: seq<nat>, j: nat | Via(p, s, i, ls, j) :: AtLeastAsLong(ks, ls)
    decreases |p.items|
  {
    if p.items == [] {
      ks := [];
    } else {
      var it, rest := p.items[0], p.(items := p.items[1..]);
      if it.star {
        var e := RunEnd(it.atom, s, i);
        var k := LongestFirstIsLongest(rest, s, i, e);
        ks := MatchEndIsGreediest(rest, s, k);
        ks := [k] + ks;
        forall ls: seq<nat>, j: nat | Via(p, s, i, ls, j) ensures AtLeastAsLong(ks, ls) {
          ViaMatches(rest, s, ls[0], ls[1..], j);
          MatchEndComplete(rest, s, ls[0], j);
          RunEndIsLast(it.atom, s, i, ls[0]);
        }
      } else {
        ks := MatchEndIsGreediest(rest, s, i + 1);
      }
    }
  }
}
