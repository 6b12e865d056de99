/** What words with braces stand for, by the characters that they are written with (bin/csh/glob.c). */
module BraceText {
  import opened Basics
  import opened BraceSpec

  /** The place of the first character c. */
  function Find(w: Word, c: int): (e: nat)
    ensures e <= |w| && c !in w[..e] && (e < |w| ==> w[e] == c)
  {
    if w == [] || w[0] == c then 0 else
      var e := 1 + Find(w[1..], c);
      assert w[..e] == [w[0]] + w[1..][..e - 1];
      e
  }

  /** At depth d, the text closes the braces that are open and no other; every bracket has its end, and hides what is
      in it; and unless `free` is set there is a comma in braces only. */
  predicate Even(w: Word, d: nat, free: bool)
    decreases |w|
  {
    if w == [] then d == 0
    else if w[0] == 91 then
      var e := Find(w, 93);
      e < |w| && Even(w[e + 1..], d, free)
    else if w[0] == 123 then Even(w[1..], d + 1, free)
    else if w[0] == 125 then d > 0 && Even(w[1..], d - 1, free)
    else (w[0] == 44 ==> d > 0 || free) && Even(w[1..], d, free)
  }

  /** The text w stands in t at k. */
  predicate Stands(t: Word, k: nat, w: Word) {
    k + |w| <= |t| && t[k..k + |w|] == w
  }

  lemma StandsParts(t: Word, k: nat, a: Word, b: Word)
    requires Stands(t, k, a + b)
    ensures Stands(t, k, a) && Stands(t, k + |a|, b) && (a != [] ==> t[k] == a[0])
  {
    assert (a + b)[..|a|] == a && (a + b)[|a|..] == b;
    assert t[k..k + |a + b|][..|a|] == t[k..k + |a|];
    assert t[k..k + |a + b|][|a|..] == t[k + |a|..k + |a| + |b|];
    assert a != [] ==> t[k..k + |a|][0] == t[k];
  }

  /** Nothing is at the outermost level from k to n, of what would close braces, or separate words. */
  ghost predicate Quiet(t: Word, k: nat, n: nat, free: bool)
    requires k <= n <= |t|
  {
    forall m :: k <= m < n ==> !Outer(t, m, 125) && (Outer(t, m, 44) ==> free)
  }

  lemma {:induction false} BracketWalk(t: Word, k: nat, n: nat, d: int)
    requires k < n < |t| && t[k] == 91 && (forall m :: k < m < n ==> t[m] != 93) && Walk(t, k) == Level(d, false)
    ensures Walk(t, n) == Level(d, true) && forall m :: k < m <= n ==> Walk(t, m) == Level(d, true)
    decreases n
  {
    if k + 1 < n {
      BracketWalk(t, k, n - 1, d);
    }
  }

  lemma EvenStep(t: Word, k: nat, w: Word, e: nat, d: nat)
    requires w != [] && Stands(t, k, w) && Walk(t, k) == Level(d, false)
    requires if w[0] == 91 then e == Find(w, 93) < |w| else e == 0
    ensures k + e < |t| && Stands(t, k + e + 1, w[e + 1..])
    ensures Walk(t, k + e + 1) == Level(if w[0] == 123 then d + 1 else if w[0] == 125 then d - 1 else d, false)
    ensures t[k] == w[0] && forall m :: k < m <= k + e ==> Walk(t, m) == Level(d, true)
  {
    assert w[..e + 1] + w[e + 1..] == w;
    StandsParts(t, k, w[..e + 1], w[e + 1..]);
    if w[0] == 91 {
      forall m | k < m < k + e ensures t[m] != 93 {
        assert t[m] == t[k..k + |w|][m - k] == w[..e][m - k];
      }
      assert t[k..k + |w|][e] == t[k + e];
      BracketWalk(t, k, k + e, d);
    }
  }

  lemma {:induction false} EvenWalk(t: Word, k: nat, w: Word, d: nat, free: bool)
    requires Stands(t, k, w) && Even(w, d, free) && Walk(t, k) == Level(d, false)
    ensures Walk(t, k + |w|) == TOP && Quiet(t, k, k + |w|, free)
    decreases |w|
  {
    hide Stands, Walk, Find;
    if w == [] {
      StandsNothing(t, k);
    } else {
      var e := if w[0] == 91 then Find(w, 93) else 0;
      EvenStep(t, k, w, e, d);
      EvenWalk(t, k + e + 1, w[e + 1..], if w[0] == 123 then d + 1 else if w[0] == 125 then d - 1 else d, free);
      StandsFits(t, k, w);
    }
  }

  lemma StandsNothing(t: Word, k: nat)
    requires Stands(t, k, [])
    ensures k <= |t|
  {
  }

  lemma StandsFits(t: Word, k: nat, w: Word)
    requires Stands(t, k, w)
    ensures k + |w| <= |t|
  {
  }

  /** The words with commas between them. */
  function Joined(ps: seq<Word>): Word
    requires ps != []
  {
    if |ps| == 1 then ps[0] else ps[0] + ([44] + Joined(ps[1..]))
  }

  ghost predicate AllEven(ps: seq<Word>) {
    forall p <- ps :: Even(p, 0, false)
  }

  lemma {:induction false} PiecesAre(t: Word, k: nat, ps: seq<Word>)
    requires ps != [] && AllEven(ps) && Stands(t, k, Joined(ps)) && Walk(t, k) == TOP
    ensures k + |Joined(ps)| <= |t| && Pieces(t, k, k, k + |Joined(ps)|) == ps
    ensures Walk(t, k + |Joined(ps)|) == TOP && Quiet(t, k, k + |Joined(ps)|, true)
    decreases |ps|
  {
    hide Walk, Even, Find, Pieces;
    var p, rest := ps[0], if |ps| == 1 then [] else [44] + Joined(ps[1..]);
    var n, pe := k + |p|, k + |Joined(ps)|;
    assert Joined(ps) == p + rest;
    StandsParts(t, k, p, rest);
    EvenWalk(t, k, p, 0, false);
    PiecesSkip(t, k, k, n, pe);
    assert t[k..n] == p;
    if |ps| > 1 {
      StandsParts(t, n, [44], Joined(ps[1..]));
      PlainStep(t, n);
      PiecesAre(t, n + 1, ps[1..]);
      assert ps == [p] + ps[1..];
    }
    PiecesCut(t, k, n, pe);
  }

  lemma PlainStep(t: Word, n: nat)
    requires n < |t| && t[n] == 44 && Walk(t, n) == TOP
    ensures Walk(t, n + 1) == TOP && Outer(t, n, 44) && !Outer(t, n, 125)
  {
  }

  /** Each word with the same in front of it and behind it. */
  function Around(head: Word, ps: seq<Word>, tail: Word): seq<Word> {
    if ps == [] then [] else [head + ps[0] + tail] + Around(head, ps[1..], tail)
  }

  lemma {:induction false} AroundIs(head: Word, ps: seq<Word>, tail: Word)
    ensures Wrap(head, ps, tail) == Around(head, ps, tail)
  {
    if ps != [] {
      AroundIs(head, ps[1..], tail);
    }
  }

  lemma {:induction false} FirstOnly(s: Word, b: nat)
    requires b < |s| && s[b] == 123 && 123 !in s[..b]
    ensures First(s) == b
    decreases |s|
  {
    if b > 0 {
      assert s[..b][0] == s[0] && s[1..][..b - 1] == s[..b][1..];
      FirstOnly(s[1..], b - 1);
    }
  }

  lemma FirstIs(head: Word, t: Word)
    requires 123 !in head
    ensures var s := head + [123] + t; 123 in s && First(s) == |head| && s[..|head|] == head && s[|head| + 1..] == t
  {
    var s := head + [123] + t;
    assert s[|head|] == 123;
    FirstOnly(s, |head|);
  }

  lemma CloseIs(t: Word, n: nat)
    requires n < |t| && Quiet(t, 0, n, true) && t[n] == 125 && Walk(t, n) == TOP
    ensures Close(t, 0) == n
  {
    hide Walk;
    assert Outer(t, n, 125);
    var pe := Close(t, 0);
  }

  /** In a word with braces, the first of which follow what is in front without any, there stand words with commas
      between them, which have their own braces and brackets: these are the alternatives, in order. */
  lemma AlternativesAre(head: Word, ps: seq<Word>, tail: Word)
    requires 123 !in head && ps != [] && AllEven(ps)
    ensures var s := head + [123] + (Joined(ps) + ([125] + tail));
      123 in s && Alternatives(s) == Ok(Around(head, ps, tail))
  {
    hide *;
    var j := Joined(ps);
    var t := j + ([125] + tail);
    FirstIs(head, t);
    TextIs(j, tail);
    PiecesAre(t, 0, ps);
    CloseIs(t, |j|);
    AroundIs(head, ps, tail);
    AlternativesIs(head + [123] + t, |head|, t, |j|);
  }

  lemma TextIs(j: Word, tail: Word)
    ensures var t := j + ([125] + tail); Stands(t, 0, j) && t[|j|] == 125 && t[|j| + 1..] == tail && Walk(t, 0) == TOP
  {
  }

  lemma AlternativesIs(s: Word, b: nat, t: Word, pe: nat)
    requires 123 in s && First(s) == b && s[b + 1..] == t && Close(t, 0) == pe < |t|
    ensures Alternatives(s) == Ok(Wrap(s[..b], Pieces(t, 0, 0, pe), t[pe + 1..]))
  {
    hide First, Close, Wrap, Pieces;
  }

  /** Words without braces of their own, one after the other. */
  lemma {:induction false} AllUntouched(head: Word, ps: seq<Word>, tail: Word)
    requires 123 !in head && 123 !in tail && forall p <- ps :: 123 !in p
    ensures ExpandAll(Around(head, ps, tail)) == Ok(Around(head, ps, tail))
  {
    if ps != [] {
      AllUntouched(head, ps[1..], tail);
      assert Around(head, ps, tail)[0] == head + ps[0] + tail;
      assert Around(head, ps, tail)[1..] == Around(head, ps[1..], tail);
      assert 123 !in head + ps[0] + tail;
    }
  }

  /** If no further braces are in them, the word expands to just these; only `{}` stays as it is. */
  lemma BracesExpand(head: Word, ps: seq<Word>, tail: Word)
    requires 123 !in head && ps != [] && AllEven(ps) && 123 !in tail && forall p <- ps :: 123 !in p
    ensures var s := head + [123] + (Joined(ps) + ([125] + tail));
      Expand(s) == Ok(if s == [123, 125] then [s] else Around(head, ps, tail))
  {
    var s := head + [123] + (Joined(ps) + ([125] + tail));
    AlternativesAre(head, ps, tail);
    AllUntouched(head, ps, tail);
    assert |s| >= 2;
    hide Even, Find, Joined, Around, Alternatives;
  }

  /** A brace without its end, or a bracket without one in it, is reported by the character that is missing. */
  lemma BracesMissing(head: Word, w: Word)
    requires 123 !in head && Even(w, 0, true) && head + [123] + w != [123]
    ensures Expand(head + [123] + w) == Missing(125)
  {
    hide *;
    FirstIs(head, w);
    Alone(w);
    EvenWalk(w, 0, w, 0, true);
    NeverCloses(w);
    NotUntouched(head, w);
    MissingIs(head + [123] + w, |head|, w);
  }

  lemma Alone(w: Word)
    ensures Stands(w, 0, w) && Walk(w, 0) == Level(0, false) == TOP
  {
  }

  lemma MissingIs(s: Word, b: nat, t: Word)
    requires 123 in s && First(s) == b && s[b + 1..] == t && Close(t, 0) == |t| && !Untouched(s)
    ensures Expand(s) == Missing(if Walk(t, |t|).hidden then 93 else 125)
  {
    hide First, Close, Untouched;
  }

  lemma NeverCloses(t: Word)
    requires Quiet(t, 0, |t|, true)
    ensures Close(t, 0) == |t|
  {
    hide Walk;
    var pe := Close(t, 0);
  }

  lemma NotUntouched(head: Word, w: Word)
    requires head + [123] + w != [123] && Close(w, 0) == |w|
    ensures !Untouched(head + [123] + w)
  {
    var s := head + [123] + w;
    assert s[|head|] == 123 && s[|head| + 1..] == w && s[..|head|] == head;
    assert w == [125] ==> Outer(w, 0, 125);
    var e: Word := [123, 125];
    assert e[1..] == [125] && e[1] == 125 && |e| == 2;
  }

  lemma BracketMissing(head: Word, w: Word, u: Word)
    requires 123 !in head && Even(w, 0, true) && 93 !in u
    ensures Expand(head + [123] + (w + [91] + u)) == Missing(93)
  {
    hide *;
    var t := w + [91] + u;
    FirstIs(head, t);
    BracketHides(w, u);
    NeverCloses(t);
    NotUntouched(head, t);
    MissingIs(head + [123] + t, |head|, t);
  }

  lemma BracketHides(w: Word, u: Word)
    requires Even(w, 0, true) && 93 !in u
    ensures var t := w + [91] + u; Walk(t, |t|).hidden && Quiet(t, 0, |t|, true)
  {
    hide Even, Find;
    var t, n := w + [91] + u, |w|;
    Alone(t);
    assert t == w + ([91] + u);
    StandsParts(t, 0, w, [91] + u);
    EvenWalk(t, 0, w, 0, true);
    assert t[n] == 91 && t[n + 1..] == u;
    HiddenOn(t, n, |t|);
  }

  lemma {:induction false} HiddenOn(t: Word, k: nat, n: nat)
    requires k < n <= |t| && t[k] == 91 && 93 !in t[k + 1..] && Walk(t, k) == TOP && Quiet(t, 0, k, true)
    ensures Walk(t, n).hidden && Quiet(t, 0, n, true)
    decreases n
  {
    if k + 1 < n {
      HiddenOn(t, k, n - 1);
      assert t[n - 1] == t[k + 1..][n - 1 - (k + 1)];
    }
  }
}
