/** The byte code of a compiled expression, and the backtracking matcher that runs it (bin/ed/ed.c). */
module EdRegexec {
  import opened Basics
  import opened EdPattern

  const CCHR := 2
  const CDOT := 4
  const CCL := 6
  const NCCL := 8
  const CDOL := 10
  const CEOF := 11
  const STAR := 1

  /** The line in the buffer, with the null that ends it. */
  ghost predicate HoldsLine(buf: seq<int>, s: seq<int>) {
    |s| < |buf| && buf[..|s|] == s && buf[|s|] == 0 && IsLine(s)
  }

  lemma LineChar(buf: seq<int>, s: seq<int>, i: nat)
    requires HoldsLine(buf, s) && i <= |s|
    ensures i < |buf| && if i < |s| then buf[i] == s[i] != 0 else buf[i] == 0
  {
    if i < |s| {
      assert buf[i] == buf[..|s|][i] && s[i] in s;
    }
  }

  function StarBit(it: Item): int {
    if it.star then STAR else 0
  }

  /** How many bytes an item takes. */
  function ItemSize(it: Item): nat {
    match it.atom
    case Chr(_) => 2
    case Dot => 1
    case Class(chars, _) => 2 + |chars|
  }

  /** The bytes of an item, at place ep. */
  ghost predicate EncodesItem(code: seq<int>, ep: nat, it: Item) {
    && ep + ItemSize(it) <= |code|
    && match it.atom
       case Chr(c) => code[ep] == CCHR + StarBit(it) && code[ep + 1] == c && c != 0
       case Dot => code[ep] == CDOT + StarBit(it)
       case Class(chars, negated) =>
         && code[ep] == (if negated then NCCL else CCL) + StarBit(it)
         && code[ep + 1] == |chars| + 1 && code[ep + 2..ep + 2 + |chars|] == chars
  }

  ghost predicate EncodesEnd(code: seq<int>, ep: nat, dollar: bool) {
    if dollar then ep + 1 < |code| && code[ep] == CDOL && code[ep + 1] == CEOF
    else ep < |code| && code[ep] == CEOF
  }

  ghost predicate Encodes(code: seq<int>, ep: nat, p: Pattern)
    decreases |p.items|
  {
    if p.items == [] then EncodesEnd(code, ep, p.dollar)
    else EncodesItem(code, ep, p.items[0]) && Encodes(code, ep + ItemSize(p.items[0]), p.(items := p.items[1..]))
  }

  /** What the instruction at ep says about the pattern that is left. */
  lemma OpCode(code: seq<int>, ep: nat, p: Pattern)
    requires Encodes(code, ep, p)
    ensures ep < |code|
    ensures code[ep] == CEOF <==> p.items == [] && !p.dollar
    ensures code[ep] == CDOL <==> p.items == [] && p.dollar
    ensures code[ep] == CDOL ==> Encodes(code, ep + 1, p.(dollar := false))
    ensures p.items != [] ==>
      && EncodesItem(code, ep, p.items[0]) && (code[ep] % 2 == STAR <==> p.items[0].star)
      && Encodes(code, ep + ItemSize(p.items[0]), p.(items := p.items[1..]))
  {
  }

  /** `cclass`: membership in the class whose length byte is at `at`. A null is in no class. */
  method CClass(expbuf: array<int>, at: nat, c: int, af: bool, ghost chars: seq<int>) returns (r: bool)
    requires at + 1 + |chars| <= expbuf.Length && expbuf[at] == |chars| + 1
    requires expbuf[at + 1..at + 1 + |chars|] == chars
    ensures r == (c != 0 && (c in chars) == af)
  {
    if c == 0 {
      return false;
    }
    var n, k := expbuf[at] - 1, at + 1;
    ghost var i := 0;
    while n > 0
      invariant n == |chars| - i && k == at + 1 + i && i <= |chars| && c !in chars[..i]
    {
      assert expbuf[k] == expbuf[at + 1..at + 1 + |chars|][i];
      if expbuf[k] == c {
        assert chars[i] == c;
        return af;
      }
      assert chars[..i + 1] == chars[..i] + [chars[i]];
      n, k, i := n - 1, k + 1, i + 1;
    }
    assert chars[..i] == chars;
    return !af;
  }

  /** Whether the character at lp fits the atom at ep, as the instructions test it. */
  method Test(linebuf: array<int>, expbuf: array<int>, lp: nat, ep: nat, ghost it: Item, ghost s: seq<int>)
    returns (ok: bool)
    requires HoldsLine(linebuf[..], s) && lp <= |s| && EncodesItem(expbuf[..], ep, it)
    ensures ok == (lp < |s| && Fits(it.atom, s[lp]))
  {
    LineChar(linebuf[..], s, lp);
    var op, c := expbuf[ep], linebuf[lp];
    assert op == expbuf[..][ep] && c == linebuf[..][lp];
    if op == CCHR || op == CCHR + STAR {
      assert expbuf[ep + 1] == expbuf[..][ep + 1];
      ok := expbuf[ep + 1] == c;
    } else if op == CDOT || op == CDOT + STAR {
      ok := c != 0;
    } else {
      var af := op == CCL || op == CCL + STAR;
      assert expbuf[ep + 1] == expbuf[..][ep + 1];
      assert expbuf[ep + 2..ep + 2 + |it.atom.chars|] == expbuf[..][ep + 2..ep + 2 + |it.atom.chars|];
      ok := CClass(expbuf, ep + 1, c, af, it.atom.chars);
    }
  }

  /** The place behind the atom at ep. */
  method Skip(expbuf: array<int>, ep: nat, ghost it: Item) returns (next: nat)
    requires EncodesItem(expbuf[..], ep, it)
    ensures next == ep + ItemSize(it)
  {
    var op := expbuf[ep];
    assert op == expbuf[..][ep];
    if op == CCHR || op == CCHR + STAR {
      next := ep + 2;
    } else if op == CDOT || op == CDOT + STAR {
      next := ep + 1;
    } else {
      assert expbuf[ep + 1] == expbuf[..][ep + 1];
      next := ep + 1 + expbuf[ep + 1];
    }
  }

  /** `advance`: runs the code from ep on the line from lp on; in `loc2`, where the match ends. */
  method Advance(linebuf: array<int>, expbuf: array<int>, lp0: nat, ep0: nat, ghost p: Pattern, ghost s: seq<int>)
    returns (ok: bool, loc2: nat)
    requires HoldsLine(linebuf[..], s) && lp0 <= |s| && Encodes(expbuf[..], ep0, p)
    ensures MatchEnd(p, s, lp0) == if ok then Some(loc2) else None
    decreases |p.items|, 1
  {
    hide HoldsLine, Encodes, EncodesItem;
    var lp: nat, ep: nat := lp0, ep0;
    ghost var q := p;
    while true
      invariant lp <= |s| && Encodes(expbuf[..], ep, q) && MatchEnd(q, s, lp) == MatchEnd(p, s, lp0)
      invariant |q.items| <= |p.items|
      decreases |q.items|, q.dollar
    {
      OpCode(expbuf[..], ep, q);
      LineChar(linebuf[..], s, lp);
      if expbuf[ep] == CEOF {
        return true, lp;
      } else if expbuf[ep] == CDOL {
        if linebuf[lp] != 0 {
          return false, 0;
        }
        ep, q := ep + 1, q.(dollar := false);
      } else {
        ghost var it, rest := q.items[0], q.(items := q.items[1..]);
        var next := Skip(expbuf, ep, it);
        if expbuf[ep] % 2 == STAR {
          ok, loc2 := AdvanceStar(linebuf, expbuf, lp, ep, next, it, rest, s);
          return;
        }
        var fits := Test(linebuf, expbuf, lp, ep, it, s);
        if !fits {
          return false, 0;
        }
        lp, ep, q := lp + 1, next, rest;
      }
    }
  }

  /** The starred instructions: the longest run first, then one character less each time. */
  method AdvanceStar(linebuf: array<int>, expbuf: array<int>, curlp: nat, ep: nat, next: nat,
                     ghost it: Item, ghost rest: Pattern, ghost s: seq<int>) returns (ok: bool, loc2: nat)
    requires HoldsLine(linebuf[..], s) && curlp <= |s| && it.star && EncodesItem(expbuf[..], ep, it)
    requires next == ep + ItemSize(it) && Encodes(expbuf[..], next, rest)
    ensures LongestFirst(rest, s, curlp, RunEnd(it.atom, s, curlp)) == if ok then Some(loc2) else None
    decreases |rest.items|, 2
  {
    hide HoldsLine, Encodes, EncodesItem, MatchEnd;
    var lp := curlp;
    var fits := Test(linebuf, expbuf, lp, ep, it, s);
    while fits
      invariant curlp <= lp <= |s| && AllFit(it.atom, s, curlp, lp) && RunEnd(it.atom, s, curlp) == RunEnd(it.atom, s,
        lp)
      invariant fits == (lp < |s| && Fits(it.atom, s[lp]))
      decreases |s| - lp
    {
      lp := lp + 1;
      fits := Test(linebuf, expbuf, lp, ep, it, s);
    }
    ghost var e := lp;
    while true
      invariant curlp <= lp <= e
      invariant LongestFirst(rest, s, curlp, lp) == LongestFirst(rest, s, curlp, e)
      decreases lp
    {
      ok, loc2 := Advance(linebuf, expbuf, lp, next, rest, s);
      if ok || lp == curlp {
        return;
      }
      lp := lp - 1;
    }
  }

  /** The pattern, anchored by a leading circumflex or not, matches a stretch of the line. */
  ghost predicate Occurs(p: Pattern, circ: bool, s: seq<int>) {
    exists i: nat, j: nat :: i <= |s| && (circ ==> i == 0) && Matches(p, s, i, j)
  }

  lemma NoMatchNoOccurrence(p: Pattern, circ: bool, s: seq<int>)
    requires forall i: nat :: i <= |s| && (circ ==> i == 0) ==> MatchEnd(p, s, i).None?
    ensures !Occurs(p, circ, s)
  {
    forall i: nat, j: nat | i <= |s| && (circ ==> i == 0) ensures !Matches(p, s, i, j) {
      MatchEndDecides(p, s, i);
    }
  }

  /** The first-character check is right to pass over places where the character differs. */
  lemma FirstChar(code: seq<int>, p: Pattern, s: seq<int>, i: nat, c: int)
    requires Encodes(code, 0, p) && code[0] == CCHR && code[1] == c && i <= |s|
    requires i == |s| || s[i] != c
    ensures c != 0 && MatchEnd(p, s, i).None?
  {
  }

  /** The two search loops of `execute`: every place from the left, or with the first character checked
      before `advance` is called. */
  method Search(linebuf: array<int>, expbuf: array<int>, ghost p: Pattern, ghost s: seq<int>)
    returns (ok: bool, loc1: nat, loc2: nat)
    requires HoldsLine(linebuf[..], s) && Encodes(expbuf[..], 0, p)
    ensures ok ==> loc1 <= |s| && MatchEnd(p, s, loc1) == Some(loc2)
    ensures forall i: nat :: i <= |s| && (ok ==> i < loc1) ==> MatchEnd(p, s, i).None?
  {
    OpCode(expbuf[..], 0, p);
    var fast, c := expbuf[0] == CCHR, 0;
    if fast {
      c := expbuf[1];
    }
    ok, loc1, loc2 := false, 0, 0;
    while true
      invariant loc1 <= |s| && !ok
      invariant forall i: nat :: i < loc1 ==> MatchEnd(p, s, i).None?
      decreases |s| - loc1
    {
      LineChar(linebuf[..], s, loc1);
      if fast && linebuf[loc1] != c {
        FirstChar(expbuf[..], p, s, loc1, c);
      } else {
        ok, loc2 := Advance(linebuf, expbuf, loc1, 0, p, s);
        if ok {
          return;
        }
      }
      if linebuf[loc1] == 0 {
        return;
      }
      loc1 := loc1 + 1;
    }
  }

  /** `execute(0, addr)`, for the line that `getline` has put into the buffer; line zero never matches. In
      `loc1` the leftmost place where there is a match, in `loc2` the end of the greediest match there. */
  method Execute(atZero: bool, circfl: bool, linebuf: array<int>, expbuf: array<int>,
                 ghost p: Pattern, ghost s: seq<int>) returns (ok: bool, loc1: nat, loc2: nat)
    requires HoldsLine(linebuf[..], s) && Encodes(expbuf[..], 0, p)
    ensures ok <==> !atZero && Occurs(p, circfl, s)
    ensures ok ==>
      loc1 <= |s| && (circfl ==> loc1 == 0) && Matches(p, s, loc1, loc2) && MatchEnd(p, s, loc1) == Some(loc2)
    ensures ok ==> forall i: nat, j: nat :: i < loc1 ==> !Matches(p, s, i, j)
  {
    ok, loc1, loc2 := false, 0, 0;
    if atZero {
      return;
    }
    if circfl {
      ok, loc2 := Advance(linebuf, expbuf, 0, 0, p, s);
    } else {
      ok, loc1, loc2 := Search(linebuf, expbuf, p, s);
    }
    if ok {
      MatchEndSound(p, s, loc1);
      forall i: nat, j: nat | i < loc1 ensures !Matches(p, s, i, j) {
        MatchEndDecides(p, s, i);
      }
    } else {
      NoMatchNoOccurrence(p, circfl, s);
    }
  }
}
