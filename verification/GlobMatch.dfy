/** The pattern matcher of csh (bin/csh/glob.c): `Gmatch` expands the braces of a pattern and hands each word to
    `pmatch`, which at a star calls `Gmatch` for the rest. Strings and patterns are walked through by place; the
    null at the end is the place behind the last character. */
module GlobMatch {
  import opened Basics
  import opened BraceSpec
  import opened GlobBrace
  import opened GlobPattern

  /** Where the loop over a class is: what is left to be looked at, and the character in front of that. */
  ghost predicate Looking(before: int, content: Word, open: bool, c: int, found: bool, prev: int, todo: Word) {
    if found then if open then !CutRange(before, content, c) else InClass(before, content, c)
    else if open then CutRange(before, content, c) == CutRange(prev, todo, c)
    else InClass(before, content, c) == InClass(prev, todo, c)
  }

  /** One turn of the loop. */
  lemma Look(before: int, content: Word, open: bool, c: int, found: bool, prev: int, todo: Word)
    requires todo != [] && Looking(before, content, open, c, found, prev, todo)
    ensures found ==> Looking(before, content, open, c, true, todo[0], todo[1..])
    ensures !found ==>
      if todo[0] == MINUS && prev != LBRK && |todo| > 1 then
        Looking(before, content, open, c, Trim(prev) <= c <= Trim(todo[1]), todo[1], todo[2..])
      else if todo[0] == MINUS && prev != LBRK && open then CutRange(before, content, c)
      else Looking(before, content, open, c, c == Trim(todo[0]), todo[0], todo[1..])
  {
  }

  /** The loop over the content of a class, from the place `first` on: whether the character is found, or a range
      without an end is come to before; and the place of the closing bracket, or the end of the word. */
  method Search(p: Word, first: nat, stringc: int, ghost content: Word, ghost open: bool)
    returns (found: bool, cut: bool, pattern: nat)
    requires 0 < first <= |p| && first + |content| <= |p| && content == p[first..first + |content|]
    requires RBRK !in content && if open then first + |content| == |p|
      else first + |content| < |p| && p[first + |content|] == RBRK
    ensures cut ==> open && CutRange(p[first - 1], content, stringc)
    ensures !cut ==> pattern == first + |content|
    ensures !cut ==> if open then !CutRange(p[first - 1], content, stringc)
      else found == InClass(p[first - 1], content, stringc)
  {
    ghost var before, end := p[first - 1], first + |content|;
    hide InClass, CutRange, Looking;
    pattern, found, cut := first, false, false;
    LookedAll(before, content, open, stringc);
    assert forall i {:trigger p[i]} :: first <= i < end ==> p[i] == content[i - first] != RBRK;
    while pattern < |p| && p[pattern] != RBRK
      invariant first <= pattern <= end
      invariant Looking(before, content, open, stringc, found, p[pattern - 1], p[pattern..end])
    {
      ghost var todo := p[pattern..end];
      Look(before, content, open, stringc, found, p[pattern - 1], todo);
      assert todo[0] == p[pattern] && todo[1..] == p[pattern + 1..end];
      assert |todo| > 1 ==> todo[1] == p[pattern + 1] && todo[2..] == p[pattern + 2..end];
      var rangec := p[pattern];
      pattern := pattern + 1;
      if !found {
        if rangec == MINUS && p[pattern - 2] != LBRK && !(pattern < |p| && p[pattern] == RBRK) {
          if pattern == |p| {
            cut := true;
            return;
          }
          found := stringc <= Trim(p[pattern]) && Trim(p[pattern - 2]) <= stringc;
          pattern := pattern + 1;
        } else {
          found := stringc == Trim(rangec);
        }
      }
    }
    assert p[pattern..end] == [];
    Looked(before, content, open, stringc, found, p[pattern - 1]);
  }

  /** At the beginning of the loop. */
  lemma LookedAll(before: int, content: Word, open: bool, c: int)
    ensures Looking(before, content, open, c, false, before, content)
  {
  }

  /** At its end. */
  lemma Looked(before: int, content: Word, open: bool, c: int, found: bool, prev: int)
    requires Looking(before, content, open, c, found, prev, [])
    ensures if open then !CutRange(before, content, c) else found == InClass(before, content, c)
  {
  }

  /** What a class, which the pattern begins with, says of a character. */
  function OfClass(g: Glob, c: int): (v: Verdict)
    requires g.One? || g.Open?
    ensures v == Yes ==> g.One?
  {
    if g.Open? then if CutRange(g.before, g.content, c) then Beyond else Lacks(RBRK)
    else if Accepts(g.atom, c) then Yes else No
  }

  /** A character is compared with a class, from the place behind its bracket on: whether it is accepted, and the
      place behind the class. */
  method MatchClass(p: Word, start: nat, stringc: int) returns (v: Verdict, pattern: nat)
    requires 0 < start <= |p| && p[start - 1] == LBRK
    ensures v == OfClass(ReadClass(p[start..]), stringc)
    ensures v == Yes ==> pattern <= |p| && Read(p[pattern..]) == ReadClass(p[start..]).rest
    ensures v == Yes ==> start < pattern
  {
    hide InClass, CutRange, Read;
    pattern := start;
    var negated := start < |p| && p[start] == CARET;
    if negated {
      pattern := pattern + 1;
      assert p[start..][1..] == p[pattern..];
    }
    var first := pattern;
    ghost var d := p[first..];
    ghost var e := Bracket(d);
    assert d[..e] == p[first..first + e] && (e == |d| ==> d[..e] == d);
    assert e < |d| ==> d[e + 1..] == p[first + e + 1..];
    var found, cut;
    found, cut, pattern := Search(p, first, stringc, d[..e], e == |d|);
    if cut {
      return Beyond, pattern;
    }
    if pattern == |p| {
      return Lacks(RBRK), pattern;
    }
    pattern := pattern + 1;
    v := if found == negated then No else Yes;
  }

  /** `pmatch`, for a word whose braces have been expanded. */
  method Pmatch(whole: Word, p: Word) returns (v: Verdict)
    requires Untouched(p)
    ensures v == Decide(Read(p), whole)
    decreases 0, |p|, 1
  {
    var str, pattern := whole, 0;
    while true
      invariant pattern <= |p| && Decide(Read(p), whole) == Decide(Read(p[pattern..]), str)
      decreases |p| - pattern
    {
      var stringc := Head(str);
      if pattern == |p| {
        return if stringc == 0 then Yes else No;
      }
      var patternc := p[pattern];
      pattern := pattern + 1;
      if patternc == QUES {
        if stringc == 0 {
          return No;
        }
      } else if patternc == STAR {
        v := MatchRest(str, p, pattern);
        return;
      } else if patternc == LBRK {
        v, pattern := MatchClass(p, pattern, stringc);
        if v != Yes {
          return;
        }
      } else if Trim(patternc) != stringc {
        return No;
      }
      if str == [] {
        return Beyond;
      }
      str := str[1..];
    }
  }

  /** The case of a star: the rest of the pattern is tried on what is left of the str, as long as something
      is left. */
  method MatchRest(whole: Word, p: Word, pattern: nat) returns (v: Verdict)
    requires Untouched(p) && 0 < pattern <= |p| && p[pattern - 1] == STAR
    ensures v == Decide(Read(p[pattern - 1..]), whole)
    decreases 0, |p|, 0
  {
    if pattern == |p| {
      return Yes;
    }
    var q := p[pattern..];
    ghost var g := Read(p[pattern - 1..]);
    assert p[pattern - 1..] == [STAR] + q;
    RestJudged(whole, q);
    var str := whole;
    while str != []
      invariant Decide(g, whole) == FirstOf(g.negated, g.rest, str)
      decreases |str|
    {
      RestJudged(str, q);
      v := Gmatch(str, q);
      if v != No {
        return;
      }
      str := str[1..];
    }
    v := No;
  }

  /** What `Gmatch` says of the rest of a pattern behind a star. */
  lemma RestJudged(s: Word, q: Word)
    requires LBRC !in q && q != []
    ensures var g := Read([STAR] + q); g.Star? && (g.rest != End || g.negated)
    ensures var g := Read([STAR] + q); Judge(s, q) == Flip(Decide(g.rest, s), g.negated)
  {
    var b := Body(q);
    ReadSome(q);
    assert ([STAR] + q)[1..] == q && ([STAR] + q)[2..] == q[1..];
    assert Expand(b) == Ok([b]);
    assert AnyOf([b][1..], s) == No;
  }

  /** `Gmatch`. */
  method Gmatch(str: Word, pattern: Word) returns (v: Verdict)
    ensures v == Judge(str, pattern)
    decreases if LBRC in pattern then 1 else 0, |pattern|, 2
  {
    hide Read, Decide, Expand, Braces;
    var gpol, gres, body := true, false, pattern;
    if pattern != [] && pattern[0] == CARET {
      gpol, body := false, pattern[1..];
    }
    var blk := new Ptr[GLOBSPACE](_ => Null);
    blk[0] := Str(body);
    var missing, nv, el := Expbrace(blk, false, 0, [body]);
    ExpandOne(body);
    if missing != 0 {
      return Lacks(missing);
    }
    ghost var ws := Expand(body).value;
    ExpandedStay(body);
    assert Vector(nv[..], ws) && ws[0..] == ws;
    var p := 0;
    while nv[p] != Null
      invariant Vector(nv[..], ws) && p <= |ws| && AnyOf(ws, str) == After(gres, AnyOf(ws[p..], str))
      decreases |ws| - p
    {
      assert nv[..][p] == nv[p] && ws[p..][1..] == ws[p + 1..];
      var m := Pmatch(str, nv[p].s);
      if m != Yes && m != No {
        return m;
      }
      gres := gres || m == Yes;
      p := p + 1;
    }
    return if gres == gpol then Yes else No;
  }

  function After(gres: bool, v: Verdict): Verdict {
    if v == No && gres then Yes else v
  }

  lemma ExpandOne(s: Word)
    ensures ExpandAll([s]) == Expand(s)
    ensures LBRC !in s ==> Expand(s) == Ok([s])
  {
    assert [s][1..] == [];
    ThenThen(Expand(s), Ok([]), Ok([]));
  }
}
