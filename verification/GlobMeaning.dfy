/** What csh's file name patterns mean usually, and when the matcher goes by that (bin/csh/glob.c). */
module GlobMeaning {
  import opened Basics
  import opened BraceSpec
  import opened GlobPattern

  /** The usual reading: a circumflex behind a star is a character like others. */
  function Plain(g: Glob): Glob {
    match g
    case End => End
    case Open(_, _) => g
    case One(a, rest) => One(a, Plain(rest))
    case Star(negated, rest) => Star(false, if negated then One(Lit(CARET), Plain(rest)) else Plain(rest))
  }

  /** How a word reads in that way. */
  function ReadPlain(p: Word): Glob
    decreases |p|
  {
    if p == [] then End
    else if p[0] == QUES then One(Any, ReadPlain(p[1..]))
    else if p[0] == STAR then Star(false, ReadPlain(p[1..]))
    else if p[0] != LBRK then One(Lit(p[0]), ReadPlain(p[1..]))
    else
      var g := ReadClass(p[1..]);
      var negated := |p| > 1 && p[1] == CARET;
      var d := if negated then p[2..] else p[1..];
      if g.Open? then g else One(g.atom, ReadPlain(d[Bracket(d) + 1..]))
  }

  lemma {:induction false} PlainRead(p: Word)
    ensures ReadPlain(p) == Plain(Read(p))
    decreases |p|
  {
    if p != [] {
      if p[0] == STAR && |p| > 1 && p[1] == CARET {
        assert p[1..][1..] == p[2..];
        PlainRead(p[2..]);
      } else if p[0] == LBRK {
        PlainReadClass(p);
      } else {
        PlainRead(p[1..]);
      }
    }
  }

  lemma PlainReadClass(p: Word)
    requires p != [] && p[0] == LBRK
    ensures ReadPlain(p) == Plain(Read(p))
    decreases |p|, 0
  {
    var q := p[1..];
    var negated := q != [] && q[0] == CARET;
    var d := if negated then q[1..] else q;
    assert negated ==> q[1..] == p[2..];
    var g := ReadClass(q);
    assert Read(p) == g;
    hide Read, ReadPlain;
    if g.One? {
      PlainRead(d[Bracket(d) + 1..]);
    }
  }

  lemma {:induction false} PlainSame(g: Glob)
    requires NoCaret(g)
    ensures Plain(g) == g
  {
    match g
    case End =>
    case Open(_, _) =>
    case One(_, rest) => PlainSame(rest);
    case Star(_, rest) => PlainSame(rest);
  }

  /** The usual meaning of a pattern: a star stands for any characters, or none. */
  ghost predicate Matches(g: Glob, s: Word)
    decreases g
  {
    match g
    case End => s == []
    case Open(_, _) => false
    case One(a, rest) => s != [] && Accepts(a, Head(s)) && Matches(rest, s[1..])
    case Star(_, rest) => exists k {:trigger s[k..]} :: 0 <= k <= |s| && Matches(rest, s[k..])
  }

  predicate Stars(g: Glob) {
    g.Star? && (g.rest == End || Stars(g.rest))
  }

  predicate EndsInStars(g: Glob) {
    match g
    case End => false
    case Open(_, _) => false
    case One(_, rest) => EndsInStars(rest)
    case Star(_, rest) => Stars(rest) || EndsInStars(rest)
  }

  /** Stars match everything. */
  lemma {:induction false} StarsMatch(g: Glob, s: Word)
    requires Stars(g)
    ensures Matches(g, s)
  {
    if g.rest == End {
      assert s[|s|..] == [];
    } else {
      StarsMatch(g.rest, s);
      assert s[0..] == s;
    }
  }

  /** Whatever is not just stars needs a character. */
  lemma {:induction false} NotEmpty(g: Glob)
    requires !Stars(g) && g != End
    ensures !Matches(g, [])
  {
    if g.Star? {
      NotEmpty(g.rest);
      var e: Word := [];
      assert e[0..] == e;
    }
  }

  /** What the matcher takes for a match is one. */
  lemma {:induction false} MeansMatches(g: Glob, s: Word)
    requires NoCaret(g) && Clean(s) && Means(g, s)
    ensures Matches(g, s)
  {
    match g
    case End =>
    case One(_, rest) => MeansMatches(rest, s[1..]);
    case Star(_, rest) =>
      if rest == End {
        StarsMatch(g, s);
      } else {
        var k :| 0 <= k < |s| && Means(rest, s[k..]);
        MeansMatches(rest, s[k..]);
      }
  }

  /** It takes every match, unless the pattern ends in two stars. */
  lemma {:induction false} MatchesMeans(g: Glob, s: Word)
    requires NoCaret(g) && Clean(s) && !EndsInStars(g) && Matches(g, s)
    ensures Means(g, s)
  {
    match g
    case End =>
    case One(_, rest) => MatchesMeans(rest, s[1..]);
    case Star(_, rest) =>
      if rest != End {
        var k :| 0 <= k <= |s| && Matches(rest, s[k..]);
        if k == |s| {
          NotEmpty(rest);
        }
        MatchesMeans(rest, s[k..]);
      }
  }

  /** With two stars at the end, there has to be a character that the pattern could do without. */
  lemma {:induction false} OneTooMany(g: Glob, s: Word)
    requires NoCaret(g) && Clean(s) && EndsInStars(g) && Means(g, s)
    ensures s != [] && Matches(g, s[..|s| - 1])
  {
    var n := |s| - 1;
    match g
    case One(_, rest) =>
      OneTooMany(rest, s[1..]);
      assert s[1..][..n - 1] == s[..n][1..];
    case Star(_, rest) =>
      var k :| 0 <= k < |s| && Means(rest, s[k..]);
      if Stars(rest) {
        StarsMatch(g, s[..n]);
      } else {
        OneTooMany(rest, s[k..]);
        assert s[k..][..n - k] == s[..n][k..];
      }
  }

  /** So there is a string that is a match, but is not taken for one. */
  lemma {:induction false} MissedMatch(g: Glob, s: Word) returns (r: Word)
    requires NoCaret(g) && Clean(s) && EndsInStars(g) && Matches(g, s)
    ensures Clean(r) && Matches(g, r) && !Means(g, r)
    decreases |s|
  {
    if Means(g, s) {
      OneTooMany(g, s);
      r := MissedMatch(g, s[..|s| - 1]);
    } else {
      r := s;
    }
  }

  /** Some string is a match in the usual way. */
  predicate CanMatch(g: Glob) {
    match g
    case End => true
    case Open(_, _) => false
    case One(a, rest) => Takes(a) && CanMatch(rest)
    case Star(_, rest) => CanMatch(rest)
  }

  /** No quotation bits. */
  ghost predicate Bare(s: Word) {
    forall i :: 0 <= i < |s| ==> 0 < s[i] < 0x8000
  }

  lemma {:induction false} MatchingString(g: Glob) returns (s: Word)
    requires CanMatch(g)
    ensures Bare(s) && Clean(s) && Matches(Plain(g), s)
  {
    match g
    case End => s := [];
    case One(a, rest) =>
      var c :| 0 < c < 0x8000 && Accepts(a, c);
      var t := MatchingString(rest);
      s := [c] + t;
      assert s[1..] == t;
    case Star(negated, rest) =>
      s := MatchingString(rest);
      if negated {
        var t := s;
        s := [CARET] + t;
        assert s[1..] == t;
      }
      assert s[0..] == s;
  }

  lemma {:induction false} OnlyCanMatch(g: Glob, s: Word)
    requires Clean(s) && Matches(Plain(g), s)
    ensures CanMatch(g)
  {
    match g
    case End =>
    case One(a, rest) =>
      assert Accepts(a, Head(s));
      OnlyCanMatch(rest, s[1..]);
    case Star(negated, rest) =>
      var k :| 0 <= k <= |s| && Matches(Plain(g).rest, s[k..]);
      OnlyCanMatch(rest, if negated then s[k..][1..] else s[k..]);
  }

  /** The part in front of the first star that a circumflex is behind asks for so many characters. */
  function Ones(g: Glob): nat
    requires !NoCaret(g)
  {
    match g
    case One(_, rest) => 1 + Ones(rest)
    case Star(negated, rest) => if negated then 0 else Ones(rest)
  }

  /** The pattern from that star on. */
  function Tail(g: Glob): (t: Glob)
    requires !NoCaret(g)
    ensures t.Star? && t.negated
  {
    match g
    case One(_, rest) => Tail(rest)
    case Star(negated, rest) => if negated then g else Tail(rest)
  }

  /** What a star accepts, it accepts with anything in front. */
  lemma Further(t: Glob, x: Word, y: Word)
    requires t.Star? && t.negated
    ensures Means(t, y) ==> Means(t, x + y)
    ensures Matches(Plain(t), y) ==> Matches(Plain(t), x + y)
  {
    assert forall k :: 0 <= k <= |y| ==> y[k..] == (x + y)[|x| + k..];
    if Means(t, y) {
      var k :| 0 <= k < |y| && Means(t.rest, y[k..]) != t.negated;
      assert y[k..] == (x + y)[|x| + k..];
    }
    if Matches(Plain(t), y) {
      var k :| 0 <= k <= |y| && Matches(Plain(t).rest, y[k..]);
      assert y[k..] == (x + y)[|x| + k..];
    }
  }

  lemma Shifted(t: Glob, s: Word, k: nat, n: nat)
    requires t.Star? && t.negated && k + n <= |s|
    ensures Means(t, s[k..][n..]) ==> Means(t, s[n..])
    ensures Matches(Plain(t), s[k..][n..]) ==> Matches(Plain(t), s[n..])
  {
    assert s[n..] == s[n..k + n] + s[k..][n..];
    Further(t, s[n..k + n], s[k..][n..]);
  }

  /** In both ways, the characters in front are asked for, and what is behind them is for the star. */
  lemma {:induction false} MeansTail(g: Glob, s: Word)
    requires !NoCaret(g) && Means(g, s)
    ensures |s| >= Ones(g) && Means(Tail(g), s[Ones(g)..])
  {
    match g
    case One(_, rest) =>
      MeansTail(rest, s[1..]);
      assert s[1..][Ones(rest)..] == s[Ones(g)..];
    case Star(negated, rest) =>
      if !negated {
        var k :| 0 <= k < |s| && Means(rest, s[k..]);
        MeansTail(rest, s[k..]);
        Shifted(Tail(g), s, k, Ones(g));
      } else {
        assert s[0..] == s;
      }
  }

  lemma {:induction false} MatchesTail(g: Glob, s: Word)
    requires !NoCaret(g) && Matches(Plain(g), s)
    ensures |s| >= Ones(g) && Matches(Plain(Tail(g)), s[Ones(g)..])
  {
    match g
    case One(_, rest) =>
      MatchesTail(rest, s[1..]);
      assert s[1..][Ones(rest)..] == s[Ones(g)..];
    case Star(negated, rest) =>
      if !negated {
        var k :| 0 <= k <= |s| && Matches(Plain(rest), s[k..]);
        MatchesTail(rest, s[k..]);
        Shifted(Tail(g), s, k, Ones(g));
      } else {
        assert s[0..] == s;
      }
  }

  /** Characters for the part in front. */
  predicate Fronts(g: Glob, u: Word)
    requires !NoCaret(g)
    decreases g
  {
    match g
    case One(a, rest) => u != [] && Accepts(a, Head(u)) && Fronts(rest, u[1..])
    case Star(negated, rest) => if negated then u == [] else Fronts(rest, u)
  }

  lemma {:induction false} FrontString(g: Glob) returns (u: Word)
    requires !NoCaret(g) && CanMatch(g)
    ensures Clean(u) && Fronts(g, u)
  {
    match g
    case One(a, rest) =>
      var c :| 0 < c < 0x8000 && Accepts(a, c);
      var t := FrontString(rest);
      u := [c] + t;
      assert u[1..] == t;
    case Star(negated, rest) =>
      u := [];
      if !negated {
        u := FrontString(rest);
      }
  }

  lemma {:induction false} FrontLength(g: Glob, u: Word)
    requires !NoCaret(g) && Fronts(g, u)
    ensures |u| == Ones(g)
  {
    match g
    case One(_, rest) => FrontLength(rest, u[1..]);
    case Star(negated, rest) =>
      if !negated {
        FrontLength(rest, u);
      }
  }

  lemma {:induction false} Behind(g: Glob, u: Word, t: Word)
    requires !NoCaret(g) && Fronts(g, u)
    ensures Means(Tail(g), t) ==> Means(g, u + t)
    ensures Matches(Plain(Tail(g)), t) ==> Matches(Plain(g), u + t)
  {
    match g
    case One(_, rest) =>
      Behind(rest, u[1..], t);
      assert (u + t)[1..] == u[1..] + t;
    case Star(negated, rest) =>
      if negated {
        assert u + t == t;
      } else {
        Behind(rest, u, t);
        assert (u + t)[0..] == u + t;
      }
  }

  /** Behind characters for the part in front, only the rest of the pattern matters. */
  lemma Through(g: Glob, u: Word, t: Word)
    requires !NoCaret(g) && Fronts(g, u)
    ensures Means(g, u + t) == Means(Tail(g), t)
    ensures Matches(Plain(g), u + t) == Matches(Plain(Tail(g)), t)
  {
    FrontLength(g, u);
    Behind(g, u, t);
    assert (u + t)[|u|..] == t;
    if Means(g, u + t) {
      MeansTail(g, u + t);
    }
    if Matches(Plain(g), u + t) {
      MatchesTail(g, u + t);
    }
  }

  /** What the two readings of a circumflex behind a star say of a string. */
  lemma StarCaret(r: Glob, s: Word)
    ensures Means(Star(true, r), s) <==> exists k {:trigger s[k..]} :: 0 <= k < |s| && !Means(r, s[k..])
    ensures Matches(Plain(Star(true, r)), s) <==>
            exists k {:trigger s[k]} :: 0 <= k < |s| && Trim(s[k]) == CARET && Matches(Plain(r), s[k + 1..])
  {
    StarCaretPlain(r, s);
  }

  lemma StarCaretPlain(r: Glob, s: Word)
    ensures Matches(Plain(Star(true, r)), s) <==>
            exists k {:trigger s[k]} :: 0 <= k < |s| && Trim(s[k]) == CARET && Matches(Plain(r), s[k + 1..])
  {
    var one := One(Lit(CARET), Plain(r));
    assert Matches(Star(false, one), s) <==> exists k {:trigger s[k..]} :: 0 <= k <= |s| && Matches(one, s[k..]);
    forall k: nat | k <= |s|
      ensures Matches(one, s[k..]) <==> k < |s| && Trim(s[k]) == CARET && Matches(Plain(r), s[k + 1..])
    {
      CaretAhead(Plain(r), s, k);
    }
    assert Plain(Star(true, r)) == Star(false, one);
  }

  lemma CaretAhead(g: Glob, s: Word, k: nat)
    requires k <= |s|
    ensures Matches(One(Lit(CARET), g), s[k..]) <==> k < |s| && Trim(s[k]) == CARET && Matches(g, s[k + 1..])
  {
    if k < |s| {
      assert s[k..][1..] == s[k + 1..];
    }
  }

  lemma StarCaretOne(r: Glob, c: int)
    ensures Means(Star(true, r), [c]) == !Means(r, [c])
    ensures Matches(Plain(Star(true, r)), [c]) == (Trim(c) == CARET && Matches(Plain(r), []))
  {
    var s: Word := [c];
    StarCaret(r, s);
    assert s[0..] == s && s[1..] == [];
  }

  lemma StarCaretTwo(r: Glob, c: int, d: int)
    ensures Means(Star(true, r), [c, d]) == !(Means(r, [c, d]) && Means(r, [d]))
    ensures Trim(c) != CARET && Trim(d) != CARET ==> !Matches(Plain(Star(true, r)), [c, d])
    ensures Trim(c) == CARET && Matches(Plain(r), [d]) ==> Matches(Plain(Star(true, r)), [c, d])
  {
    var s: Word := [c, d];
    StarCaret(r, s);
    assert s[0..] == s && s[1..] == [d];
  }

  lemma {:induction false} StarsMean(g: Glob, s: Word)
    requires NoCaret(g) && Stars(g) && s != []
    ensures Means(g, s)
  {
    assert s[0..] == s;
    if g.rest != End {
      StarsMean(g.rest, s);
    }
  }

  lemma {:induction false} PlainStars(g: Glob)
    ensures Stars(Plain(g)) ==> NoCaret(g) && Stars(g)
  {
    if g.Star? {
      if g.negated {
        var one := One(Lit(CARET), Plain(g.rest));
        assert !Stars(one) && !Stars(Star(false, one));
      } else if g.rest != End {
        PlainStars(g.rest);
      }
    }
  }

  lemma {:induction false} CaretNotEmpty(g: Glob)
    requires !NoCaret(g)
    ensures !Means(g, [])
  {
  }

  /** Once the last character is accepted by itself, so is everything that ends in it. */
  lemma TakesLast(g: Glob, s: Word)
    requires !NoCaret(g) && s != [] && Means(g, s[|s| - 1..])
    ensures Means(g, s)
  {
    var n := |s| - 1;
    var last := s[n..];
    assert last[0..] == last && last[1..] == [];
    if g.One? {
      CaretNotEmpty(g.rest);
    }
  }

  /** If every single character is accepted, and aa, then so is ^a. */
  lemma CaretInFront(r: Glob)
    requires NoCaret(r) && r != End && !Stars(r) && Means(r, [97]) && Means(r, [CARET]) && Means(r, [97, 97])
    ensures Means(r, [CARET, 97])
  {
    var s, aa: Word := [CARET, 97], [97, 97];
    assert s[1..] == [97] == aa[1..] && [97][0..] == [97];
    if r.Star? {
      assert Means(r.rest, [97]);
      assert Means(r.rest, s[1..]);
    } else {
      assert Head([97]) == 97 && Head([CARET]) == CARET;
    }
  }

  /** Where the two meanings of a star and a circumflex differ, if the rest can be matched. */
  lemma TailDiffers(r: Glob) returns (t: Word)
    requires CanMatch(r)
    ensures Clean(t) && Means(Star(true, r), t) != Matches(Plain(Star(true, r)), t)
  {
    hide Means, Matches, Plain;
    if r == End || (NoCaret(r) && Stars(r)) {
      t := StarsDiffer(r);
    } else if c :| 0 < c < 0x8000 && !Means(r, [c]) {
      NeedsOne(r);
      StarCaretOne(r, c);
      t := [c];
    } else if NoCaret(r) {
      t := TwoDiffer(r);
    } else {
      t := NoneNegated(r);
    }
  }

  lemma NeedsOne(r: Glob)
    requires r != End && !(NoCaret(r) && Stars(r))
    ensures !Matches(Plain(r), [])
  {
    PlainStars(r);
    NotEmpty(Plain(r));
  }

  lemma StarsDiffer(r: Glob) returns (t: Word)
    requires r == End || (NoCaret(r) && Stars(r))
    ensures Clean(t) && Means(Star(true, r), t) != Matches(Plain(Star(true, r)), t)
  {
    if r == End {
      t := [97];
      StarCaretOne(r, 97);
    } else {
      t := [CARET];
      StarCaretOne(r, CARET);
      StarsMean(r, t);
      PlainSame(r);
      StarsMatch(r, []);
    }
  }

  lemma TwoDiffer(r: Glob) returns (t: Word)
    requires NoCaret(r) && r != End && !Stars(r) && forall c :: 0 < c < 0x8000 ==> Means(r, [c])
    ensures Clean(t) && Means(Star(true, r), t) != Matches(Plain(Star(true, r)), t)
  {
    hide Means, Matches, Plain;
    assert Means(r, [97]) && Means(r, [CARET]);
    StarCaretTwo(r, 97, 97);
    StarCaretTwo(r, CARET, 97);
    if Means(r, [97, 97]) {
      CaretInFront(r);
      PlainSame(r);
      MeansMatches(r, [97]);
      t := [CARET, 97];
    } else {
      t := [97, 97];
    }
  }

  lemma NoneNegated(r: Glob) returns (t: Word)
    requires !NoCaret(r) && CanMatch(r) && forall c :: 0 < c < 0x8000 ==> Means(r, [c])
    ensures Clean(t) && Means(Star(true, r), t) != Matches(Plain(Star(true, r)), t)
  {
    hide Means, Matches, Plain;
    var w := MatchingString(r);
    t := [CARET] + w;
    StarCaret(r, t);
    assert Trim(t[0]) == CARET && t[0..] == t && t[1..] == w;
    forall k: nat | k < |t|
      ensures Means(r, t[k..])
    {
      var s := t[k..];
      var c := t[|t| - 1];
      assert s[|s| - 1..] == [c] && 0 < c < 0x8000;
      TakesLast(r, s);
    }
  }

  /** With a circumflex behind a star, a pattern that can be matched in the usual way has another meaning. */
  lemma CaretDiffers(g: Glob) returns (s: Word)
    requires !NoCaret(g) && CanMatch(g)
    ensures Clean(s) && Means(g, s) != Matches(Plain(g), s)
  {
    hide Means, Matches, Plain;
    var u := FrontString(g);
    TailCanMatch(g);
    var t := TailDiffers(Tail(g).rest);
    assert Tail(g) == Star(true, Tail(g).rest);
    Through(g, u, t);
    s := u + t;
  }

  lemma {:induction false} TailCanMatch(g: Glob)
    requires !NoCaret(g) && CanMatch(g)
    ensures CanMatch(Tail(g).rest)
  {
    match g
    case One(_, rest) => TailCanMatch(rest);
    case Star(negated, rest) =>
      if !negated {
        TailCanMatch(rest);
      }
  }

  /** The empty string is accepted. */
  predicate TakesNone(g: Glob) {
    g == End || g == Star(false, End)
  }

  /** A string of that one character is accepted. */
  predicate TakesOne(g: Glob, c: int) {
    match g
    case End => false
    case Open(_, _) => false
    case One(a, rest) => Accepts(a, c) && TakesNone(rest)
    case Star(negated, rest) => (rest == End && !negated) || TakesOne(rest, c) != negated
  }

  /** Every string but the empty one is accepted. */
  predicate TakesAll(g: Glob) {
    match g
    case End => false
    case Open(_, _) => false
    case One(a, rest) => rest == Star(false, End) && forall c :: 0 < c < 0x8000 ==> Accepts(a, c)
    case Star(negated, rest) =>
      (rest == End && !negated) || forall c :: 0 < c < 0x8000 ==> TakesOne(rest, c) != negated
  }

  /** Some string is accepted; some string that is not empty, if that is asked for. */
  predicate CanTake(g: Glob, some: bool) {
    match g
    case End => !some
    case Open(_, _) => false
    case One(a, rest) => Takes(a) && CanTake(rest, false)
    case Star(negated, rest) => if negated then !TakesAll(rest) else rest == End || CanTake(rest, true)
  }

  lemma {:induction false} MeansOne(g: Glob, s: Word)
    requires |s| == 1 && Clean(s)
    ensures Means(g, s) == TakesOne(g, Head(s))
    ensures Means(g, []) == TakesNone(g)
  {
    assert s[0..] == s && s[1..] == [];
    match g
    case End =>
    case Open(_, _) =>
    case One(_, rest) => MeansOne(rest, s);
    case Star(_, rest) => MeansOne(rest, s);
  }

  lemma {:induction false} MeansAll(g: Glob, s: Word)
    requires TakesAll(g) && Clean(s) && s != []
    ensures Means(g, s)
  {
    var last := s[|s| - 1..];
    if g.Star? {
      MeansOne(g.rest, last);
    } else {
      assert Accepts(g.atom, Head(s));
    }
  }

  lemma LeavesOut(g: Glob) returns (s: Word)
    requires !TakesAll(g)
    ensures Clean(s) && s != [] && !Means(g, s)
  {
    s := [97];
    match g
    case End =>
    case Open(_, _) =>
    case One(a, rest) =>
      if c :| 0 < c < 0x8000 && !Accepts(a, c) {
        s := [c];
      } else if rest == End {
        s := [97, 97];
      } else {
        MeansOne(rest, s);
      }
    case Star(negated, rest) =>
      var c :| 0 < c < 0x8000 && TakesOne(rest, c) == negated;
      s := [c];
      MeansOne(g, s);
  }

  lemma {:induction false} TakenString(g: Glob, some: bool) returns (s: Word)
    requires CanTake(g, some)
    ensures Clean(s) && (some ==> s != []) && Means(g, s)
  {
    match g
    case End => s := [];
    case One(a, rest) =>
      var c :| 0 < c < 0x8000 && Accepts(a, c);
      var t := TakenString(rest, false);
      s := [c] + t;
      assert s[1..] == t;
    case Star(negated, rest) =>
      if negated {
        s := LeavesOut(rest);
      } else if rest == End {
        s := [97];
      } else {
        s := TakenString(rest, true);
      }
      assert s[0..] == s;
  }

  lemma {:induction false} OnlyCanTake(g: Glob, s: Word, some: bool)
    requires Means(g, s) && Clean(s) && (some ==> s != [])
    ensures CanTake(g, some)
  {
    match g
    case End =>
    case One(a, rest) =>
      assert Accepts(a, Head(s));
      OnlyCanTake(rest, s[1..], false);
    case Star(negated, rest) =>
      if rest != End || negated {
        var k :| 0 <= k < |s| && Means(rest, s[k..]) != negated;
        if negated && TakesAll(rest) {
          MeansAll(rest, s[k..]);
        } else if !negated {
          OnlyCanTake(rest, s[k..], true);
        }
      }
  }

  /** A pattern means what it does usually exactly if it has no circumflex behind a star, and does not end in two
      stars; or matches nothing either way. */
  predicate MeansUsual(g: Glob) {
    (NoCaret(g) && !EndsInStars(g)) || (!CanMatch(g) && !CanTake(g, false))
  }

  lemma UsualMeaning(g: Glob, s: Word)
    requires MeansUsual(g) && Clean(s)
    ensures Means(g, s) == Matches(Plain(g), s)
  {
    if NoCaret(g) && !EndsInStars(g) {
      PlainSame(g);
      if Means(g, s) {
        MeansMatches(g, s);
      } else if Matches(g, s) {
        MatchesMeans(g, s);
      }
    } else if Means(g, s) {
      OnlyCanTake(g, s, false);
    } else if Matches(Plain(g), s) {
      OnlyCanMatch(g, s);
    }
  }

  lemma UnusualMeaning(g: Glob) returns (s: Word)
    requires !MeansUsual(g)
    ensures Clean(s) && Means(g, s) != Matches(Plain(g), s)
  {
    if !CanMatch(g) {
      s := TakenString(g, false);
      if Matches(Plain(g), s) {
        OnlyCanMatch(g, s);
      }
    } else if NoCaret(g) {
      PlainSame(g);
      s := MatchingString(g);
      s := MissedMatch(g, s);
    } else {
      s := CaretDiffers(g);
    }
  }

  lemma UsualExactly(g: Glob)
    ensures (forall s | Clean(s) :: Means(g, s) == Matches(Plain(g), s)) <==> MeansUsual(g)
  {
    if MeansUsual(g) {
      forall s | Clean(s)
        ensures Means(g, s) == Matches(Plain(g), s)
      {
        UsualMeaning(g, s);
      }
    } else {
      var s := UnusualMeaning(g);
    }
  }

  /** Patterns that the matcher decides in the usual way. */
  predicate Usual(g: Glob) {
    MeansUsual(g) && !Errs(g, false)
  }

  lemma DecideUsual(g: Glob, s: Word)
    requires Usual(g) && Clean(s)
    ensures Decide(g, s) == if Matches(Plain(g), s) then Yes else No
  {
    hide Means, Matches, Plain, Decide, Fault, MeansUsual, Errs;
    DecideMeans(g, s);
    NoErrs(g, s, false);
    UsualMeaning(g, s);
  }

  /** The matcher decides every string in the usual way for exactly these patterns. */
  lemma DecideExactly(g: Glob)
    ensures (forall s | Clean(s) :: Decide(g, s) == if Matches(Plain(g), s) then Yes else No) <==> Usual(g)
  {
    hide Means, Matches, Plain, Decide, Fault, MeansUsual, Errs;
    if Usual(g) {
      forall s | Clean(s)
        ensures Decide(g, s) == if Matches(Plain(g), s) then Yes else No
      {
        DecideUsual(g, s);
      }
    } else if !MeansUsual(g) {
      var s := UnusualMeaning(g);
      DecideMeans(g, s);
    } else {
      NeverErrs(g);
    }
  }

  lemma {:induction false} AnyOfUsual(ws: seq<Word>, s: Word)
    requires Clean(s) && forall i :: 0 <= i < |ws| ==> Usual(Read(ws[i]))
    ensures AnyOf(ws, s) == if exists i :: 0 <= i < |ws| && Matches(ReadPlain(ws[i]), s) then Yes else No
  {
    if ws != [] {
      var g, rest := Read(ws[0]), ws[1..];
      hide Read, ReadPlain, Plain, Matches, Usual, Decide;
      PlainRead(ws[0]);
      DecideUsual(g, s);
      AnyOfUsual(rest, s);
      if i :| 0 <= i < |ws| && Matches(ReadPlain(ws[i]), s) && i > 0 {
        assert Matches(ReadPlain(rest[i - 1]), s);
      }
    }
  }

  /** For such patterns, whatever their braces, the string matches exactly if one of the words that the braces
      stand for matches in the usual way; or, behind a circumflex, if none does. */
  lemma JudgeUsual(s: Word, pat: Word)
    requires Clean(s) && Expand(Body(pat)).Ok?
    requires forall i :: 0 <= i < |Expand(Body(pat)).value| ==> Usual(Read(Expand(Body(pat)).value[i]))
    ensures var ws := Expand(Body(pat)).value;
      var some := exists i :: 0 <= i < |ws| && Matches(ReadPlain(ws[i]), s);
      Judge(s, pat) == if some != (Body(pat) != pat) then Yes else No
  {
    AnyOfUsual(Expand(Body(pat)).value, s);
  }

  lemma {:induction false} AnyOfErrs(ws: seq<Word>, s: Word)
    ensures AnyOf(ws, s) in {Yes, No} <==> forall i :: 0 <= i < |ws| ==> Decide(Read(ws[i]), s) in {Yes, No}
  {
    if ws != [] {
      var rest := ws[1..];
      hide Read, Decide;
      AnyOfErrs(rest, s);
      assert forall i :: 0 < i < |ws| ==> ws[i] == rest[i - 1];
      assert forall i :: 0 <= i < |rest| ==> rest[i] == ws[i + 1];
    }
  }

  /** A whole pattern, with its braces, reports no error on any string exactly if none of its words can. */
  lemma JudgeNeverErrs(pat: Word)
    ensures (forall s | Clean(s) :: Judge(s, pat) in {Yes, No}) <==>
            Expand(Body(pat)).Ok? && forall w <- Expand(Body(pat)).value :: !Errs(Read(w), false)
  {
    hide Read, Decide, Errs, Clean, Expand;
    match Expand(Body(pat)) {
      case Missing(c) =>
        EmptyClean();
        assert Judge([], pat) == Lacks(c);
      case Ok(ws) =>
        if w :| w in ws && Errs(Read(w), false) {
          var s := ErringString(Read(w), false);
          AnyOfErrs(ws, s);
        }
        forall s | Clean(s) && forall w <- ws :: !Errs(Read(w), false)
          ensures Judge(s, pat) in {Yes, No}
        {
          AnyOfErrs(ws, s);
          forall i | 0 <= i < |ws| ensures Decide(Read(ws[i]), s) in {Yes, No} {
            NoErrs(Read(ws[i]), s, false);
          }
        }
    }
  }

  lemma EmptyClean()
    ensures Clean([])
  {
  }

  /** Nothing in the word is special, or everything that is has been quoted. */
  predicate Literal(p: Word) {
    QUES !in p && STAR !in p && LBRK !in p
  }

  function Trimmed(s: Word): (r: Word)
    ensures |r| == |s| && forall i :: 0 <= i < |s| ==> r[i] == Trim(s[i])
  {
    seq(|s|, i requires 0 <= i < |s| => Trim(s[i]))
  }

  /** Such a word matches itself, quoted or not, and nothing else. */
  lemma {:induction false} LiteralMatches(p: Word, s: Word)
    requires Literal(p) && Clean(p) && Clean(s)
    ensures Decide(Read(p), s) == if Trimmed(p) == Trimmed(s) then Yes else No
  {
    if p != [] && s != [] && Trim(p[0]) == Trim(s[0]) {
      LiteralMatches(p[1..], s[1..]);
      assert Trimmed(p) == [Trim(p[0])] + Trimmed(p[1..]) && Trimmed(s) == [Trim(s[0])] + Trimmed(s[1..]);
    } else if p != [] && s != [] {
      assert Trimmed(p)[0] != Trimmed(s)[0];
    }
  }

  /** A class without hyphens has exactly its characters, quoted or not. */
  lemma {:induction false} ClassHas(before: int, d: Word, c: int)
    requires MINUS !in d
    ensures InClass(before, d, c) <==> c in Trimmed(d)
    decreases |d|
  {
    if d != [] {
      ClassHas(d[0], d[1..], c);
      assert Trimmed(d) == [Trim(d[0])] + Trimmed(d[1..]);
    }
  }

  /** A range has exactly the characters between its bounds; behind an opening bracket there is none. */
  lemma RangeHas(before: int, lo: int, hi: int, c: int)
    requires lo !in {MINUS, LBRK}
    ensures InClass(before, [lo, MINUS, hi], c) <==> Trim(lo) <= c <= Trim(hi) || c == Trim(lo)
    ensures InClass(before, [LBRK, MINUS, hi], c) <==> c in {LBRK, MINUS, Trim(hi)}
  {
    var d, e: Word := [MINUS, hi], [hi];
    assert [lo, MINUS, hi][1..] == d == [LBRK, MINUS, hi][1..] && d[2..] == [] && d[1..] == e && e[1..] == [];
    assert InClass(lo, d, c) <==> Trim(lo) <= c <= Trim(hi);
    assert InClass(MINUS, e, c) <==> c == Trim(hi);
    assert InClass(LBRK, d, c) <==> c == MINUS || InClass(MINUS, e, c);
  }

  /** Behind a star a circumflex negates: the pattern *^a takes b, in which there is no circumflex. */
  lemma CaretNegates()
    ensures var p, s := [STAR, CARET, 97], [98]; Judge(s, p) == Yes && !Matches(ReadPlain(p), s)
  {
    var p: Word, s: Word := [STAR, CARET, 97], [98];
    var rest := One(Lit(97), End);
    assert p[2..] == [97] && [97][1..] == [];
    assert Read([97]) == rest && Read(p) == Star(true, rest);
    assert Decide(rest, s) == No;
    assert FirstOf(true, rest, s) == Yes;
    assert Expand(p) == Ok([p]);
    assert AnyOf([p][1..], s) == No;
    PlainRead(p);
    StarCaretOne(rest, 98);
  }

  /** The pattern a** does not take a. */
  lemma TwoStarsMiss()
    ensures var p, s := [97, STAR, STAR], [97]; Judge(s, p) == No && Matches(Read(p), s)
  {
    var p: Word, s: Word := [97, STAR, STAR], [97];
    var g := Star(false, Star(false, End));
    ReadTwoStars();
    assert s[1..] == [];
    assert Expand(p) == Ok([p]);
    hide Read, Expand;
    assert Decide(g, s[1..]) == No;
    StarsMatch(g, s[1..]);
    assert AnyOf([p][1..], s) == No;
  }

  lemma ReadTwoStars()
    ensures Read([97, STAR, STAR]) == One(Lit(97), Star(false, Star(false, End)))
  {
    var p: Word := [97, STAR, STAR];
    assert p[1..] == [STAR, STAR] && [STAR, STAR][1..] == [STAR] && [STAR][1..] == [];
    assert Read([STAR]) == Star(false, End);
    assert Read([STAR, STAR]) == Star(false, Star(false, End));
  }

  /** The pattern [^a] takes the end of the empty string for a character. */
  lemma ClassTakesEnd()
    ensures Judge([], [LBRK, CARET, 97, RBRK]) == Beyond
  {
    var p: Word := [LBRK, CARET, 97, RBRK];
    var d: Word := [97, RBRK];
    assert p[1..][1..] == d && d[1..] == [RBRK] && [RBRK][1..] == [];
    assert Bracket([RBRK]) == 0 && Bracket(d) == 1;
    assert d[..1] == [97] && d[2..] == [];
    assert ReadClass(p[1..]) == One(Class(true, CARET, [97]), End);
    assert [97][1..] == [];
    assert !InClass(CARET, [97], 0);
    assert Expand(p) == Ok([p]);
  }
}
