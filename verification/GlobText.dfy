/** What file name patterns stand for, by the characters that they are written with (bin/csh/glob.c). */
module GlobText {
  import opened Basics
  import opened BraceSpec
  import opened GlobPattern
  import opened GlobMeaning

  /** A character of a class, or a stretch from one to another. */
  datatype Element = Sole(c: int) | Span(x: int, y: int)

  /** A character as it is, a question mark, a star, or a class. */
  datatype Part = Char(c: int) | Wild | Run | Set(negated: bool, es: seq<Element>)

  function ElementText(e: Element): (t: Word)
    ensures t != []
  {
    match e
    case Sole(c) => [c]
    case Span(x, y) => [x, 45, y]
  }

  function ElementsText(es: seq<Element>): Word {
    if es == [] then [] else ElementText(es[0]) + ElementsText(es[1..])
  }

  function PartText(p: Part): (t: Word)
    ensures t != []
  {
    match p
    case Char(c) => [c]
    case Wild => [63]
    case Run => [42]
    case Set(negated, es) => [91] + ((if negated then [94] else []) + (ElementsText(es) + [93]))
  }

  /** How the parts of a pattern are written. */
  function Written(ps: seq<Part>): Word {
    if ps == [] then [] else PartText(ps[0]) + Written(ps[1..])
  }

  /** A character, without its quotation bit, belongs to an element of a class. */
  predicate Belongs(c: int, e: Element) {
    match e
    case Sole(d) => c == d % 0x8000
    case Span(x, y) => c == x % 0x8000 || x % 0x8000 <= c <= y % 0x8000
  }

  /** A part other than a star stands for a character. */
  predicate Stands(p: Part, c: int) {
    match p
    case Char(d) => c == d % 0x8000
    case Wild => true
    case Run => false
    case Set(negated, es) => (exists e <- es :: Belongs(c, e)) != negated
  }

  /** The parts stand for a string, character by character, and a star for any number of them. */
  ghost predicate Denotes(ps: seq<Part>, s: Word)
    decreases |ps|
  {
    if ps == [] then s == []
    else if ps[0].Run? then exists k: nat :: k <= |s| && Denotes(ps[1..], s[k..])
    else s != [] && Stands(ps[0], s[0] % 0x8000) && Denotes(ps[1..], s[1..])
  }

  /** An element that may stand at place k of n: no closing bracket, a hyphen only in front of a class that is not
      negated, or at the end, and no circumflex in front of one that is not negated. */
  predicate GoodElement(e: Element, k: nat, n: nat, negated: bool) {
    var c := ElementText(e)[0];
    && c != 93 && c % 0x8000 != 0 && (c == 45 ==> (k == 0 && !negated) || (k == n - 1 && e.Sole?))
    && (c == 94 && k == 0 ==> negated) && (e.Span? ==> c != 91 && e.y != 93 && e.y % 0x8000 != 0)
  }

  ghost predicate GoodPart(p: Part) {
    match p
    case Char(c) => c !in {42, 63, 91} && c % 0x8000 != 0
    case Wild => true
    case Run => true
    case Set(negated, es) => forall k: nat :: k < |es| ==> GoodElement(es[k], k, |es|, negated)
  }

  /** How they read. */
  function GlobOf(ps: seq<Part>): Glob {
    if ps == [] then End
    else
      var rest := GlobOf(ps[1..]);
      match ps[0]
      case Char(c) => One(Lit(c), rest)
      case Wild => One(Any, rest)
      case Run => Star(false, rest)
      case Set(negated, es) => One(Class(negated, if negated then 94 else 91, ElementsText(es)), rest)
  }

  /** The elements behind the first k. */
  ghost predicate GoodFrom(es: seq<Element>, k: nat, n: nat, negated: bool) {
    forall i: nat :: i < |es| ==> GoodElement(es[i], k + i, n, negated)
  }

  lemma GoodOn(es: seq<Element>, k: nat, n: nat, negated: bool)
    requires es != [] && GoodFrom(es, k, n, negated)
    ensures GoodElement(es[0], k, n, negated) && GoodFrom(es[1..], k + 1, n, negated)
  {
    forall i: nat | i < |es[1..]| ensures GoodElement(es[1..][i], k + 1 + i, n, negated) {
      assert es[1..][i] == es[i + 1] && GoodElement(es[i + 1], k + (i + 1), n, negated);
    }
  }

  lemma {:induction false} NoBracket(es: seq<Element>, k: nat, n: nat, negated: bool)
    requires GoodFrom(es, k, n, negated)
    ensures 93 !in ElementsText(es)
  {
    if es != [] {
      GoodOn(es, k, n, negated);
      NoBracket(es[1..], k + 1, n, negated);
    }
  }

  /** One element of the content of a class: in front of it, a hyphen can only be the first or the last. */
  lemma ElementHas(before: int, e: Element, d: Word, c: int)
    requires e == Sole(45) ==> before == 91 || d == []
    requires e.Span? ==> e.x != 91 && (e.x == 45 ==> before == 91)
    ensures InClass(before, ElementText(e) + d, c) <==>
      Belongs(c, e) || InClass(if e.Sole? then e.c else e.y, d, c)
  {
    match e
    case Sole(x) =>
      assert ([x] + d)[1..] == d;
    case Span(x, y) =>
      var t := [x, 45, y] + d;
      assert t[1..] == [45, y] + d && t[1..][2..] == d && t[1..][1] == y;
  }

  lemma {:induction false} ElementsHave(before: int, es: seq<Element>, k: nat, n: nat, negated: bool, c: int)
    requires GoodFrom(es, k, n, negated) && n == k + |es| && (k == 0 ==> before == if negated then 94 else 91)
    ensures InClass(before, ElementsText(es), c) <==> exists e <- es :: Belongs(c, e)
    decreases |es|
  {
    if es != [] {
      var e := es[0];
      GoodOn(es, k, n, negated);
      ElementHas(before, e, ElementsText(es[1..]), c);
      ElementsHave(if e.Sole? then e.c else e.y, es[1..], k + 1, n, negated, c);
      hide InClass, Belongs;
      SomeBelongs(es, c);
    }
  }

  lemma SomeBelongs(es: seq<Element>, c: int)
    requires es != []
    ensures (exists e <- es :: Belongs(c, e)) <==> Belongs(c, es[0]) || exists e <- es[1..] :: Belongs(c, e)
  {
    forall e | e in es ensures e == es[0] || e in es[1..] {
      assert es == [es[0]] + es[1..];
    }
  }

  lemma {:induction false} BracketAt(d: Word, rest: Word)
    requires 93 !in d
    ensures Bracket(d + ([93] + rest)) == |d|
  {
    if d != [] {
      assert d[0] in d && (d + ([93] + rest))[1..] == d[1..] + ([93] + rest);
      BracketAt(d[1..], rest);
    }
  }

  /** A class that is not negated: the text behind its bracket begins with no circumflex. */
  lemma ClassReads(p: Word, d: Word, rest: Word, t: Word)
    requires t == d + ([93] + rest) && p == [91] + t && 93 !in d && t[0] != 94
    ensures ReadPlain(p) == One(Class(false, 91, d), ReadPlain(rest))
    ensures Read(p) == One(Class(false, 91, d), Read(rest))
  {
    BracketAt(d, rest);
    assert p[1..] == t && t[..|d|] == d && t[|d| + 1..] == rest;
    assert ReadClass(t) == One(Class(false, 91, d), Read(rest));
    hide Bracket;
  }

  lemma NegatedReads(p: Word, d: Word, rest: Word, t: Word)
    requires t == d + ([93] + rest) && p == [91, 94] + t && 93 !in d
    ensures ReadPlain(p) == One(Class(true, 94, d), ReadPlain(rest))
  {
    BracketAt(d, rest);
    var q := p[1..];
    assert q == [94] + t && q[1..] == t && p[2..] == t && t[..|d|] == d && t[|d| + 1..] == rest;
    assert ReadClass(q) == One(Class(true, 94, d), Read(rest));
    hide Bracket, Read;
  }

  lemma SetReads(negated: bool, es: seq<Element>, rest: Word)
    requires GoodPart(Set(negated, es))
    ensures ReadPlain(PartText(Set(negated, es)) + rest) ==
      One(Class(negated, if negated then 94 else 91, ElementsText(es)), ReadPlain(rest))
    ensures !negated ==>
      Read(PartText(Set(negated, es)) + rest) == One(Class(false, 91, ElementsText(es)), Read(rest))
  {
    hide ReadPlain, ElementsText, Read;
    NoBracket(es, 0, |es|, negated);
    var d := ElementsText(es);
    var t := d + ([93] + rest);
    SetText(negated, es, rest);
    if negated {
      NegatedReads([91, 94] + t, d, rest, t);
    } else {
      NoFirstCircumflex(negated, es, rest);
      ClassReads([91] + t, d, rest, t);
    }
  }

  lemma SetText(negated: bool, es: seq<Element>, rest: Word)
    ensures PartText(Set(negated, es)) + rest ==
      (if negated then [91, 94] else [91]) + (ElementsText(es) + ([93] + rest))
  {
    hide ElementsText;
  }

  lemma NoFirstCircumflex(negated: bool, es: seq<Element>, rest: Word)
    requires GoodPart(Set(negated, es)) && !negated
    ensures (ElementsText(es) + ([93] + rest))[0] != 94
  {
    if es != [] {
      assert GoodElement(es[0], 0, |es|, negated);
    }
  }

  lemma PartReads(ps: seq<Part>, rest: Word)
    requires ps != [] && GoodPart(ps[0]) && ReadPlain(rest) == GlobOf(ps[1..])
    ensures ReadPlain(PartText(ps[0]) + rest) == GlobOf(ps)
  {
    if ps[0].Set? {
      SetReads(ps[0].negated, ps[0].es, rest);
    } else {
      assert (PartText(ps[0]) + rest)[1..] == rest;
    }
    hide ReadClass, ElementsText;
  }

  lemma {:induction false} PartsRead(ps: seq<Part>)
    requires forall p <- ps :: GoodPart(p)
    ensures ReadPlain(Written(ps)) == GlobOf(ps)
  {
    hide GoodPart, PartText;
    if ps != [] {
      PartsRead(ps[1..]);
      PartReads(ps, Written(ps[1..]));
    }
  }

  lemma StandsAccepts(p: Part, c: int)
    requires GoodPart(p) && !p.Run? && c != 0
    ensures Accepts(GlobOf([p]).atom, c) <==> Stands(p, c)
  {
    if p.Set? {
      ElementsHave(if p.negated then 94 else 91, p.es, 0, |p.es|, p.negated, c);
    }
  }

  /** The usual reading of what is written matches exactly the strings that the parts stand for. */
  lemma {:induction false} MatchesExactly(ps: seq<Part>, s: Word)
    requires (forall p <- ps :: GoodPart(p)) && Clean(s)
    ensures Matches(GlobOf(ps), s) <==> Denotes(ps, s)
    decreases |ps|
  {
    hide GoodPart, Stands, Accepts, ElementsText;
    if ps != [] {
      var rest := ps[1..];
      if ps[0].Run? {
        forall k: nat | k <= |s| ensures Matches(GlobOf(rest), s[k..]) <==> Denotes(rest, s[k..]) {
          MatchesExactly(rest, s[k..]);
        }
      } else if s != [] {
        StandsAccepts(ps[0], Head(s));
        SameAtom(ps);
        MatchesExactly(rest, s[1..]);
      }
    }
  }

  lemma SameAtom(ps: seq<Part>)
    requires ps != [] && !ps[0].Run?
    ensures GlobOf(ps).One? && GlobOf([ps[0]]).One? && GlobOf(ps).atom == GlobOf([ps[0]]).atom
  {
    hide ElementsText;
  }

  /** A pattern that the matcher reads and decides in the usual way, by its parts: no circumflex behind a star, no two
      stars at the end, no class that is negated. */
  ghost predicate Safe(ps: seq<Part>) {
    ps != [] ==>
      && GoodPart(ps[0]) && !(ps[0].Set? && ps[0].negated) && Safe(ps[1..])
      && (ps[0].Run? ==> ps[1..] != [Run] && (|ps| > 1 ==> ps[1] != Char(94)))
  }

  lemma {:induction false} SafeGood(ps: seq<Part>)
    requires Safe(ps)
    ensures forall p <- ps :: GoodPart(p)
  {
    hide GoodPart;
    if ps != [] {
      SafeGood(ps[1..]);
      assert ps == [ps[0]] + ps[1..];
    }
  }

  /** What may follow a star. */
  lemma NoCaretBehind(ps: seq<Part>)
    requires ps != [] && GoodPart(ps[0]) && ps[0] != Char(94)
    ensures Written(ps)[0] != 94
  {
  }

  lemma SafePart(ps: seq<Part>)
    requires ps != [] && Safe(ps) && Read(Written(ps[1..])) == GlobOf(ps[1..])
    ensures Read(Written(ps)) == GlobOf(ps)
  {
    var rest := Written(ps[1..]);
    if ps[0].Set? {
      SetReads(ps[0].negated, ps[0].es, rest);
    } else {
      assert (PartText(ps[0]) + rest)[1..] == rest;
      if ps[0].Run? && |ps| > 1 {
        NoCaretBehind(ps[1..]);
      }
    }
    hide ReadClass, ElementsText;
  }

  lemma {:induction false} SafeRead(ps: seq<Part>)
    requires Safe(ps)
    ensures Read(Written(ps)) == GlobOf(ps)
  {
    hide Written, GlobOf;
    if ps == [] {
      NothingRead();
    } else {
      SafeRead(ps[1..]);
      SafePart(ps);
    }
  }

  lemma NothingRead()
    ensures Read(Written([])) == GlobOf([])
  {
  }

  lemma SafeRefuses(p: Part)
    requires GoodPart(p) && !p.Run? && !(p.Set? && p.negated)
    ensures !Accepts(GlobOf([p]).atom, 0)
  {
    if p.Set? {
      ElementsHave(91, p.es, 0, |p.es|, false, 0);
      forall e | e in p.es ensures !Belongs(0, e) {
        var k: nat :| k < |p.es| && p.es[k] == e;
        assert GoodElement(p.es[k], k, |p.es|, false);
      }
    }
  }

  lemma {:induction false} SafeUsual(ps: seq<Part>, some: bool)
    requires Safe(ps)
    ensures NoCaret(GlobOf(ps)) && !EndsInStars(GlobOf(ps)) && !Errs(GlobOf(ps), some)
    ensures Stars(GlobOf(ps)) ==> ps == [Run]
  {
    hide GoodPart, Accepts, ElementsText, Takes;
    if ps != [] {
      SafeUsual(ps[1..], if ps[0].Run? then true else false);
      if !ps[0].Run? {
        SafeRefuses(ps[0]);
        SameAtom(ps);
      } else {
        assert ps == [Run] + ps[1..];
      }
    }
  }

  /** A pattern of such parts takes exactly the strings that they stand for, and behind a circumflex just the others. */
  lemma PatternDecides(ps: seq<Part>, s: Word)
    requires Safe(ps) && Clean(s) && 123 !in Written(ps)
    ensures (Written(ps) != [] ==> Written(ps)[0] != 94) ==>
      Judge(s, Written(ps)) == if Denotes(ps, s) then Yes else No
    ensures Judge(s, [94] + Written(ps)) == if Denotes(ps, s) then No else Yes
  {
    hide Written, Denotes, GlobOf, Read, ReadPlain, Matches, Decide, Usual, Safe;
    var p := Written(ps);
    SafeDecides(ps, s);
    OneWord(p, s);
    assert ([94] + p)[1..] == p;
  }

  lemma SafeDecides(ps: seq<Part>, s: Word)
    requires Safe(ps) && Clean(s)
    ensures Decide(Read(Written(ps)), s) == if Denotes(ps, s) then Yes else No
  {
    hide Written, Denotes, GlobOf, Read, ReadPlain, Matches, Decide, Safe, Errs, NoCaret, EndsInStars, Stars, Plain;
    SafeGood(ps);
    SafeRead(ps);
    SafeUsual(ps, false);
    PlainSame(GlobOf(ps));
    DecideUsual(GlobOf(ps), s);
    MatchesExactly(ps, s);
  }

  /** A pattern without braces is one word. */
  lemma OneWord(p: Word, s: Word)
    requires 123 !in p && Decide(Read(p), s) in {Yes, No}
    ensures Expand(p) == Ok([p]) && AnyOf([p], s) == Decide(Read(p), s)
  {
    hide Read, Decide;
    assert [p][1..] == [];
    assert AnyOf([], s) == No;
  }

  function Chars(t: Word): (ps: seq<Part>)
    ensures |ps| == |t| && forall i :: 0 <= i < |t| ==> ps[i] == Char(t[i])
  {
    if t == [] then [] else [Char(t[0])] + Chars(t[1..])
  }

  /** The same characters, quoted or not. */
  predicate Same(t: Word, s: Word) {
    |t| == |s| && forall i :: 0 <= i < |t| ==> t[i] % 0x8000 == s[i] % 0x8000
  }

  lemma {:induction false} CharsDenote(t: Word, ps: seq<Part>, s: Word)
    ensures Denotes(Chars(t) + ps, s) <==> |t| <= |s| && Same(t, s[..|t|]) && Denotes(ps, s[|t|..])
    decreases |t|
  {
    if t == [] {
      assert Chars(t) + ps == ps && s[0..] == s;
    } else {
      assert (Chars(t) + ps)[1..] == Chars(t[1..]) + ps;
      assert t == [t[0]] + t[1..];
      if s == [] {
      } else {
        CharsDenote(t[1..], ps, s[1..]);
        if |t| <= |s| {
          assert s[1..][..|t| - 1] == s[..|t|][1..] && s[1..][|t| - 1..] == s[|t|..];
          assert Same(t, s[..|t|]) <==> t[0] % 0x8000 == s[0] % 0x8000 && Same(t[1..], s[..|t|][1..]) by {
            SameStep(t, s[..|t|]);
          }
        }
      }
    }
  }

  lemma SameStep(t: Word, s: Word)
    requires |t| == |s| > 0
    ensures Same(t, s) <==> t[0] % 0x8000 == s[0] % 0x8000 && Same(t[1..], s[1..])
  {
    if t[0] % 0x8000 == s[0] % 0x8000 && Same(t[1..], s[1..]) {
      forall i | 0 <= i < |t| ensures t[i] % 0x8000 == s[i] % 0x8000 {
        assert i > 0 ==> t[i] == t[1..][i - 1] && s[i] == s[1..][i - 1];
      }
    }
  }

  lemma WrittenFirst(p: Part, ps: seq<Part>)
    ensures Written([p] + ps) == PartText(p) + Written(ps)
  {
    assert ([p] + ps)[1..] == ps;
  }

  lemma CharsFirst(t: Word, ps: seq<Part>)
    requires t != []
    ensures Chars(t) + ps == [Char(t[0])] + (Chars(t[1..]) + ps)
  {
  }

  lemma {:induction false} CharsText(t: Word, ps: seq<Part>)
    ensures Written(Chars(t) + ps) == t + Written(ps)
  {
    hide Written, Chars;
    if t == [] {
      assert Chars(t) + ps == ps;
    } else {
      CharsText(t[1..], ps);
      CharsFirst(t, ps);
      WrittenFirst(Char(t[0]), Chars(t[1..]) + ps);
      assert [t[0]] + (t[1..] + Written(ps)) == t + Written(ps);
    }
  }

  /** Characters that are not special. */
  predicate Usable(t: Word) {
    forall c <- t :: c !in {42, 63, 91, 94, 123} && c % 0x8000 != 0
  }

  lemma {:induction false} CharsSafe(t: Word, ps: seq<Part>)
    requires Usable(t) && Safe(ps)
    ensures Safe(Chars(t) + ps)
  {
    hide GoodPart;
    if t == [] {
      assert Chars(t) + ps == ps;
    } else {
      assert forall c <- t[1..] :: c in t;
      CharsSafe(t[1..], ps);
      assert (Chars(t) + ps)[1..] == Chars(t[1..]) + ps;
      CharGood(t[0]);
      assert t[0] in t;
    }
  }

  lemma CharGood(c: int)
    ensures GoodPart(Char(c)) <==> c !in {42, 63, 91} && c % 0x8000 != 0
  {
  }

  /** The pattern `t*u` takes exactly the strings that begin with t and, behind that, end with u. */
  lemma StarBetween(t: Word, u: Word, s: Word)
    requires Usable(t) && Usable(u) && Clean(s)
    ensures Judge(s, t + [42] + u) == Yes <==>
      |t| + |u| <= |s| && Same(t, s[..|t|]) && Same(u, s[|s| - |u|..])
  {
    hide Safe;
    var ps := Chars(t) + ([Run] + Chars(u));
    StarSafe(u);
    CharsSafe(t, [Run] + Chars(u));
    StarText(t, u);
    StarText2(t, u);
    PatternDecides(ps, s);
    hide Judge;
    CharsDenote(t, [Run] + Chars(u), s);
    if |t| <= |s| {
      StarDenotes(u, s[|t|..]);
      if |t| + |u| <= |s| {
        assert s[|t|..][|s| - |t| - |u|..] == s[|s| - |u|..];
      }
    }
  }

  lemma StarSafe(u: Word)
    requires Usable(u)
    ensures Safe([Run] + Chars(u))
  {
    assert Chars(u) + [] == Chars(u);
    CharsSafe(u, []);
    assert ([Run] + Chars(u))[1..] == Chars(u);
    if |u| > 0 {
      assert u[0] in u && Chars(u)[0] == Char(u[0]);
    }
  }

  lemma StarText(t: Word, u: Word)
    ensures Written(Chars(t) + ([Run] + Chars(u))) == t + [42] + u
  {
    CharsText(t, [Run] + Chars(u));
    assert ([Run] + Chars(u))[1..] == Chars(u) == Chars(u) + [];
    CharsText(u, []);
    assert Written([]) == [];
  }

  lemma StarText2(t: Word, u: Word)
    requires Usable(t) && Usable(u)
    ensures 123 !in t + [42] + u && (t + [42] + u)[0] != 94
  {
    assert t != [] ==> t[0] in t;
  }

  lemma RunDenotes(ps: seq<Part>, s: Word)
    ensures Denotes([Run] + ps, s) <==> exists k: nat :: k <= |s| && Denotes(ps, s[k..])
  {
    var all := [Run] + ps;
    assert all[1..] == ps && all[0] == Run;
  }

  lemma TailDenotes(u: Word, s: Word, k: nat)
    requires k <= |s|
    ensures Denotes(Chars(u), s[k..]) <==> |s| - k == |u| && Same(u, s[k..])
  {
    hide Denotes, Chars, Same;
    var r := s[k..];
    assert Chars(u) == Chars(u) + [];
    CharsDenote(u, [], r);
    if |u| <= |r| {
      NothingDenotes(r[|u|..]);
      assert |r| == |u| ==> r[..|u|] == r;
    }
  }

  lemma NothingDenotes(s: Word)
    ensures Denotes([], s) <==> |s| == 0
  {
  }

  lemma StarDenotes(u: Word, s: Word)
    ensures Denotes([Run] + Chars(u), s) <==> |u| <= |s| && Same(u, s[|s| - |u|..])
  {
    hide Denotes, Same, Chars;
    RunDenotes(Chars(u), s);
    forall k: nat | k <= |s| ensures Denotes(Chars(u), s[k..]) <==> |s| - k == |u| && Same(u, s[k..]) {
      TailDenotes(u, s, k);
    }
  }

  /** As many question marks take exactly the strings of that length. */
  lemma {:induction false} MarksDenote(n: nat, s: Word)
    ensures Denotes(seq(n, _ => Wild), s) <==> |s| == n
    ensures Written(seq(n, _ => Wild)) == seq(n, _ => 63) && Safe(seq(n, _ => Wild))
  {
    if n > 0 {
      var ps := seq(n, _ => Wild);
      assert ps[1..] == seq(n - 1, _ => Wild);
      assert [63] + seq(n - 1, _ => 63) == seq(n, _ => 63);
      MarksDenote(n - 1, if s == [] then [] else s[1..]);
    }
  }

  lemma MarksTake(n: nat, s: Word)
    requires Clean(s)
    ensures Judge(s, seq(n, _ => 63)) == if |s| == n then Yes else No
  {
    hide Denotes, Safe, Judge, Written;
    MarksDenote(n, s);
    PatternDecides(seq(n, _ => Wild), s);
  }
}
