/** What csh's file name patterns mean (bin/csh/glob.c): how a word reads as a pattern, what the matcher decides,
    and how that compares with the usual meaning. */
module GlobPattern {
  import opened Basics
  import opened BraceSpec

  const STAR := 42
  const MINUS := 45
  const QUES := 63
  const CARET := 94

  /** A character without its quotation bit. */
  function Trim(c: int): (r: int)
    ensures 0 <= r < 0x8000
  {
    c % 0x8000
  }

  /** The character that is looked at, zero at the end. */
  function Head(s: Word): int {
    if s == [] then 0 else Trim(s[0])
  }

  /** No character is a quotation bit alone. */
  ghost predicate Clean(s: Word) {
    forall i :: 0 <= i < |s| ==> Trim(s[i]) != 0
  }

  /** What one character is compared with. In a class, `before` is the character in front of the content. */
  datatype Atom = Any | Lit(c: int) | Class(negated: bool, before: int, content: Word)

  /** A pattern as it is read: `Open` is a class without an end. Behind a star, what follows may be negated. */
  datatype Glob = End | One(atom: Atom, rest: Glob) | Star(negated: bool, rest: Glob) | Open(before: int, content: Word)

  /** The content of a class: single characters, and ranges, whose lower bound is whatever comes before the
      hyphen, except for an opening bracket. A hyphen at the end stands for itself. */
  predicate InClass(before: int, d: Word, c: int)
    decreases |d|
  {
    if d == [] then false
    else if d[0] == MINUS && before != LBRK && |d| > 1 then
      (Trim(before) <= c <= Trim(d[1])) || InClass(d[1], d[2..], c)
    else c == Trim(d[0]) || InClass(d[0], d[1..], c)
  }

  predicate Accepts(a: Atom, c: int) {
    match a
    case Any => c != 0
    case Lit(x) => Trim(x) == c
    case Class(negated, before, content) => InClass(before, content, c) != negated
  }

  /** In a class without an end, a range that has no upper bound is come to before c is found. */
  predicate CutRange(before: int, d: Word, c: int)
    decreases |d|
  {
    d != [] &&
    if d[0] == MINUS && before != LBRK then
      |d| == 1 || (!(Trim(before) <= c <= Trim(d[1])) && CutRange(d[1], d[2..], c))
    else c != Trim(d[0]) && CutRange(d[0], d[1..], c)
  }

  /** The place of the first closing bracket. */
  function Bracket(q: Word): (e: nat)
    ensures e <= |q| && RBRK !in q[..e] && (e < |q| ==> q[e] == RBRK)
  {
    if q == [] || q[0] == RBRK then 0 else
      var e := 1 + Bracket(q[1..]);
      assert q[..e] == [q[0]] + q[1..][..e - 1];
      e
  }

  function Read(p: Word): Glob
    decreases |p|
  {
    if p == [] then End
    else if p[0] == QUES then One(Any, Read(p[1..]))
    else if p[0] == STAR then
      if |p| > 1 && p[1] == CARET then Star(true, Read(p[2..])) else Star(false, Read(p[1..]))
    else if p[0] == LBRK then ReadClass(p[1..])
    else One(Lit(p[0]), Read(p[1..]))
  }

  /** A pattern that begins behind an opening bracket. */
  function ReadClass(q: Word): (g: Glob)
    ensures g.One? || g.Open?
    decreases |q|
  {
    var negated := q != [] && q[0] == CARET;
    var before := if negated then CARET else LBRK;
    var d := if negated then q[1..] else q;
    var e := Bracket(d);
    if e == |d| then Open(before, d) else One(Class(negated, before, d[..e]), Read(d[e + 1..]))
  }

  /** Whether there is a match, or what is missing in the pattern. `Beyond`: the matcher goes on behind the end
      of the string or of the pattern. */
  datatype Verdict = Yes | No | Lacks(c: int) | Beyond

  function Not(v: Verdict): Verdict {
    if v == Yes then No else if v == No then Yes else v
  }

  function Flip(v: Verdict, negated: bool): Verdict {
    if negated then Not(v) else v
  }

  /** What the matcher decides: from left to right, at a star from the front, where what is left of the string
      for the rest of the pattern is never empty. */
  function Decide(g: Glob, s: Word): Verdict
    decreases g, 0
  {
    match g
    case End => if Head(s) == 0 then Yes else No
    case Open(before, content) => if CutRange(before, content, Head(s)) then Beyond else Lacks(RBRK)
    case One(a, rest) =>
      if !Accepts(a, Head(s)) then No else if s == [] then Beyond else Decide(rest, s[1..])
    case Star(negated, rest) => if rest == End && !negated then Yes else FirstOf(negated, rest, s)
  }

  /** The first verdict but No over what is left of the string. */
  function FirstOf(negated: bool, rest: Glob, s: Word): Verdict
    decreases rest, 1, |s|
  {
    if s == [] then No
    else
      var v := Flip(Decide(rest, s), negated);
      if v == No then FirstOf(negated, rest, s[1..]) else v
  }

  lemma ReadSome(q: Word)
    requires q != []
    ensures Read(q) != End
  {
    assert q[0] == LBRK ==> ReadClass(q[1..]) != End;
  }

  /** What the verdict says: the string can be cut up as the pattern asks. */
  ghost predicate Means(g: Glob, s: Word)
    decreases g
  {
    match g
    case End => Head(s) == 0
    case Open(_, _) => false
    case One(a, rest) => s != [] && Accepts(a, Head(s)) && Means(rest, s[1..])
    case Star(negated, rest) =>
      (rest == End && !negated) || exists k {:trigger s[k..]} :: 0 <= k < |s| && Means(rest, s[k..]) != negated
  }

  /** Some end of the string, which is not empty, is as what follows a star asks. */
  ghost predicate MeansSome(negated: bool, rest: Glob, s: Word) {
    exists k {:trigger s[k..]} :: 0 <= k < |s| && Means(rest, s[k..]) != negated
  }

  /** The matcher comes to a class without an end, or goes on behind the end of the string because of what it asks
      of the next character: in what follows a star, before some end of the string is as that asks. */
  ghost predicate Fault(g: Glob, s: Word)
    decreases g, 0
  {
    match g
    case End => false
    case Open(_, _) => true
    case One(a, rest) => Accepts(a, Head(s)) && (s == [] || Fault(rest, s[1..]))
    case Star(negated, rest) => !(rest == End && !negated) && FaultFirst(negated, rest, s)
  }

  ghost predicate FaultFirst(negated: bool, rest: Glob, s: Word)
    decreases rest, 2
  {
    exists k :: 0 <= k < |s| && FaultAt(negated, rest, s, k)
  }

  ghost predicate FaultAt(negated: bool, rest: Glob, s: Word, k: nat)
    requires k < |s|
    decreases rest, 1
  {
    && Fault(rest, s[k..])
    && forall j {:trigger s[j..]} :: 0 <= j < k ==> Means(rest, s[j..]) == negated && !Fault(rest, s[j..])
  }

  lemma MeansStep(negated: bool, rest: Glob, s: Word)
    requires s != []
    ensures MeansSome(negated, rest, s) <==> Means(rest, s) != negated || MeansSome(negated, rest, s[1..])
  {
    hide Means;
    var t := s[1..];
    assert s[0..] == s && forall k {:trigger s[k..]} :: 1 <= k <= |s| ==> t[k - 1..] == s[k..];
    if k :| 0 <= k < |t| && Means(rest, t[k..]) != negated {
      assert s[k + 1..] == t[k..];
    }
  }

  lemma FaultLater(negated: bool, rest: Glob, s: Word, k: nat)
    requires s != [] && k + 1 < |s| && Means(rest, s) == negated && !Fault(rest, s)
    ensures FaultAt(negated, rest, s, k + 1) <==> FaultAt(negated, rest, s[1..], k)
  {
    hide Means, Fault;
    var t := s[1..];
    assert s[0..] == s && forall j {:trigger s[j..]} :: 1 <= j <= |s| ==> t[j - 1..] == s[j..];
    forall j {:trigger t[j..]} | 0 <= j <= |t| ensures t[j..] == s[j + 1..] {
    }
  }

  lemma FaultStep(negated: bool, rest: Glob, s: Word)
    requires s != []
    ensures FaultFirst(negated, rest, s) <==>
            Fault(rest, s) || (Means(rest, s) == negated && FaultFirst(negated, rest, s[1..]))
  {
    hide Means, Fault;
    assert s[0..] == s;
    assert FaultAt(negated, rest, s, 0) <==> Fault(rest, s);
    if k :| 0 < k < |s| && FaultAt(negated, rest, s, k) {
      FaultLater(negated, rest, s, k - 1);
    }
    if k :| 0 <= k < |s| - 1 && FaultAt(negated, rest, s[1..], k) && Means(rest, s) == negated && !Fault(rest, s) {
      FaultLater(negated, rest, s, k);
    }
  }

  /** The verdict is yes exactly if there is a match, and no exactly if there is none, unless there is a fault. */
  lemma {:induction false} DecideMeans(g: Glob, s: Word)
    ensures Decide(g, s) == Yes <==> Means(g, s) && !Fault(g, s)
    ensures Decide(g, s) == No <==> !Means(g, s) && !Fault(g, s)
    decreases g, 0
  {
    match g
    case End =>
    case Open(_, _) =>
    case One(_, rest) =>
      if s != [] {
        DecideMeans(rest, s[1..]);
      }
    case Star(negated, rest) =>
      if rest != End || negated {
        FirstOfMeans(negated, rest, s);
      }
  }

  lemma {:induction false} FirstOfMeans(negated: bool, rest: Glob, s: Word)
    ensures FirstOf(negated, rest, s) == Yes <==> MeansSome(negated, rest, s) && !FaultFirst(negated, rest, s)
    ensures FirstOf(negated, rest, s) == No <==> !MeansSome(negated, rest, s) && !FaultFirst(negated, rest, s)
    decreases rest, 1, |s|
  {
    if s != [] {
      DecideMeans(rest, s);
      FirstOfMeans(negated, rest, s[1..]);
      MeansStep(negated, rest, s);
      FaultStep(negated, rest, s);
    }
  }

  /** No circumflex behind a star. */
  predicate NoCaret(g: Glob) {
    match g
    case End => true
    case Open(_, _) => true
    case One(_, rest) => NoCaret(rest)
    case Star(negated, rest) => !negated && NoCaret(rest)
  }

  /** Some character is accepted. */
  predicate Takes(a: Atom) {
    exists c :: 0 < c < 0x8000 && Accepts(a, c)
  }

  /** Some string leads the matcher to a class without an end, or beyond the string; some string that is not
      empty, if that is asked for. */
  predicate Errs(g: Glob, some: bool) {
    match g
    case End => false
    case Open(_, _) => true
    case One(a, rest) => (!some && Accepts(a, 0)) || (Takes(a) && Errs(rest, false))
    case Star(negated, rest) => !(rest == End && !negated) && Errs(rest, true)
  }

  lemma {:induction false} ErringString(g: Glob, some: bool) returns (s: Word)
    requires Errs(g, some)
    ensures Clean(s) && (some ==> s != []) && Decide(g, s) !in {Yes, No}
  {
    match g
    case Open(_, _) => s := [97];
    case One(a, rest) =>
      if !some && Accepts(a, 0) {
        s := [];
      } else {
        var c :| 0 < c < 0x8000 && Accepts(a, c);
        var t := ErringString(rest, false);
        s := [c] + t;
        assert s[1..] == t;
      }
    case Star(negated, rest) => s := ErringString(rest, true);
  }

  lemma {:induction false} NoErrs(g: Glob, s: Word, some: bool)
    requires !Errs(g, some) && Clean(s) && (some ==> s != [])
    ensures Decide(g, s) in {Yes, No}
    decreases g, 0
  {
    match g
    case End =>
    case One(a, rest) =>
      if s != [] && Accepts(a, Head(s)) {
        NoErrs(rest, s[1..], false);
      }
    case Star(negated, rest) =>
      if rest != End || negated {
        NoErrsFirst(negated, rest, s);
      }
  }

  lemma {:induction false} NoErrsFirst(negated: bool, rest: Glob, s: Word)
    requires !Errs(rest, true) && Clean(s)
    ensures FirstOf(negated, rest, s) in {Yes, No}
    decreases rest, 1, |s|
  {
    if s != [] {
      NoErrs(rest, s, true);
      NoErrsFirst(negated, rest, s[1..]);
    }
  }

  /** The matcher stays within pattern and string, whatever the string, exactly if the pattern has no such place. */
  lemma NeverErrs(g: Glob)
    ensures (forall s | Clean(s) :: Decide(g, s) in {Yes, No}) <==> !Errs(g, false)
  {
    if Errs(g, false) {
      var s := ErringString(g, false);
    } else {
      forall s | Clean(s)
        ensures Decide(g, s) in {Yes, No}
      {
        NoErrs(g, s, false);
      }
    }
  }

  /** The verdicts over the words that the braces of a pattern stand for: all of them are tried. */
  function AnyOf(ws: seq<Word>, s: Word): Verdict {
    if ws == [] then No
    else
      var v := Decide(Read(ws[0]), s);
      if v !in {Yes, No} then v
      else
        var w := AnyOf(ws[1..], s);
        if w == No then v else w
  }

  function Body(pat: Word): Word {
    if pat != [] && pat[0] == CARET then pat[1..] else pat
  }

  /** A pattern as a whole, with a circumflex in front and with braces. */
  function Judge(s: Word, pat: Word): Verdict {
    match Expand(Body(pat))
    case Missing(c) => Lacks(c)
    case Ok(ws) => Flip(AnyOf(ws, s), Body(pat) != pat)
  }
}
