/** What the text of an expression finds in a line: expressions as they are written, the strings that they stand for,
    and that compiler and matcher agree with that (bin/ed/ed.c). */
module EdMeaning {
  import opened Basics
  import opened EdPattern
  import opened EdRegexec
  import opened EdSyntax
  import opened EdCompile

  /** A character of a class, or a stretch from one to another. */
  datatype Element = One(c: int) | Span(x: int, y: int)

  /** What stands for one character: a character as it is, one behind a backslash, a period, or a class. */
  datatype Part = Plain(c: int) | Escaped(c: int) | Any | Set(negated: bool, elems: seq<Element>)

  /** A part with any number of stars behind it. */
  datatype Piece = Piece(part: Part, stars: nat)

  /** An expression: with a circumflex in front or not, and with a dollar at the end or not. */
  datatype Regex = Regex(circ: bool, pieces: seq<Piece>, dollar: bool)

  function ElementText(e: Element): (t: seq<int>)
    ensures t != []
  {
    match e
    case One(c) => [c]
    case Span(x, y) => [x, 45, y]
  }

  function ElementsText(es: seq<Element>): seq<int> {
    if es == [] then [] else ElementText(es[0]) + ElementsText(es[1..])
  }

  function PartText(p: Part): (t: seq<int>)
    ensures t != []
  {
    match p
    case Plain(c) => [c]
    case Escaped(c) => [92, c]
    case Any => [46]
    case Set(negated, es) => (if negated then [91, 94] else [91]) + ElementsText(es) + [93]
  }

  function Stars(n: nat): (t: seq<int>)
    ensures |t| == n
  {
    if n == 0 then [] else [42] + Stars(n - 1)
  }

  function PiecesText(ps: seq<Piece>): seq<int> {
    if ps == [] then [] else PartText(ps[0].part) + Stars(ps[0].stars) + PiecesText(ps[1..])
  }

  /** How an expression is written, in front of its delimiter. */
  function RegexText(r: Regex): seq<int> {
    (if r.circ then [94] else []) + PiecesText(r.pieces) + if r.dollar then [36] else []
  }

  /** A character belongs to an element of a class. */
  predicate Belongs(c: int, e: Element) {
    match e
    case One(d) => c == d
    case Span(x, y) => c == x || c == y || x <= c <= y
  }

  /** A part stands for a character. */
  predicate Takes(p: Part, c: int) {
    match p
    case Plain(d) => c == d
    case Escaped(d) => c == d
    case Any => true
    case Set(negated, es) => (exists e <- es :: Belongs(c, e)) != negated
  }

  /** The pieces stand for a string: each without a star for one character, each with stars for any number. */
  ghost predicate Denotes(ps: seq<Piece>, t: seq<int>)
    decreases |ps|
  {
    if ps == [] then t == []
    else if ps[0].stars == 0 then t != [] && Takes(ps[0].part, t[0]) && Denotes(ps[1..], t[1..])
    else exists k: nat :: k <= |t| && (forall c <- t[..k] :: Takes(ps[0].part, c)) && Denotes(ps[1..], t[k..])
  }

  /** An element that may stand at place k of n elements: a closing bracket only in front, a hyphen only in front or
      at the end, and no circumflex in front of a class that is not negated. */
  predicate GoodElement(e: Element, k: nat, n: nat, negated: bool) {
    var c := ElementText(e)[0];
    && c > 0 && c != 10 && (c == 93 ==> k == 0) && (c == 45 ==> k == 0 || (k == n - 1 && e.One?))
    && (c == 94 && k == 0 ==> negated) && (e.Span? ==> e.y > 0 && e.y != 93)
  }

  /** A part that may stand in an expression with this delimiter: the characters that mean something else stand for
      themselves only behind a backslash; the digits 1 to 5 and the parentheses only without one. */
  predicate GoodPart(p: Part, eof: int) {
    match p
    case Plain(c) => c > 0 && c !in {10, 46, 91, 92, eof}
    case Escaped(c) => c > 0 && c !in {10, 40, 41, 49, 50, 51, 52, 53}
    case Any => true
    case Set(negated, es) => es != [] && forall k: nat :: k < |es| ==> GoodElement(es[k], k, |es|, negated)
  }

  /** A dollar does not stand for itself at the end; stars do so only in front, where there is nothing that they could
      belong to. */
  predicate GoodPieces(ps: seq<Piece>, dollar: bool, eof: int, prev: bool) {
    ps != [] ==>
      var p := ps[0];
      && GoodPart(p.part, eof) && (p.part == Plain(36) ==> |ps| > 1 || p.stars > 0 || dollar)
      && (p.part == Plain(42) ==> !prev && p.stars == 0) && GoodPieces(ps[1..], dollar, eof, p.part != Plain(42))
  }

  /** A circumflex does not stand for itself in front, and the delimiter is none of the characters that mean
      something. */
  predicate GoodRegex(r: Regex, eof: int) {
    && eof > 0 && eof !in {10, 36, 42, 46, 91, 92, 94} && GoodPieces(r.pieces, r.dollar, eof, false)
    && (!r.circ && r.pieces != [] ==> r.pieces[0].part != Plain(94))
  }

  /** The text t stands in src at pos. */
  predicate Stands(src: seq<int>, pos: nat, t: seq<int>) {
    pos + |t| <= |src| && src[pos..pos + |t|] == t
  }

  lemma StandsParts(src: seq<int>, pos: nat, a: seq<int>, b: seq<int>)
    requires Stands(src, pos, a + b)
    ensures Stands(src, pos, a) && Stands(src, pos + |a|, b)
  {
    assert (a + b)[..|a|] == a && (a + b)[|a|..] == b;
    assert src[pos..pos + |a + b|][..|a|] == src[pos..pos + |a|];
    assert src[pos..pos + |a + b|][|a|..] == src[pos + |a|..pos + |a| + |b|];
  }

  lemma StandsAt(src: seq<int>, pos: nat, t: seq<int>, i: nat)
    requires Stands(src, pos, t) && i < |t|
    ensures pos + i < |src| && At(src, pos + i) == t[i]
  {
    assert src[pos..pos + |t|][i] == src[pos + i];
  }

  /** The characters that a class is filled with. */
  function Filled(es: seq<Element>): seq<int> {
    if es == [] then []
    else (match es[0] case One(c) => [c] case Span(x, y) => [x] + Range(x, y) + [y]) + Filled(es[1..])
  }

  function AtomOf(p: Part): Atom {
    match p
    case Plain(c) => Chr(c)
    case Escaped(c) => Chr(c)
    case Any => Dot
    case Set(negated, es) => Class(Filled(es), negated)
  }

  function Items(ps: seq<Piece>): seq<Item> {
    if ps == [] then [] else [Item(AtomOf(ps[0].part), ps[0].stars > 0)] + Items(ps[1..])
  }

  lemma {:induction false} InRange(x: int, y: int, c: int)
    ensures c in Range(x, y) <==> x < c <= y
    decreases y - x
  {
    if x < y {
      InRange(x + 1, y, c);
    }
  }

  lemma FilledFirst(es: seq<Element>)
    requires es != []
    ensures Filled(es) == Filled([es[0]]) + Filled(es[1..])
    ensures es[0].One? ==> Filled([es[0]]) == [es[0].c]
    ensures es[0].Span? ==> Filled([es[0]]) == [es[0].x] + Range(es[0].x, es[0].y) + [es[0].y]
    ensures ElementsText(es) + [93] == ElementText(es[0]) + (ElementsText(es[1..]) + [93])
  {
    hide Range;
    assert Filled([es[0]][1..]) == [];
  }

  lemma {:induction false} InFilled(es: seq<Element>, c: int)
    ensures c in Filled(es) <==> exists e <- es :: Belongs(c, e)
  {
    if es != [] {
      InFilled(es[1..], c);
      if es[0].Span? {
        InRange(es[0].x, es[0].y, c);
      }
      hide Range;
      FilledFirst(es);
      assert c in Filled([es[0]]) <==> Belongs(c, es[0]);
      hide Filled;
      SomeBelongs(es, c);
    }
  }

  lemma SomeBelongs(es: seq<Element>, c: int)
    requires es != []
    ensures (exists e <- es :: Belongs(c, e)) <==> Belongs(c, es[0]) || exists e <- es[1..] :: Belongs(c, e)
  {
    forall e | e in es ensures e == es[0] || e in es[1..] {
      assert es == [es[0]] + es[1..];
    }
  }

  /** A part takes what its atom fits. */
  lemma TakesFits(p: Part, c: int)
    ensures Takes(p, c) <==> Fits(AtomOf(p), c)
  {
    if p.Set? {
      InFilled(p.elems, c);
    }
  }

  lemma OneRead(src: seq<int>, pos: nat, chars: seq<int>, c: int)
    requires At(src, pos) == c > 0 && c != 10 && (chars == [] || c != 45)
    ensures ReadClass(src, pos, chars) == NextInClass(src, pos + 1, chars + [c])
  {
  }

  lemma SpanRead(src: seq<int>, pos: nat, chars: seq<int>, x: int, y: int)
    requires At(src, pos) == x > 0 && x != 10 && (chars == [] || x != 45)
    requires At(src, pos + 1) == 45 && At(src, pos + 2) == y > 0 && y != 93
    ensures ReadClass(src, pos, chars) == NextInClass(src, pos + 3, chars + ([x] + Range(x, y) + [y]))
  {
    OneRead(src, pos, chars, x);
    var more := chars + [x];
    assert more[|more| - 1] == x;
    assert NextInClass(src, pos + 1, more) == ReadClass(src, pos + 1, more);
    assert more + Range(x, y) + [y] == chars + ([x] + Range(x, y) + [y]);
  }

  /** The elements behind the first one of a class. */
  ghost predicate GoodRest(es: seq<Element>, negated: bool) {
    forall i: nat :: i < |es| ==> GoodElement(es[i], i + 1, |es| + 1, negated)
  }

  lemma GoodRestOn(es: seq<Element>, negated: bool)
    requires es != [] && GoodRest(es, negated)
    ensures GoodElement(es[0], 1, |es| + 1, negated) && GoodRest(es[1..], negated)
  {
    forall i: nat | i < |es[1..]| ensures GoodElement(es[1..][i], i + 1, |es|, negated) {
      assert es[1..][i] == es[i + 1] && GoodElement(es[i + 1], i + 2, |es| + 1, negated);
    }
  }

  lemma {:induction false} ElementsRead(src: seq<int>, pos: nat, chars: seq<int>, es: seq<Element>, negated: bool)
    requires chars != [] && Stands(src, pos, ElementsText(es) + [93]) && GoodRest(es, negated)
    ensures NextInClass(src, pos, chars) == ClassText(chars + Filled(es), pos + |ElementsText(es)| + 1)
    decreases |es|
  {
    hide ReadClass, Range, GoodRest, Stands, Filled, GoodElement;
    if es == [] {
      StandsAt(src, pos, [] + [93], 0);
      NothingFilled(chars);
    } else {
      GoodRestOn(es, negated);
      FilledFirst(es);
      StandsParts(src, pos, ElementText(es[0]), ElementsText(es[1..]) + [93]);
      if es[0] == One(45) {
        LastElement(es, negated);
        StandsAt(src, pos, ElementText(es[0]), 0);
        StandsAt(src, pos + 1, [] + [93], 0);
        LastHyphen(src, pos, chars);
        NothingFilled(chars + [45]);
      } else {
        LaterElement(es[0], |es| + 1, negated);
        ElementRead(src, pos, chars, es[0]);
        ElementsRead(src, pos + |ElementText(es[0])|, chars + Filled([es[0]]), es[1..], negated);
      }
      Associated(chars, Filled([es[0]]), Filled(es[1..]));
    }
  }

  lemma NothingFilled(chars: seq<int>)
    ensures chars + Filled([]) == chars
  {
  }

  lemma Associated(a: seq<int>, b: seq<int>, c: seq<int>)
    ensures a + b + c == a + (b + c)
  {
  }

  lemma LastElement(es: seq<Element>, negated: bool)
    requires es != [] && es[0] == One(45) && GoodElement(es[0], 1, |es| + 1, negated)
    ensures es[1..] == []
  {
  }

  lemma LaterElement(e: Element, n: nat, negated: bool)
    requires GoodElement(e, 1, n, negated) && e != One(45)
    ensures GoodElement(e, 0, 2, true) && ElementText(e)[0] != 45 && ElementText(e)[0] != 93
  {
  }

  lemma LastHyphen(src: seq<int>, pos: nat, chars: seq<int>)
    requires chars != [] && At(src, pos) == 45 && At(src, pos + 1) == 93
    ensures NextInClass(src, pos, chars) == ClassText(chars + [45], pos + 2)
  {
  }

  /** One element, of which only the first of a class may be a hyphen or bracket. */
  lemma ElementRead(src: seq<int>, pos: nat, chars: seq<int>, e: Element)
    requires Stands(src, pos, ElementText(e)) && GoodElement(e, 0, 2, true)
    requires chars != [] ==> ElementText(e)[0] != 45 && ElementText(e)[0] != 93
    ensures chars == [] ==>
      ReadClass(src, pos, chars) == NextInClass(src, pos + |ElementText(e)|, chars + Filled([e]))
    ensures chars != [] ==>
      NextInClass(src, pos, chars) == NextInClass(src, pos + |ElementText(e)|, chars + Filled([e]))
  {
    hide ReadClass, Range;
    StandsAt(src, pos, ElementText(e), 0);
    match e
    case One(c) =>
      OneRead(src, pos, chars, c);
      assert Filled([e]) == [c];
    case Span(x, y) =>
      StandsAt(src, pos, ElementText(e), 1);
      StandsAt(src, pos, ElementText(e), 2);
      SpanRead(src, pos, chars, x, y);
      assert Filled([e]) == [x] + Range(x, y) + [y];
  }

  /** A class reads as the characters that it is filled with. */
  lemma ClassRead(src: seq<int>, pos: nat, negated: bool, es: seq<Element>, eof: int)
    requires GoodPart(Set(negated, es), eof) && Stands(src, pos, PartText(Set(negated, es)))
    ensures At(src, pos) == 91 && negated == (At(src, pos + 1) == 94)
    ensures ClassAt(src, pos) == ClassText(Filled(es), pos + |PartText(Set(negated, es))|)
  {
    hide *;
    var n := if negated then 2 else 1;
    GoodFirst(es, negated, eof);
    OpenRead(src, pos, negated, es);
    AllElementsRead(src, pos + n, es[0], es[1..], negated);
    FilledFirst(es);
    ClassStarts(src, pos, negated);
  }

  lemma ClassStarts(src: seq<int>, pos: nat, negated: bool)
    requires negated == (At(src, pos + 1) == 94)
    ensures ClassAt(src, pos) == ReadClass(src, pos + if negated then 2 else 1, [])
  {
    hide ReadClass;
  }

  lemma AllElementsRead(src: seq<int>, pos: nat, e: Element, es: seq<Element>, negated: bool)
    requires GoodElement(e, 0, 2, true) && GoodRest(es, negated) && Filled([e]) != []
    requires Stands(src, pos, ElementText(e) + (ElementsText(es) + [93]))
    ensures ReadClass(src, pos, []) ==
      ClassText(Filled([e]) + Filled(es), pos + |ElementText(e)| + |ElementsText(es)| + 1)
  {
    hide *;
    StandsParts(src, pos, ElementText(e), ElementsText(es) + [93]);
    ElementRead(src, pos, [], e);
    assert [] + Filled([e]) == Filled([e]);
    ElementsRead(src, pos + |ElementText(e)|, Filled([e]), es, negated);
  }

  lemma OpenRead(src: seq<int>, pos: nat, negated: bool, es: seq<Element>)
    requires es != [] && Stands(src, pos, PartText(Set(negated, es)))
    ensures var n := if negated then 2 else 1;
      && Stands(src, pos + n, ElementText(es[0]) + (ElementsText(es[1..]) + [93]))
      && At(src, pos) == 91 && At(src, pos + 1) == (if negated then 94 else ElementText(es[0])[0])
      && |PartText(Set(negated, es))| == n + |ElementText(es[0])| + |ElementsText(es[1..])| + 1
  {
    var open: seq<int> := if negated then [91, 94] else [91];
    FilledFirst(es);
    assert PartText(Set(negated, es)) == open + (ElementText(es[0]) + (ElementsText(es[1..]) + [93]));
    hide Stands, PartText, ElementText, ElementsText;
    StandsParts(src, pos, open, ElementText(es[0]) + (ElementsText(es[1..]) + [93]));
    StandsAt(src, pos, open, 0);
    if negated {
      StandsAt(src, pos, open, 1);
    } else {
      StandsAt(src, pos + 1, ElementText(es[0]) + (ElementsText(es[1..]) + [93]), 0);
    }
  }

  lemma GoodFirst(es: seq<Element>, negated: bool, eof: int)
    requires GoodPart(Set(negated, es), eof)
    ensures es != [] && GoodElement(es[0], 0, 2, true) && (ElementText(es[0])[0] == 94 ==> negated)
    ensures GoodRest(es[1..], negated) && Filled([es[0]]) != []
  {
    assert GoodElement(es[0], 0, |es|, negated);
    forall i: nat | i < |es[1..]| ensures GoodElement(es[1..][i], i + 1, |es|, negated) {
      assert es[1..][i] == es[i + 1] && GoodElement(es[i + 1], i + 1, |es|, negated);
    }
    FilledFirst(es);
  }

  /** How a part reads. */
  lemma PartRead(src: seq<int>, pos: nat, eof: int, p: Part, prev: bool)
    requires GoodPart(p, eof) && Stands(src, pos, PartText(p)) && eof > 0 && eof !in {10, 36, 42, 46, 91, 92, 94}
    requires (p == Plain(42) ==> !prev) && (p == Plain(36) ==> At(src, pos + 1) != eof)
    ensures AtomComes(src, pos, eof, prev) && ReadsAtom(src, pos, AtomOf(p), pos + |PartText(p)|)
    ensures At(src, pos) == 42 <==> p == Plain(42)
  {
    hide Filled, ReadClass, ElementsText;
    StandsAt(src, pos, PartText(p), 0);
    match p
    case Plain(c) =>
    case Escaped(c) =>
      StandsAt(src, pos, PartText(p), 1);
    case Any =>
    case Set(negated, es) =>
      ClassRead(src, pos, negated, es, eof);
  }

  /** A reading with stars put in front. */
  function WithStars(n: nat, r: Reading): Reading {
    if n > 0 && r.Reading? then r.(starred := true) else r
  }

  lemma {:induction false} StarsRead(src: seq<int>, pos: nat, eof: int, n: nat)
    requires Stands(src, pos, Stars(n)) && eof > 0 && eof != 42
    ensures Read(src, pos, eof, true) == WithStars(n, Read(src, pos + n, eof, true))
    decreases n
  {
    if n > 0 {
      StandsAt(src, pos, Stars(n), 0);
      assert Stars(n) == [42] + Stars(n - 1);
      StandsParts(src, pos, [42], Stars(n - 1));
      StarsRead(src, pos + 1, eof, n - 1);
    }
  }

  /** What stands behind the pieces: the dollar, if there is one, and the delimiter. */
  function Ending(dollar: bool, eof: int): (t: seq<int>)
    ensures t != []
  {
    if dollar then [36, eof] else [eof]
  }

  lemma EndingRead(src: seq<int>, pos: nat, eof: int, dollar: bool, prev: bool)
    requires Stands(src, pos, Ending(dollar, eof)) && eof > 0 && eof !in {10, 36, 42, 46, 91, 92, 94}
    ensures Read(src, pos, eof, prev) == Reading(false, [], dollar, pos + |Ending(dollar, eof)|)
  {
    StandsAt(src, pos, Ending(dollar, eof), 0);
    if dollar {
      StandsAt(src, pos, Ending(dollar, eof), 1);
    }
  }

  lemma PiecesSplit(ps: seq<Piece>, t: seq<int>)
    requires ps != []
    ensures PiecesText(ps) + t == PartText(ps[0].part) + (Stars(ps[0].stars) + (PiecesText(ps[1..]) + t))
  {
  }

  /** Behind a dollar that stands for itself, the text goes on. */
  lemma DollarGoesOn(src: seq<int>, pos: nat, eof: int, ps: seq<Piece>, dollar: bool, prev: bool)
    requires ps != [] && GoodPieces(ps, dollar, eof, prev) && ps[0].part == Plain(36)
    requires Stands(src, pos, PiecesText(ps) + Ending(dollar, eof)) && eof > 0 && eof !in {10, 36, 42, 46, 91, 92, 94}
    ensures At(src, pos + 1) != eof
  {
    PiecesSplit(ps, Ending(dollar, eof));
    var rest := PiecesText(ps[1..]) + Ending(dollar, eof);
    StandsParts(src, pos, [36], Stars(ps[0].stars) + rest);
    StandsAt(src, pos + 1, Stars(ps[0].stars) + rest, 0);
    if ps[0].stars == 0 && |ps| > 1 {
      FirstOfPart(ps[1].part, eof);
      PiecesSplit(ps[1..], Ending(dollar, eof));
      assert PartText(ps[1].part)[0] == rest[0];
    }
  }

  lemma FirstOfPart(p: Part, eof: int)
    requires GoodPart(p, eof) && eof !in {46, 91, 92}
    ensures PartText(p)[0] != eof
  {
  }

  lemma {:induction false} PiecesRead(src: seq<int>, pos: nat, eof: int, ps: seq<Piece>, dollar: bool, prev: bool)
    requires GoodPieces(ps, dollar, eof, prev) && eof > 0 && eof !in {10, 36, 42, 46, 91, 92, 94}
    requires Stands(src, pos, PiecesText(ps) + Ending(dollar, eof))
    ensures Read(src, pos, eof, prev) ==
      Reading(false, Items(ps), dollar, pos + |PiecesText(ps)| + |Ending(dollar, eof)|)
    decreases |ps|
  {
    hide Read, Stands, GoodPart, PartText, Ending, AtomOf;
    if ps == [] {
      assert [] + Ending(dollar, eof) == Ending(dollar, eof);
      EndingRead(src, pos, eof, dollar, prev);
    } else {
      var p, n := ps[0].part, ps[0].stars;
      var rest := PiecesText(ps[1..]) + Ending(dollar, eof);
      var end := pos + |PartText(p)|;
      PiecesSplit(ps, Ending(dollar, eof));
      StandsParts(src, pos, PartText(p), Stars(n) + rest);
      StandsParts(src, end, Stars(n), rest);
      if p == Plain(36) {
        DollarGoesOn(src, pos, eof, ps, dollar, prev);
      }
      PartRead(src, pos, eof, p, prev);
      ReadAtom(src, pos, eof, prev, AtomOf(p), end);
      if n > 0 {
        StarsRead(src, end, eof, n);
      }
      PiecesRead(src, end + n, eof, ps[1..], dollar, p != Plain(42));
    }
  }

  /** How the text of an expression reads. */
  lemma RegexRead(src: seq<int>, r: Regex, eof: int)
    requires GoodRegex(r, eof) && Stands(src, 0, RegexText(r) + [eof])
    ensures ReadText(src, 0, eof) == Reading(false, Items(r.pieces), r.dollar, |RegexText(r)| + 1)
    ensures At(src, 0) == 94 <==> r.circ
  {
    var t := PiecesText(r.pieces) + Ending(r.dollar, eof);
    RegexSplit(r, eof);
    if !r.circ {
      NoCircumflex(r, eof);
    }
    hide Read, Stands, PiecesText, Ending, RegexText;
    StandsParts(src, 0, if r.circ then [94] else [], t);
    StandsAt(src, 0, RegexText(r) + [eof], 0);
    PiecesRead(src, if r.circ then 1 else 0, eof, r.pieces, r.dollar, false);
  }

  lemma RegexSplit(r: Regex, eof: int)
    ensures RegexText(r) + [eof] == (if r.circ then [94] else []) + (PiecesText(r.pieces) + Ending(r.dollar, eof))
  {
    hide PiecesText;
  }

  lemma NoCircumflex(r: Regex, eof: int)
    requires GoodRegex(r, eof) && !r.circ
    ensures (PiecesText(r.pieces) + Ending(r.dollar, eof))[0] != 94
  {
    if r.pieces != [] {
      PiecesSplit(r.pieces, Ending(r.dollar, eof));
      assert PartText(r.pieces[0].part)[0] != 94;
    }
  }

  /** A run of a starred piece, as a string and in the line. */
  lemma RunExactly(p: Part, s: seq<int>, i: nat, k: nat, j: nat)
    requires i <= k <= j <= |s|
    ensures s[i..j][..k - i] == s[i..k] && s[i..j][k - i..] == s[k..j]
    ensures AllFit(AtomOf(p), s, i, k) <==> forall c <- s[i..k] :: Takes(p, c)
  {
    hide Takes, AtomOf, Fits;
    forall m | i <= m < k ensures Fits(AtomOf(p), s[m]) <==> Takes(p, s[m]) {
      TakesFits(p, s[m]);
    }
    assert forall m :: i <= m < k ==> s[i..k][m - i] == s[m];
  }

  lemma StarIn(ps: seq<Piece>, dollar: bool, s: seq<int>, i: nat, k: nat, j: nat)
    requires ps != [] && ps[0].stars > 0 && i <= k <= j <= |s| && (dollar ==> j == |s|)
    requires AllFit(AtomOf(ps[0].part), s, i, k) && Denotes(ps[1..], s[k..j])
    ensures Denotes(ps, s[i..j])
  {
    hide Takes, AtomOf, AllFit;
    RunExactly(ps[0].part, s, i, k, j);
    var t, m := s[i..j], k - i;
    assert m <= |t| && (forall c <- t[..m] :: Takes(ps[0].part, c)) && Denotes(ps[1..], t[m..]);
  }

  lemma StarOut(ps: seq<Piece>, dollar: bool, s: seq<int>, i: nat, j: nat) returns (k: nat)
    requires ps != [] && ps[0].stars > 0 && i <= j <= |s| && Denotes(ps, s[i..j])
    ensures i <= k <= j && AllFit(AtomOf(ps[0].part), s, i, k) && Denotes(ps[1..], s[k..j])
  {
    hide Takes, AtomOf, AllFit;
    var t := s[i..j];
    var m: nat :| m <= |t| && (forall c <- t[..m] :: Takes(ps[0].part, c)) && Denotes(ps[1..], t[m..]);
    k := i + m;
    RunExactly(ps[0].part, s, i, k, j);
  }

  /** The pieces match a stretch of the line exactly if they stand for it. */
  lemma {:induction false} MatchesExactly(ps: seq<Piece>, dollar: bool, s: seq<int>, i: nat, j: nat)
    requires i <= |s|
    ensures Matches(Pattern(Items(ps), dollar), s, i, j) <==>
      i <= j <= |s| && (dollar ==> j == |s|) && Denotes(ps, s[i..j])
    decreases |ps|
  {
    hide Takes, AtomOf, Matches, Denotes, AllFit, Items;
    if ps == [] {
      NothingExactly(dollar, s, i, j);
    } else if ps[0].stars == 0 {
      if i < |s| {
        MatchesExactly(ps[1..], dollar, s, i + 1, j);
      }
      SingleExactly(ps, dollar, s, i, j);
    } else {
      if Matches(Pattern(Items(ps), dollar), s, i, j) {
        var k := StarMatch(ps, dollar, s, i, j);
        MatchesExactly(ps[1..], dollar, s, k, j);
        StarIn(ps, dollar, s, i, k, j);
      }
      if i <= j <= |s| && (dollar ==> j == |s|) && Denotes(ps, s[i..j]) {
        var k := StarOut(ps, dollar, s, i, j);
        MatchesExactly(ps[1..], dollar, s, k, j);
        MatchStar(ps, dollar, s, i, k, j);
      }
    }
  }

  lemma NothingExactly(dollar: bool, s: seq<int>, i: nat, j: nat)
    requires i <= |s|
    ensures Matches(Pattern(Items([]), dollar), s, i, j) <==>
      i <= j <= |s| && (dollar ==> j == |s|) && Denotes([], s[i..j])
  {
  }

  lemma ItemsFirst(ps: seq<Piece>)
    requires ps != []
    ensures Items(ps) != [] && Items(ps)[1..] == Items(ps[1..])
    ensures Items(ps)[0] == Item(AtomOf(ps[0].part), ps[0].stars > 0)
  {
  }

  lemma SingleExactly(ps: seq<Piece>, dollar: bool, s: seq<int>, i: nat, j: nat)
    requires ps != [] && ps[0].stars == 0 && i <= |s|
    requires i < |s| ==> (Matches(Pattern(Items(ps[1..]), dollar), s, i + 1, j) <==>
                          i + 1 <= j <= |s| && (dollar ==> j == |s|) && Denotes(ps[1..], s[i + 1..j]))
    ensures Matches(Pattern(Items(ps), dollar), s, i, j) <==>
      i <= j <= |s| && (dollar ==> j == |s|) && Denotes(ps, s[i..j])
  {
    ItemsFirst(ps);
    hide Takes, AtomOf, Items;
    if i < |s| {
      TakesFits(ps[0].part, s[i]);
      if i < j <= |s| {
        assert s[i..j][1..] == s[i + 1..j] && s[i..j][0] == s[i];
      }
    }
    hide Fits;
  }

  lemma StarMatch(ps: seq<Piece>, dollar: bool, s: seq<int>, i: nat, j: nat) returns (k: nat)
    requires ps != [] && ps[0].stars > 0 && i <= |s| && Matches(Pattern(Items(ps), dollar), s, i, j)
    ensures i <= k <= |s| && AllFit(AtomOf(ps[0].part), s, i, k) && Matches(Pattern(Items(ps[1..]), dollar), s, k, j)
  {
    ItemsFirst(ps);
    hide Items, AtomOf, AllFit;
    k :| i <= k <= |s| && AllFit(AtomOf(ps[0].part), s, i, k) && Matches(Pattern(Items(ps[1..]), dollar), s, k, j);
  }

  lemma MatchStar(ps: seq<Piece>, dollar: bool, s: seq<int>, i: nat, k: nat, j: nat)
    requires ps != [] && ps[0].stars > 0 && i <= k <= |s| && AllFit(AtomOf(ps[0].part), s, i, k)
    requires Matches(Pattern(Items(ps[1..]), dollar), s, k, j)
    ensures Matches(Pattern(Items(ps), dollar), s, i, j)
  {
    ItemsFirst(ps);
    hide Items, AtomOf, AllFit;
  }

  /** Some stretch of the line is one that the expression stands for: one that begins the line behind a circumflex,
      and one that ends it in front of a dollar. */
  ghost predicate Has(r: Regex, s: seq<int>) {
    exists i: nat, j: nat :: HasAt(r, s, i, j)
  }

  ghost predicate HasAt(r: Regex, s: seq<int>, i: nat, j: nat) {
    i <= j <= |s| && (r.circ ==> i == 0) && (r.dollar ==> j == |s|) && Denotes(r.pieces, s[i..j])
  }

  /** What the text of an expression reads as, in front of its delimiter and whatever follows, occurs in a line exactly
      if a stretch of the line is one that the expression stands for; and it matches just these. */
  lemma RegexFinds(src: seq<int>, r: Regex, eof: int, s: seq<int>)
    requires GoodRegex(r, eof) && Stands(src, 0, RegexText(r) + [eof])
    ensures var t := ReadText(src, 0, eof);
      && t.Reading? && t.end == |RegexText(r)| + 1
      && (Occurs(Pattern(t.items, t.dollar), At(src, 0) == 94, s) <==> Has(r, s))
      && forall i: nat, j: nat | i <= |s| && (r.circ ==> i == 0) ::
           Matches(Pattern(t.items, t.dollar), s, i, j) <==> HasAt(r, s, i, j)
  {
    RegexRead(src, r, eof);
    var p := Pattern(Items(r.pieces), r.dollar);
    forall i: nat, j: nat | i <= |s| && (r.circ ==> i == 0) ensures Matches(p, s, i, j) <==> HasAt(r, s, i, j) {
      MatchesExactly(r.pieces, r.dollar, s, i, j);
    }
    hide Read, Matches, Denotes;
    if Has(r, s) {
      var i: nat, j: nat :| HasAt(r, s, i, j);
      assert Matches(p, s, i, j);
    }
  }

  /** How many bytes the code of a class, a part and an expression takes, without the end mark. */
  function ElementsWidth(es: seq<Element>): nat {
    if es == [] then 0
    else (match es[0] case One(_) => 1 case Span(x, y) => if x < y then y - x + 2 else 2) + ElementsWidth(es[1..])
  }

  function PartWidth(p: Part): nat {
    match p
    case Plain(_) => 2
    case Escaped(_) => 2
    case Any => 1
    case Set(_, es) => 2 + ElementsWidth(es)
  }

  function PiecesWidth(ps: seq<Piece>): nat {
    if ps == [] then 0 else PartWidth(ps[0].part) + PiecesWidth(ps[1..])
  }

  lemma {:induction false} RangeWidth(x: int, y: int)
    ensures |Range(x, y)| == if x < y then y - x else 0
    decreases y - x
  {
    if x < y {
      RangeWidth(x + 1, y);
    }
  }

  lemma {:induction false} FilledWidth(es: seq<Element>)
    ensures |Filled(es)| == ElementsWidth(es)
  {
    if es != [] {
      FilledWidth(es[1..]);
      if es[0].Span? {
        RangeWidth(es[0].x, es[0].y);
      }
      hide Range;
    }
  }

  lemma {:induction false} ItemsWidth(ps: seq<Piece>)
    ensures Size(Items(ps)) == PiecesWidth(ps)
  {
    if ps != [] {
      ItemsWidth(ps[1..]);
      if ps[0].part.Set? {
        FilledWidth(ps[0].part.elems);
      }
      hide Filled;
      var it := Item(AtomOf(ps[0].part), ps[0].stars > 0);
      SizeConcat([it], Items(ps[1..]));
      assert [it][..0] == [] && Size([it]) == Size([it][..0]) + ItemSize(it);
    }
  }

  /** An expression has room in the buffer exactly if its code, with a dollar, takes less than 128 bytes. */
  lemma RegexFits(src: seq<int>, r: Regex, eof: int)
    requires GoodRegex(r, eof) && Stands(src, 0, RegexText(r) + [eof])
    ensures var t := ReadText(src, 0, eof);
      t.Reading? && (CodeSize(t) < ESIZE <==> PiecesWidth(r.pieces) + (if r.dollar then 1 else 0) < 128)
  {
    hide Read, Stands, GoodRegex, RegexText;
    RegexRead(src, r, eof);
    ItemsWidth(r.pieces);
  }

  /** A text that reads as an expression ends in front of its delimiter. */
  lemma {:induction false} ReadEnds(src: seq<int>, pos: nat, eof: int, prev: bool)
    requires eof > 0
    ensures var r := Read(src, pos, eof, prev); r.Reading? ==> pos < r.end <= |src| && src[r.end - 1] == eof
    decreases |src| - pos
  {
    hide ReadClass;
    var c := At(src, pos);
    if pos < |src| && c != EOF && c != eof {
      ReadEnds(src, pos + 1, eof, true);
      ReadEnds(src, pos + 1, eof, false);
      ReadEnds(src, pos + 2, eof, true);
      var k := ReadClass(src, if At(src, pos + 1) == CARET then pos + 2 else pos + 1, []);
      if k.ClassText? {
        ReadEnds(src, k.end, eof, true);
      }
    }
  }

  /** A text with its delimiter is a pattern that occurs in the line. */
  ghost predicate Finds(text: seq<int>, eof: int, s: seq<int>) {
    var t := ReadText(text + [eof], 0, eof);
    t.Reading? && Occurs(Pattern(t.items, t.dollar), At(text + [eof], 0) == 94, s)
  }

  predicate Delimiter(eof: int) {
    eof > 0 && eof !in {10, 36, 42, 46, 91, 92, 94}
  }

  lemma FindsHas(r: Regex, eof: int, s: seq<int>)
    requires GoodRegex(r, eof)
    ensures Finds(RegexText(r), eof, s) <==> Has(r, s)
  {
    var src := RegexText(r) + [eof];
    assert src[0..|src|] == src;
    RegexFinds(src, r, eof, s);
  }

  /** One part finds a line exactly if that has a character that the part stands for. */
  lemma PartFinds(p: Part, eof: int, s: seq<int>)
    requires GoodPart(p, eof) && p != Plain(36) && p != Plain(42) && p != Plain(94) && Delimiter(eof)
    ensures Finds(PartText(p), eof, s) <==> exists c <- s :: Takes(p, c)
  {
    hide Takes, GoodPart, PartText, Finds;
    var r := Regex(false, [Piece(p, 0)], false);
    assert PiecesText(r.pieces) == PartText(p) + Stars(0) + PiecesText([]);
    assert RegexText(r) == PartText(p);
    assert GoodPieces(r.pieces, false, eof, false);
    FindsHas(r, eof, s);
    forall i: nat, j: nat | i <= j <= |s| ensures Denotes(r.pieces, s[i..j]) <==> j == i + 1 && Takes(p, s[i]) {
      OneDenotes(p, s[i..j]);
    }
    if c :| c in s && Takes(p, c) {
      var i: nat :| i < |s| && s[i] == c;
      assert HasAt(r, s, i, i + 1);
    }
  }

  lemma OneDenotes(p: Part, t: seq<int>)
    ensures Denotes([Piece(p, 0)], t) <==> |t| == 1 && Takes(p, t[0])
  {
    assert Denotes([], t[if |t| > 0 then 1 else 0..]) <==> t[if |t| > 0 then 1 else 0..] == [];
  }

  /** The characters as elements of a class. */
  function Ones(cs: seq<int>): (es: seq<Element>)
    ensures |es| == |cs| && forall k :: 0 <= k < |cs| ==> es[k] == One(cs[k])
  {
    if cs == [] then [] else [One(cs[0])] + Ones(cs[1..])
  }

  lemma {:induction false} OnesText(cs: seq<int>)
    ensures ElementsText(Ones(cs)) == cs
  {
    if cs != [] {
      OnesText(cs[1..]);
      assert Ones(cs)[1..] == Ones(cs[1..]) && [cs[0]] + cs[1..] == cs;
    }
  }

  /** The expression `[cs]` finds a line exactly if that has one of the characters cs, and `[^cs]` exactly if it has
      another. */
  lemma ClassFinds(cs: seq<int>, eof: int, s: seq<int>)
    requires cs != [] && cs[0] != 94 && (forall c <- cs :: c > 0 && c !in {10, 45, 93}) && Delimiter(eof)
    ensures Finds([91] + cs + [93], eof, s) <==> exists c <- s :: c in cs
    ensures Finds([91, 94] + cs + [93], eof, s) <==> exists c <- s :: c !in cs
  {
    OnesText(cs);
    OnesGood(cs, false, eof);
    OnesGood(cs, true, eof);
    forall c ensures Takes(Set(false, Ones(cs)), c) <==> c in cs {
      OnesHave(cs, c);
    }
    hide Finds, Takes;
    PartFinds(Set(false, Ones(cs)), eof, s);
    PartFinds(Set(true, Ones(cs)), eof, s);
  }

  lemma OnesHave(cs: seq<int>, c: int)
    ensures Takes(Set(false, Ones(cs)), c) <==> c in cs
    ensures Takes(Set(true, Ones(cs)), c) <==> c !in cs
  {
    if c in cs {
      var k :| 0 <= k < |cs| && cs[k] == c;
      assert Ones(cs)[k] in Ones(cs) && Belongs(c, Ones(cs)[k]);
    }
  }

  lemma OnesGood(cs: seq<int>, negated: bool, eof: int)
    requires cs != [] && cs[0] != 94 && forall c <- cs :: c > 0 && c !in {10, 45, 93}
    ensures GoodPart(Set(negated, Ones(cs)), eof)
  {
    forall k: nat | k < |cs| ensures GoodElement(Ones(cs)[k], k, |cs|, negated) {
      assert cs[k] in cs;
    }
  }

  /** The expression `[x-y]` finds a line exactly if that has a character from x to y. */
  lemma SpanFinds(x: int, y: int, eof: int, s: seq<int>)
    requires 0 < x <= y && x !in {10, 93, 94} && y != 93 && Delimiter(eof)
    ensures Finds([91, x, 45, y, 93], eof, s) <==> exists c <- s :: x <= c <= y
  {
    var p := Set(false, [Span(x, y)]);
    assert GoodElement(Span(x, y), 0, 1, false);
    assert ElementsText([Span(x, y)]) == ElementText(Span(x, y)) + ElementsText([]);
    assert PartText(p) == [91, x, 45, y, 93];
    PartFinds(p, eof, s);
    forall c ensures Takes(p, c) <==> x <= c <= y {
      assert Belongs(c, [Span(x, y)][0]) <==> x <= c <= y;
    }
    hide Finds, Takes;
  }

  /** The pieces for characters one by one, as they are or behind backslashes, or for as many periods. */
  function Singly(parts: seq<Part>): seq<Piece> {
    if parts == [] then [] else [Piece(parts[0], 0)] + Singly(parts[1..])
  }

  function Plainly(t: seq<int>, escaped: bool): (parts: seq<Part>)
    ensures |parts| == |t| && forall k :: 0 <= k < |t| ==> parts[k] == if escaped then Escaped(t[k]) else Plain(t[k])
  {
    if t == [] then [] else [if escaped then Escaped(t[0]) else Plain(t[0])] + Plainly(t[1..], escaped)
  }

  /** Each character with a backslash in front. */
  function Escape(t: seq<int>): seq<int> {
    if t == [] then [] else [92, t[0]] + Escape(t[1..])
  }

  lemma {:induction false} SinglyDenotes(parts: seq<Part>, u: seq<int>)
    ensures Denotes(Singly(parts), u) <==> |u| == |parts| && forall k :: 0 <= k < |u| ==> Takes(parts[k], u[k])
  {
    hide Takes;
    if parts != [] {
      assert Singly(parts)[1..] == Singly(parts[1..]);
      if u != [] {
        SinglyDenotes(parts[1..], u[1..]);
        assert forall k :: 1 <= k < |u| && |u| == |parts| ==> parts[k] == parts[1..][k - 1] && u[k] == u[1..][k - 1];
        assert forall k :: 0 <= k < |u[1..]| && |u| == |parts| ==>
          parts[1..][k] == parts[k + 1] && u[1..][k] == u[k + 1];
      }
    }
  }

  lemma {:induction false} SinglyGood(parts: seq<Part>, dollar: bool, eof: int, prev: bool)
    requires forall p <- parts :: GoodPart(p, eof) && p != Plain(36) && p != Plain(42)
    ensures GoodPieces(Singly(parts), dollar, eof, prev)
  {
    hide GoodPart;
    if parts != [] {
      assert Singly(parts)[1..] == Singly(parts[1..]) && parts[0] in parts;
      SinglyGood(parts[1..], dollar, eof, true);
    }
  }

  lemma {:induction false} PlainlyText(t: seq<int>, escaped: bool)
    ensures PiecesText(Singly(Plainly(t, escaped))) == if escaped then Escape(t) else t
  {
    if t != [] {
      PlainlyText(t[1..], escaped);
      assert Plainly(t, escaped)[1..] == Plainly(t[1..], escaped);
      assert Singly(Plainly(t, escaped))[1..] == Singly(Plainly(t[1..], escaped));
      assert [t[0]] + t[1..] == t;
    }
  }

  /** Characters that need no backslash, or, behind one, that can have it. */
  predicate Allowed(t: seq<int>, escaped: bool, eof: int) {
    forall c <- t :: c > 0 && if escaped then c !in {10, 40, 41, 49, 50, 51, 52, 53}
                              else c !in {10, 36, 42, 46, 91, 92, 94, eof}
  }

  /** The characters t stand in the line at i. */
  predicate Within(t: seq<int>, s: seq<int>, i: nat) {
    i + |t| <= |s| && s[i..i + |t|] == t
  }

  /** Plain characters t, or escaped ones, find a line exactly if t is a stretch of it: any, or behind a circumflex the
      one that begins it, in front of a dollar the one that ends it, and with both the whole line. */
  lemma StretchFinds(t: seq<int>, escaped: bool, circ: bool, dollar: bool, eof: int, s: seq<int>)
    requires Allowed(t, escaped, eof) && Delimiter(eof)
    ensures
      var text := (if circ then [94] else []) + (if escaped then Escape(t) else t) + (if dollar then [36] else []);
      Finds(text, eof, s) <==>
        exists i: nat :: Within(t, s, i) && (circ ==> i == 0) && (dollar ==> i + |t| == |s|)
  {
    var parts := Plainly(t, escaped);
    var r := Regex(circ, Singly(parts), dollar);
    PlainlyText(t, escaped);
    PlainlyGood(t, escaped, eof);
    SinglyGood(parts, dollar, eof, false);
    FindsHas(r, eof, s);
    PlainlyFinds(t, escaped, r, s);
  }

  lemma PlainlyFinds(t: seq<int>, escaped: bool, r: Regex, s: seq<int>)
    requires r.pieces == Singly(Plainly(t, escaped))
    ensures Has(r, s) <==> exists i: nat :: Within(t, s, i) && (r.circ ==> i == 0) && (r.dollar ==> i + |t| == |s|)
  {
    hide HasAt, Plainly, Singly;
    forall i: nat, j: nat ensures HasAt(r, s, i, j) <==>
      Within(t, s, i) && j == i + |t| && (r.circ ==> i == 0) && (r.dollar ==> j == |s|)
    {
      PlainlyHas(t, escaped, r, s, i, j);
    }
    if i: nat :| Within(t, s, i) && (r.circ ==> i == 0) && (r.dollar ==> i + |t| == |s|) {
      assert HasAt(r, s, i, i + |t|);
    }
  }

  lemma PlainlyHas(t: seq<int>, escaped: bool, r: Regex, s: seq<int>, i: nat, j: nat)
    requires r.pieces == Singly(Plainly(t, escaped))
    ensures HasAt(r, s, i, j) <==>
      Within(t, s, i) && j == i + |t| && (r.circ ==> i == 0) && (r.dollar ==> j == |s|)
  {
    if i <= j <= |s| {
      var u := s[i..j];
      SinglyDenotes(Plainly(t, escaped), u);
      assert Denotes(r.pieces, u) <==> u == t;
    }
    hide Denotes;
  }

  lemma PlainlyGood(t: seq<int>, escaped: bool, eof: int)
    requires Allowed(t, escaped, eof)
    ensures forall p <- Plainly(t, escaped) :: GoodPart(p, eof) && p != Plain(36) && p != Plain(42) && p != Plain(94)
  {
    forall p | p in Plainly(t, escaped)
      ensures GoodPart(p, eof) && p != Plain(36) && p != Plain(42) && p != Plain(94)
    {
      var k :| 0 <= k < |t| && Plainly(t, escaped)[k] == p;
      assert t[k] in t;
    }
  }

  function Periods(n: nat): (t: seq<int>)
    ensures |t| == n
  {
    if n == 0 then [] else [46] + Periods(n - 1)
  }

  function Anys(n: nat): (parts: seq<Part>)
    ensures |parts| == n && forall k :: 0 <= k < n ==> parts[k] == Any
  {
    if n == 0 then [] else [Any] + Anys(n - 1)
  }

  lemma {:induction false} AnysText(n: nat)
    ensures PiecesText(Singly(Anys(n))) == Periods(n)
  {
    if n > 0 {
      AnysText(n - 1);
      assert Anys(n)[1..] == Anys(n - 1);
      assert Singly(Anys(n))[1..] == Singly(Anys(n - 1));
    }
  }

  /** As many periods find a line exactly if it has so many characters, whatever they are. */
  lemma PeriodsFind(n: nat, eof: int, s: seq<int>)
    requires Delimiter(eof)
    ensures Finds(Periods(n), eof, s) <==> |s| >= n
  {
    var r := Regex(false, Singly(Anys(n)), false);
    AnysText(n);
    assert RegexText(r) == Periods(n);
    SinglyGood(Anys(n), false, eof, false);
    FindsHas(r, eof, s);
    hide Finds;
    forall u: seq<int> ensures Denotes(r.pieces, u) <==> |u| == n {
      SinglyDenotes(Anys(n), u);
      assert forall k :: 0 <= k < n ==> Anys(n)[k] == Any;
    }
    hide Denotes, Singly, Anys;
    if |s| >= n {
      assert HasAt(r, s, 0, n);
    }
  }

  /** The expression `c*` matches exactly the runs of c, also empty ones. */
  lemma StarMatches(c: int, eof: int, s: seq<int>, i: nat, j: nat)
    requires Allowed([c], false, eof) && Delimiter(eof) && i <= |s|
    ensures var t := ReadText([c, 42, eof], 0, eof);
      && t.Reading?
      && (Matches(Pattern(t.items, t.dollar), s, i, j) <==> i <= j <= |s| && forall k :: i <= k < j ==> s[k] == c)
  {
    var r := Regex(false, [Piece(Plain(c), 1)], false);
    assert c in [c];
    assert PiecesText(r.pieces) == [c] + Stars(1) + PiecesText([]);
    assert RegexText(r) + [eof] == [c, 42, eof];
    assert GoodPieces(r.pieces, false, eof, false);
    var src := [c, 42, eof];
    assert src[0..3] == src;
    RegexFinds(src, r, eof, s);
    hide Read, Matches;
    if i <= j <= |s| {
      RunDenotes(c, s[i..j]);
      assert forall k :: i <= k < j ==> s[i..j][k - i] == s[k];
    }
    hide Denotes;
  }

  lemma RunDenotes(c: int, u: seq<int>)
    ensures Denotes([Piece(Plain(c), 1)], u) <==> forall k :: 0 <= k < |u| ==> u[k] == c
  {
    var ps := [Piece(Plain(c), 1)];
    assert Denotes([], u[|u|..]);
    if forall k :: 0 <= k < |u| ==> u[k] == c {
      assert forall d <- u[..|u|] :: Takes(ps[0].part, d);
    }
    if Denotes(ps, u) {
      var k: nat :| k <= |u| && (forall d <- u[..k] :: Takes(ps[0].part, d)) && Denotes(ps[1..], u[k..]);
      assert u[..k] == u;
      forall m | 0 <= m < |u| ensures u[m] == c {
        assert u[m] in u[..k];
      }
    }
  }

  lemma {:induction false} StarsGood(n: nat, eof: int)
    requires Delimiter(eof)
    ensures GoodPieces(Singly(Plainly(Stars(n), false)), false, eof, false)
  {
    if n > 0 {
      StarsGood(n - 1, eof);
      assert Stars(n)[1..] == Stars(n - 1);
      assert Plainly(Stars(n), false)[1..] == Plainly(Stars(n - 1), false);
      assert Singly(Plainly(Stars(n), false))[1..] == Singly(Plainly(Stars(n - 1), false));
    }
  }

  /** An expression of stars finds a line exactly if that has so many stars in a row: in front they stand for
      themselves. */
  lemma StarsFind(n: nat, eof: int, s: seq<int>)
    requires Delimiter(eof)
    ensures Finds(Stars(n), eof, s) <==> exists i: nat :: Within(Stars(n), s, i)
  {
    var t := Stars(n);
    var r := Regex(false, Singly(Plainly(t, false)), false);
    StarsGood(n, eof);
    PlainlyText(t, false);
    StarsPlain(n);
    assert RegexText(r) == t;
    hide Finds, Plainly, Singly, GoodPieces, Has;
    FindsHas(r, eof, s);
    PlainlyFinds(t, false, r, s);
  }

  lemma StarsPlain(n: nat)
    ensures Regex(false, Singly(Plainly(Stars(n), false)), false).pieces != [] ==>
      Singly(Plainly(Stars(n), false))[0].part == Plain(42)
  {
  }
}
