/** Brace expansion of words, as csh does it (bin/csh/glob.c). */
module BraceSpec {
  import opened Basics

  const COMMA := 44
  const LBRK := 91
  const RBRK := 93
  const LBRC := 123
  const RBRC := 125

  /** A result, or the character that is missing. */
  datatype Outcome<+T> = Ok(value: T) | Missing(c: int)

  /** How deep in braces a place is, and whether it is in brackets, which hide everything up to the first
      closing one. */
  datatype Level = Level(depth: int, hidden: bool)

  const TOP := Level(0, false)

  function Pass(l: Level, c: int): Level {
    if l.hidden then Level(l.depth, c != RBRK)
    else if c == LBRK then Level(l.depth, true)
    else if c == LBRC then Level(l.depth + 1, false)
    else if c == RBRC then Level(l.depth - 1, false)
    else l
  }

  /** The level behind the first k characters. */
  function Walk(t: Word, k: nat): Level
    requires k <= |t|
  {
    if k == 0 then TOP else Pass(Walk(t, k - 1), t[k - 1])
  }

  /** A character of the outermost level. */
  predicate Outer(t: Word, k: nat, c: int)
    requires k < |t|
  {
    t[k] == c && Walk(t, k) == TOP
  }

  /** The first place from k on that closes the braces; the length of the text if there is none. */
  function Close(t: Word, k: nat): (pe: nat)
    requires k <= |t|
    ensures k <= pe <= |t| && (pe < |t| ==> Outer(t, pe, RBRC)) && forall m :: k <= m < pe ==> !Outer(t, m, RBRC)
    decreases |t| - k
  {
    if k == |t| || Outer(t, k, RBRC) then k else Close(t, k + 1)
  }

  /** The pieces between the outermost commas: the one that begins at `start`, and is known up to k, and those
      that follow. */
  function Pieces(t: Word, start: nat, k: nat, pe: nat): (ps: seq<Word>)
    requires start <= k <= pe <= |t|
    ensures ps != []
    decreases pe - k
  {
    if k == pe then [t[start..k]]
    else if Outer(t, k, COMMA) then [t[start..k]] + Pieces(t, k + 1, k + 1, pe)
    else Pieces(t, start, k + 1, pe)
  }

  lemma PiecesCut(t: Word, start: nat, k: nat, pe: nat)
    requires start <= k <= pe <= |t| && (k < pe ==> Outer(t, k, COMMA))
    ensures Pieces(t, start, k, pe) == [t[start..k]] + if k == pe then [] else Pieces(t, k + 1, k + 1, pe)
  {
  }

  /** Where there are no outermost commas, there is nothing to cut. */
  lemma {:induction false} PiecesSkip(t: Word, start: nat, k: nat, m: nat, pe: nat)
    requires start <= k <= m <= pe <= |t| && forall j :: k <= j < m ==> !Outer(t, j, COMMA)
    ensures Pieces(t, start, k, pe) == Pieces(t, start, m, pe)
    decreases m - k
  {
    if k < m {
      PiecesSkip(t, start, k + 1, m, pe);
    }
  }

  /** The first opening brace. */
  function First(s: Word): (b: nat)
    ensures b <= |s| && (b < |s| <==> LBRC in s) && (b < |s| ==> s[b] == LBRC) && LBRC !in s[..b]
  {
    if s == [] || s[0] == LBRC then 0 else 1 + First(s[1..])
  }

  function Wrap(head: Word, ps: seq<Word>, tail: Word): (ws: seq<Word>)
    ensures |ws| == |ps| && forall i :: 0 <= i < |ps| ==> ws[i] == head + ps[i] + tail
  {
    if ps == [] then [] else [head + ps[0] + tail] + Wrap(head, ps[1..], tail)
  }

  /** The words that the first braces of a word stand for. */
  function Alternatives(s: Word): Outcome<seq<Word>>
    requires LBRC in s
  {
    var b := First(s);
    var t := s[b + 1..];
    var pe := Close(t, 0);
    if pe == |t| then Missing(if Walk(t, |t|).hidden then RBRK else RBRC)
    else Ok(Wrap(s[..b], Pieces(t, 0, 0, pe), t[pe + 1..]))
  }

  /** The number of opening braces. */
  function Braces(s: Word): nat {
    if s == [] then 0 else Braces(s[..|s| - 1]) + if s[|s| - 1] == LBRC then 1 else 0
  }

  lemma {:induction false} BracesConcat(a: Word, b: Word)
    ensures Braces(a + b) == Braces(a) + Braces(b)
  {
    if b == [] {
      assert a + b == a;
    } else {
      assert (a + b)[..|a + b| - 1] == a + b[..|b| - 1];
      BracesConcat(a, b[..|b| - 1]);
    }
  }

  /** A piece has no more braces than the text it is cut from. */
  lemma {:induction false} PieceBraces(t: Word, start: nat, k: nat, pe: nat, i: nat)
    requires start <= k <= pe <= |t| && i < |Pieces(t, start, k, pe)|
    ensures Braces(Pieces(t, start, k, pe)[i]) <= Braces(t[..pe])
    decreases pe - k
  {
    if k == pe {
      assert t[..pe] == t[..start] + t[start..k];
      BracesConcat(t[..start], t[start..k]);
    } else if !Outer(t, k, COMMA) {
      PieceBraces(t, start, k + 1, pe, i);
    } else if i > 0 {
      PieceBraces(t, k + 1, k + 1, pe, i - 1);
    } else {
      assert t[..pe] == t[..start] + t[start..k] + t[k..pe];
      BracesConcat(t[..start] + t[start..k], t[k..pe]);
      BracesConcat(t[..start], t[start..k]);
    }
  }

  lemma Parts(s: Word, b: nat, t: Word, pe: nat)
    requires b < |s| && s[b] == LBRC && t == s[b + 1..] && pe < |t| && t[pe] == RBRC
    ensures s == s[..b] + [LBRC] + t[0..pe] + [RBRC] + t[pe + 1..]
  {
    assert t == t[0..pe] + ([RBRC] + t[pe + 1..]);
    assert s == s[..b] + [LBRC] + t;
  }

  lemma BracesThree(a: Word, b: Word, c: Word)
    ensures Braces(a + b + c) == Braces(a) + Braces(b) + Braces(c)
  {
    BracesConcat(a + b, c);
    BracesConcat(a, b);
  }

  /** Every alternative has fewer braces than the word. */
  lemma FewerBraces(s: Word, i: nat)
    requires LBRC in s && Alternatives(s).Ok? && i < |Alternatives(s).value|
    ensures Braces(Alternatives(s).value[i]) < Braces(s)
  {
    var b := First(s);
    var t := s[b + 1..];
    var pe := Close(t, 0);
    var ps, tail := Pieces(t, 0, 0, pe), t[pe + 1..];
    assert Alternatives(s).value == Wrap(s[..b], ps, tail);
    hide Alternatives, Pieces, Walk, Wrap, First, Close;
    PieceBraces(t, 0, 0, pe, i);
    assert t[0..pe] == t[..pe];
    Parts(s, b, t, pe);
    BracesThree(s[..b] + [LBRC] + t[0..pe], [RBRC], tail);
    BracesThree(s[..b], [LBRC], t[0..pe]);
    BracesThree(s[..b], ps[i], tail);
    assert Braces([LBRC]) == 1;
  }

  /** The pieces with commas between them. */
  function Join(ps: seq<Word>): Word
    requires ps != []
  {
    if |ps| == 1 then ps[0] else ps[0] + [COMMA] + Join(ps[1..])
  }

  /** The pieces make up the text. */
  lemma {:induction false} PiecesJoin(t: Word, start: nat, k: nat, pe: nat)
    requires start <= k <= pe <= |t|
    ensures Join(Pieces(t, start, k, pe)) == t[start..pe]
    decreases pe - k
  {
    if k == pe {
    } else if Outer(t, k, COMMA) {
      PiecesJoin(t, k + 1, k + 1, pe);
      var ps := Pieces(t, k + 1, k + 1, pe);
      assert ([t[start..k]] + ps)[1..] == ps;
      assert t[start..pe] == t[start..k] + [COMMA] + t[k + 1..pe];
    } else {
      PiecesJoin(t, start, k + 1, pe);
    }
  }

  /** A walk that starts at the outermost level is a walk of its own. */
  lemma {:induction false} WalkFrom(t: Word, start: nat, m: nat, end: nat)
    requires start <= start + m <= end <= |t| && Walk(t, start) == TOP
    ensures Walk(t, start + m) == Walk(t[start..end], m)
  {
    if m > 0 {
      WalkFrom(t, start, m - 1, end);
    }
  }

  /** A text without outermost commas that ends at the outermost level. */
  ghost predicate Flat(w: Word) {
    Walk(w, |w|) == TOP && forall m :: 0 <= m < |w| ==> !Outer(w, m, COMMA)
  }

  /** The depth does not fall below that of the outermost level before the closing brace. */
  lemma {:induction false} NotClosed(t: Word, k: nat)
    requires k <= Close(t, 0)
    ensures Walk(t, k).depth >= 0
  {
    if k > 0 {
      NotClosed(t, k - 1);
      assert !Outer(t, k - 1, RBRC);
    }
  }

  /** None of the pieces could be cut any further. */
  lemma {:induction false} PiecesFlat(t: Word, start: nat, k: nat, pe: nat, i: nat)
    requires start <= k <= pe <= |t| && Walk(t, start) == TOP == Walk(t, pe)
    requires forall m :: start <= m < k ==> !Outer(t, m, COMMA)
    requires i < |Pieces(t, start, k, pe)|
    ensures Flat(Pieces(t, start, k, pe)[i])
    decreases pe - k
  {
    if k < pe && !Outer(t, k, COMMA) {
      PiecesFlat(t, start, k + 1, pe, i);
    } else if i > 0 {
      PiecesFlat(t, k + 1, k + 1, pe, i - 1);
    } else {
      var w := t[start..k];
      WalkFrom(t, start, k - start, k);
      forall m: nat | m < |w| ensures !Outer(w, m, COMMA) {
        WalkFrom(t, start, m, k);
        assert !Outer(t, start + m, COMMA);
      }
    }
  }

  /** The alternatives of a word: what is in front of its first braces, what is behind them, and between them
      one of the pieces that, with commas, make up what is in the braces and cannot be cut any further. */
  lemma AlternativesMean(s: Word) returns (head: Word, ps: seq<Word>, tail: Word)
    requires LBRC in s && Alternatives(s).Ok?
    ensures ps != [] && s == head + [LBRC] + Join(ps) + [RBRC] + tail && LBRC !in head
    ensures (forall i :: 0 <= i < |ps| ==> Flat(ps[i])) && Alternatives(s).value == Wrap(head, ps, tail)
  {
    var b := First(s);
    var t := s[b + 1..];
    var pe := Close(t, 0);
    head, ps, tail := s[..b], Pieces(t, 0, 0, pe), t[pe + 1..];
    PiecesJoin(t, 0, 0, pe);
    Parts(s, b, t, pe);
    forall i: nat | i < |ps| ensures Flat(ps[i]) {
      PiecesFlat(t, 0, 0, pe, i);
    }
  }

  /** Words that are left alone, for find. */
  predicate Untouched(s: Word) {
    s == [LBRC] || s == [LBRC, RBRC] || LBRC !in s
  }

  /** The most braces in any of the words. */
  function Most(ws: seq<Word>): (m: nat)
    ensures forall i :: 0 <= i < |ws| ==> Braces(ws[i]) <= m
    ensures ws != [] ==> exists i :: 0 <= i < |ws| && Braces(ws[i]) == m
  {
    if ws == [] then 0 else
      var m, n := Most(ws[1..]), Braces(ws[0]);
      assert n > m ==> Braces(ws[0]) == n;
      assert |ws| > 1 ==> forall i :: 0 <= i < |ws| - 1 ==> ws[1..][i] == ws[i + 1];
      if n > m then n else m
  }

  /** One result after the other; what is missing first counts. */
  function Then(a: Outcome<seq<Word>>, b: Outcome<seq<Word>>): Outcome<seq<Word>> {
    if a.Missing? then a else if b.Missing? then b else Ok(a.value + b.value)
  }

  lemma ThenThen(a: Outcome<seq<Word>>, b: Outcome<seq<Word>>, c: Outcome<seq<Word>>)
    ensures Then(Then(a, b), c) == Then(a, Then(b, c)) && Then(Ok([]), c) == c && Then(a, Ok([])) == a
  {
    if a.Ok? {
      assert a.value + [] == a.value;
    }
    if c.Ok? {
      assert [] + c.value == c.value;
      if a.Ok? && b.Ok? {
        assert a.value + b.value + c.value == a.value + (b.value + c.value);
      }
    }
  }

  /** The words that a word expands to. */
  function Expand(s: Word): Outcome<seq<Word>>
    decreases Braces(s), 0, 0
  {
    if Untouched(s) then Ok([s])
    else
      var a := Alternatives(s);
      if a.Missing? then Missing(a.c)
      else
        assert Most(a.value) < Braces(s) by { FewerAll(s); }
        ExpandAll(a.value)
  }

  /** The words that a list of words expands to, one after the other; or what is missing in the first of them
      that does not expand. */
  function ExpandAll(ws: seq<Word>): Outcome<seq<Word>>
    decreases Most(ws), 1, |ws|
  {
    if ws == [] then Ok([]) else Then(Expand(ws[0]), ExpandAll(ws[1..]))
  }

  lemma FewerAll(s: Word)
    requires LBRC in s && Alternatives(s).Ok?
    ensures Most(Alternatives(s).value) < Braces(s)
  {
    var ws := Alternatives(s).value;
    forall i: nat | i < |ws| ensures Braces(ws[i]) < Braces(s) {
      FewerBraces(s, i);
    }
  }

  lemma {:induction false} ExpandConcat(a: seq<Word>, b: seq<Word>)
    ensures ExpandAll(a + b) == Then(ExpandAll(a), ExpandAll(b))
  {
    if a == [] {
      assert a + b == b;
      ThenThen(Ok([]), Ok([]), ExpandAll(b));
    } else {
      assert (a + b)[1..] == a[1..] + b;
      ExpandConcat(a[1..], b);
      ThenThen(Expand(a[0]), ExpandAll(a[1..]), ExpandAll(b));
    }
  }

  /** A bound on the turns that the expansion of a word takes. */
  function Turns(s: Word): (n: nat)
    ensures n > 0
    decreases Braces(s), 0, 0
  {
    if Untouched(s) || Alternatives(s).Missing? then 1
    else
      assert Most(Alternatives(s).value) < Braces(s) by { FewerAll(s); }
      1 + TurnsAll(Alternatives(s).value)
  }

  function TurnsAll(ws: seq<Word>): nat
    decreases Most(ws), 1, |ws|
  {
    if ws == [] then 0 else Turns(ws[0]) + TurnsAll(ws[1..])
  }

  lemma {:induction false} TurnsConcat(a: seq<Word>, b: seq<Word>)
    ensures TurnsAll(a + b) == TurnsAll(a) + TurnsAll(b)
  {
    if a == [] {
      assert a + b == b;
    } else {
      assert (a + b)[1..] == a[1..] + b;
      TurnsConcat(a[1..], b);
    }
  }

  /** Words that are expanded need no more expansion. */
  lemma {:induction false} ExpandedStay(s: Word)
    requires Expand(s).Ok?
    ensures forall i :: 0 <= i < |Expand(s).value| ==> Untouched(Expand(s).value[i])
    decreases Braces(s), 0, 0
  {
    if !Untouched(s) {
      FewerAll(s);
      AllExpandedStay(Alternatives(s).value);
    }
  }

  lemma {:induction false} AllExpandedStay(ws: seq<Word>)
    requires ExpandAll(ws).Ok?
    ensures forall i :: 0 <= i < |ExpandAll(ws).value| ==> Untouched(ExpandAll(ws).value[i])
    ensures ws != [] ==> ExpandAll(ws).value != []
    decreases Most(ws), 1, |ws|
  {
    if ws != [] {
      ExpandedStay(ws[0]);
      AllExpandedStay(ws[1..]);
      Some(ws[0]);
    }
  }

  /** No word vanishes. */
  lemma {:induction false} Some(s: Word)
    requires Expand(s).Ok?
    ensures Expand(s).value != []
    decreases Braces(s)
  {
    if !Untouched(s) {
      var ws := Alternatives(s).value;
      FewerBraces(s, 0);
      Some(ws[0]);
    }
  }

  /** Without touched words the list stays as it is. */
  lemma {:induction false} NothingToDo(ws: seq<Word>)
    requires forall i :: 0 <= i < |ws| ==> Untouched(ws[i])
    ensures ExpandAll(ws) == Ok(ws)
  {
    if ws != [] {
      NothingToDo(ws[1..]);
      assert [ws[0]] + ws[1..] == ws;
    }
  }
}
