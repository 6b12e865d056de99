/** The in-place brace expansion of csh (bin/csh/glob.c). Words have no null in them, and the scratch buffer in
    which an alternative is put together has room for it. */
module GlobBrace {
  import opened Basics
  import opened BraceSpec

  const GLOBSPACE := 100

  /** A cell of a vector of words. */
  datatype Ptr = Null | Str(s: Word)

  /** The words, and the null pointer that ends them. */
  ghost predicate Vector(nv: seq<Ptr>, ws: seq<Word>) {
    |ws| < |nv| && nv[|ws|] == Null && forall i :: 0 <= i < |ws| ==> nv[i] == Str(ws[i])
  }

  /** `xrealloc`: the cells so far, and more. */
  method Realloc(nv: array<Ptr>, size: nat) returns (more: array<Ptr>)
    requires size >= nv.Length
    ensures fresh(more) && more.Length == size && more[..nv.Length] == nv[..]
  {
    more := new Ptr[size](_ => Null);
    var i := 0;
    while i < nv.Length
      invariant i <= nv.Length && forall k :: 0 <= k < i ==> more[k] == nv[k]
    {
      more[i] := nv[i];
      i := i + 1;
    }
  }

  /** The place of the bracket that closes the one at place k, or the end of the word; t is what is behind
      the first brace. */
  method SkipBrackets(s: Word, p: nat, k: nat, ghost t: Word) returns (m: nat)
    requires p <= k < |s| && t == s[p..] && s[k] == LBRK && !Walk(t, k - p).hidden
    ensures k < m <= |s| && Walk(t, m - p) == Level(Walk(t, k - p).depth, true) && (m < |s| ==> s[m] == RBRK)
    ensures forall j :: k - p <= j < m - p ==> !Outer(t, j, RBRC) && !Outer(t, j, COMMA)
  {
    m := k + 1;
    while m < |s| && s[m] != RBRK
      invariant k < m <= |s| && Walk(t, m - p) == Level(Walk(t, k - p).depth, true)
      invariant forall j :: k - p <= j < m - p ==> !Outer(t, j, RBRC) && !Outer(t, j, COMMA)
    {
      m := m + 1;
    }
  }

  /** The first pass: the brace that closes the one in front of place p. */
  method Balance(s: Word, p: nat) returns (missing: int, pe: nat)
    requires p <= |s|
    ensures var t := s[p..]; var k := Close(t, 0);
      if k < |t| then missing == 0 && pe == p + k
      else missing == if Walk(t, |t|).hidden then RBRK else RBRC
  {
    var i := 0;
    ghost var t := s[p..];
    pe := p;
    while pe < |s|
      invariant p <= pe <= |s| && i >= 0 && Walk(t, pe - p) == Level(i, false)
      invariant forall m :: 0 <= m < pe - p ==> !Outer(t, m, RBRC)
    {
      if s[pe] == LBRK {
        pe := SkipBrackets(s, p, pe, t);
        if pe == |s| {
          return RBRK, pe;
        }
      } else if s[pe] == LBRC {
        i := i + 1;
      } else if s[pe] == RBRC {
        if i == 0 {
          assert Outer(t, pe - p, RBRC);
          return 0, pe;
        }
        i := i - 1;
      }
      pe := pe + 1;
    }
    missing := RBRC;
  }

  /** The words, without the null pointer, and room for one more. */
  ghost predicate Stored(nv: seq<Ptr>, ws: seq<Word>) {
    |ws| < |nv| && forall i :: 0 <= i < |ws| ==> nv[i] == Str(ws[i])
  }

  /** An alternative is stored, and the vector made longer when it is full. */
  method Store(nv0: array<Ptr>, vl0: nat, w: Word, ghost ws: seq<Word>) returns (nv: array<Ptr>, vl: nat)
    requires vl0 == |ws| && Stored(nv0[..], ws)
    modifies nv0
    ensures (nv == nv0 || fresh(nv)) && vl == vl0 + 1 && Stored(nv[..], ws + [w])
  {
    nv, vl := nv0, vl0;
    nv[vl] := Str(w);
    vl := vl + 1;
    if vl == nv.Length {
      ghost var was := nv[..];
      nv := Realloc(nv, nv.Length + GLOBSPACE);
      assert forall i :: 0 <= i < |was| ==> nv[i] == was[i];
    }
  }

  lemma {:induction false} WrapMore(head: Word, ps: seq<Word>, w: Word, tail: Word)
    ensures Wrap(head, ps + [w], tail) == Wrap(head, ps, tail) + [head + w + tail]
  {
    if ps != [] {
      assert (ps + [w])[1..] == ps[1..] + [w];
      WrapMore(head, ps[1..], w, tail);
    }
  }

  /** One turn of the second pass, up to the step to the next character: whether a piece ends here, or else how
      deep the place behind is. (Its test for a missing bracket cannot succeed, since the first pass has met
      that bracket.) */
  method Scan(s: Word, p: nat, pm0: nat, i0: nat, pe: nat, ghost t: Word) returns (cut: bool, pm: nat, i: nat)
    requires p <= pm0 <= pe < |s| && t == s[p..] && Close(t, 0) == pe - p && Walk(t, pm0 - p) == Level(i0, false)
    ensures cut ==> pm == pm0 && i == i0 == 0 && (pm < pe ==> Outer(t, pm - p, COMMA) && Walk(t, pm + 1 - p) == TOP)
    ensures !cut ==> pm0 <= pm < pe && Walk(t, pm + 1 - p) == Level(i, false)
    ensures !cut ==> forall j :: pm0 - p <= j < pm + 1 - p ==> !Outer(t, j, COMMA)
  {
    cut, pm, i := false, pm0, i0;
    NotClosed(t, pe - p);
    assert Outer(t, pe - p, RBRC);
    assert pm < pe ==> !Outer(t, pm - p, RBRC);
    if s[pm] == LBRK {
      pm := SkipBrackets(s, p, pm, t);
    } else if s[pm] == LBRC {
      i := i + 1;
    } else if s[pm] == RBRC && i > 0 {
      i := i - 1;
    } else if s[pm] == RBRC || (s[pm] == COMMA && i == 0) {
      cut := true;
    }
  }

  /** The second pass, at place `pm` behind the first brace: the pieces `ps` have been cut, and the next begins
      at `pl`. */
  ghost predicate Splitting(t: Word, ke: nat, ps: seq<Word>, pl: nat, pm: nat, i: nat) {
    && pl <= pm <= ke + 1 && ke < |t|
    && if pm == ke + 1 then Pieces(t, 0, 0, ke) == ps
       else Walk(t, pm) == Level(i, false) && Pieces(t, 0, 0, ke) == ps + Pieces(t, pl, pm, ke)
  }

  lemma SplitCut(t: Word, ke: nat, ps: seq<Word>, pl: nat, pm: nat)
    requires Splitting(t, ke, ps, pl, pm, 0) && pm <= ke && (pm < ke ==> Outer(t, pm, COMMA) && Walk(t, pm + 1) == TOP)
    ensures Splitting(t, ke, ps + [t[pl..pm]], pm + 1, pm + 1, 0)
  {
    PiecesCut(t, pl, pm, ke);
  }

  lemma SplitOn(t: Word, ke: nat, ps: seq<Word>, pl: nat, pm: nat, i: nat, pm': nat, i': nat)
    requires Splitting(t, ke, ps, pl, pm, i) && pm <= pm' < ke && Walk(t, pm' + 1) == Level(i', false)
    requires forall j :: pm <= j < pm' + 1 ==> !Outer(t, j, COMMA)
    ensures Splitting(t, ke, ps, pl, pm' + 1, i')
  {
    PiecesSkip(t, pl, pm, pm' + 1, ke);
  }

  /** One turn of the second pass. */
  method SplitTurn(s: Word, b: nat, pe: nat, nv0: array<Ptr>, vl0: nat, pl0: nat, pm0: nat, i0: nat,
                   ghost ps0: seq<Word>, ghost t: Word)
    returns (nv: array<Ptr>, vl: nat, pl: nat, pm: nat, i: nat, ghost ps: seq<Word>)
    requires b < pe < |s| && t == s[b + 1..] && Close(t, 0) == pe - (b + 1) && b < pl0 && b < pm0 <= pe
    requires Splitting(t, pe - (b + 1), ps0, pl0 - (b + 1), pm0 - (b + 1), i0)
    requires vl0 == |ps0| && Stored(nv0[..], Wrap(s[..b], ps0, s[pe + 1..]))
    modifies nv0
    ensures (nv == nv0 || fresh(nv)) && vl == |ps| && Stored(nv[..], Wrap(s[..b], ps, s[pe + 1..])) && b < pl &&
      pm0 < pm
    ensures Splitting(t, pe - (b + 1), ps, pl - (b + 1), pm - (b + 1), i)
  {
    hide Walk, Wrap, Pieces, Stored;
    var cut, p := false, b + 1;
    nv, vl, pl, ps := nv0, vl0, pl0, ps0;
    cut, pm, i := Scan(s, p, pm0, i0, pe, t);
    if cut {
      ghost var w := t[pl - p..pm - p];
      assert s[pl..pm] == w;
      nv, vl := Store(nv, vl, s[..b] + s[pl..pm] + s[pe + 1..], Wrap(s[..b], ps0, s[pe + 1..]));
      WrapMore(s[..b], ps0, w, s[pe + 1..]);
      SplitCut(t, pe - p, ps0, pl - p, pm - p);
      ps := ps0 + [w];
      pl := pm + 1;
    } else {
      SplitOn(t, pe - p, ps0, pl - p, pm0 - p, i0, pm - p, i);
    }
    pm := pm + 1;
  }

  /** The second pass: what is in the braces is cut at the outermost commas, and each piece is put between what
      is in front of the braces and what is behind them. */
  method Split(s: Word, b: nat, pe: nat) returns (len: nat, nv: array<Ptr>)
    requires b < pe < |s| && Close(s[b + 1..], 0) == pe - (b + 1)
    ensures fresh(nv) && Vector(nv[..], Wrap(s[..b], Pieces(s[b + 1..], 0, 0, pe - (b + 1)), s[pe + 1..]))
    ensures len == |Pieces(s[b + 1..], 0, 0, pe - (b + 1))|
  {
    ghost var t, ps: seq<Word> := s[b + 1..], [];
    assert Walk(t, 0) == TOP && Wrap(s[..b], ps, s[pe + 1..]) == [];
    hide Walk, Wrap, Pieces;
    nv := new Ptr[GLOBSPACE](_ => Null);
    var pl, pm, i := b + 1, b + 1, 0;
    len := 0;
    while pm <= pe
      invariant fresh(nv) && len == |ps| && Stored(nv[..], Wrap(s[..b], ps, s[pe + 1..]))
      invariant b < pl && b < pm && Splitting(t, pe - (b + 1), ps, pl - (b + 1), pm - (b + 1), i)
      decreases pe + 1 - pm
    {
      nv, len, pl, pm, i, ps := SplitTurn(s, b, pe, nv, len, pl, pm, i, ps, t);
    }
    nv[len] := Null;
  }

  /** `globbrace`: the alternatives of a word, in a new vector, or the missing character, negated. */
  method Globbrace(s: Word) returns (len: int, bl: array<Ptr>)
    requires LBRC in s
    ensures fresh(bl)
    ensures match Alternatives(s)
      case Missing(c) => len == -c < 0
      case Ok(ws) => len == |ws| > 0 && Vector(bl[..], ws)
  {
    hide Pieces, Walk, Vector;
    var b := 0;
    while s[b] != LBRC
      invariant b <= First(s)
      decreases |s| - b
    {
      b := b + 1;
    }
    bl := new Ptr[0];
    var missing, pe := Balance(s, b + 1);
    if missing != 0 {
      len := -missing;
    } else {
      len, bl := Split(s, b, pe);
    }
  }

  /** The cells behind place vl, up to place el, move up by len. */
  method MoveUp(nv: array<Ptr>, vl: nat, el: nat, len: nat)
    requires vl <= el && el + len < nv.Length
    modifies nv
    ensures forall k :: 0 <= k <= vl ==> nv[k] == old(nv[k])
    ensures forall k :: vl + len < k <= el + len ==> nv[k] == old(nv[k - len])
  {
    ghost var was := nv[..];
    var bp := el;
    while bp != vl
      invariant vl <= bp <= el && nv.Length == |was|
      invariant forall k :: 0 <= k <= bp ==> nv[k] == was[k]
      invariant forall k :: bp + len < k <= el + len ==> nv[k] == was[k - len]
      decreases bp
    {
      nv[bp + len] := nv[bp];
      bp := bp - 1;
    }
  }

  /** The alternatives but the first are put behind place vl. */
  method CopyIn(nv: array<Ptr>, vl: nat, bl: array<Ptr>, ghost alts: seq<Word>)
    requires Vector(bl[..], alts) && alts != [] && nv != bl && vl + |alts| <= nv.Length
    modifies nv
    ensures forall k :: 0 <= k < nv.Length && !(vl < k < vl + |alts|) ==> nv[k] == old(nv[k])
    ensures forall k :: vl < k < vl + |alts| ==> nv[k] == Str(alts[k - vl])
  {
    ghost var was := nv[..];
    var vp, bp := vl + 1, 1;
    while bl[bp] != Null
      invariant 1 <= bp <= |alts| && vp == vl + bp && nv.Length == |was|
      invariant forall k :: vl < k < vp ==> nv[k] == Str(alts[k - vl])
      invariant forall k :: 0 <= k < nv.Length && !(vl < k < vp) ==> nv[k] == was[k]
      decreases |alts| - bp
    {
      nv[vp] := bl[bp];
      vp, bp := vp + 1, bp + 1;
    }
  }

  lemma Spliced(z: seq<Ptr>, vl: nat, ws: seq<Word>, alts: seq<Word>)
    requires vl < |ws| && alts != [] && |ws| + |alts| <= |z| && z[|ws| + |alts| - 1] == Null
    requires forall k :: 0 <= k < vl ==> z[k] == Str(ws[k])
    requires forall k :: vl <= k < vl + |alts| ==> z[k] == Str(alts[k - vl])
    requires forall k :: vl + |alts| <= k < |ws| + |alts| - 1 ==> z[k] == Str(ws[k - |alts| + 1])
    ensures Vector(z, ws[..vl] + alts + ws[vl + 1..])
  {
  }

  /** The first alternative takes the place of the word, and the words behind it make room for the others. */
  method MakeRoom(nv: array<Ptr>, vl: nat, el: nat, first: Ptr, n: nat, ghost ws: seq<Word>)
    requires Vector(nv[..], ws) && vl < |ws| == el && n > 0 && el + n <= nv.Length
    modifies nv
    ensures nv[vl] == first && nv[el + n - 1] == Null && forall k :: 0 <= k < vl ==> nv[k] == Str(ws[k])
    ensures forall k :: vl + n <= k < el + n - 1 ==> nv[k] == Str(ws[k - n + 1])
  {
    nv[vl] := first;
    MoveUp(nv, vl, el, n - 1);
  }

  /** The word at place vl gives way to its alternatives. */
  method Splice(nv: array<Ptr>, vl: nat, el: nat, bl: array<Ptr>, n: nat, ghost ws: seq<Word>, ghost alts: seq<Word>)
    requires Vector(nv[..], ws) && vl < |ws| == el && Vector(bl[..], alts) && n == |alts| > 0 && nv != bl
    requires el + n <= nv.Length
    modifies nv
    ensures Vector(nv[..], ws[..vl] + alts + ws[vl + 1..])
  {
    MakeRoom(nv, vl, el, bl[0], n, ws);
    CopyIn(nv, vl, bl, alts);
    Spliced(nv[..], vl, ws, alts);
  }

  /** `blklen`. */
  method Blklen(bl: array<Ptr>, ghost ws: seq<Word>) returns (i: nat)
    requires Vector(bl[..], ws)
    ensures i == |ws|
  {
    i := 0;
    while bl[i] != Null
      invariant i <= |ws|
      decreases |ws| - i
    {
      i := i + 1;
    }
  }

  /** The words in front of place vl are done with; with what the others expand to, they make up the goal. */
  ghost predicate Expanding(nv: seq<Ptr>, el: nat, vl: nat, done: seq<Word>, todo: seq<Word>,
    goal: Outcome<seq<Word>>) {
    Vector(nv, done + todo) && vl == |done| && el == |done| + |todo| && goal == Then(Ok(done), ExpandAll(todo))
  }

  lemma KeepWord(done: seq<Word>, todo: seq<Word>)
    requires todo != [] && Untouched(todo[0])
    ensures Then(Ok(done), ExpandAll(todo)) == Then(Ok(done + [todo[0]]), ExpandAll(todo[1..]))
    ensures done + [todo[0]] + todo[1..] == done + todo && TurnsAll(todo[1..]) < TurnsAll(todo)
  {
    assert ExpandAll(todo) == Then(Ok([todo[0]]), ExpandAll(todo[1..]));
    hide Expand, ExpandAll, Turns, Untouched;
    ThenThen(Ok(done), Ok([todo[0]]), ExpandAll(todo[1..]));
    assert Then(Ok(done), Ok([todo[0]])) == Ok(done + [todo[0]]);
    hide Then;
    assert [todo[0]] + todo[1..] == todo;
  }

  lemma ExpandWord(done: seq<Word>, todo: seq<Word>, alts: seq<Word>)
    requires todo != [] && !Untouched(todo[0]) && Alternatives(todo[0]) == Ok(alts)
    ensures ExpandAll(todo) == ExpandAll(alts + todo[1..]) && TurnsAll(alts + todo[1..]) < TurnsAll(todo)
    ensures (done + todo)[..|done|] + alts + (done + todo)[|done| + 1..] == done + (alts + todo[1..])
  {
    ExpandConcat(alts, todo[1..]);
    TurnsConcat(alts, todo[1..]);
    assert (done + todo)[..|done|] == done && (done + todo)[|done| + 1..] == todo[1..];
  }

  lemma MissWord(done: seq<Word>, todo: seq<Word>)
    requires todo != [] && !Untouched(todo[0]) && Alternatives(todo[0]).Missing?
    ensures Then(Ok(done), ExpandAll(todo)) == Missing(Alternatives(todo[0]).c)
  {
  }

  /** The vector is made longer if the alternatives would not fit. */
  method Widen(nv0: array<Ptr>, el: nat, len: nat, ghost ws: seq<Word>) returns (nv: array<Ptr>)
    requires Vector(nv0[..], ws) && el == |ws|
    ensures (nv == nv0 || fresh(nv)) && Vector(nv[..], ws) && el + len <= nv.Length
  {
    nv := nv0;
    if el + len >= nv.Length {
      var l := el + len - nv.Length;
      nv := Realloc(nv0, nv.Length + if GLOBSPACE > l then GLOBSPACE else l);
      assert forall i :: 0 <= i < nv0.Length ==> nv[i] == nv[..nv0.Length][i];
    }
  }

  /** The turn for a word with braces, which leaves the next turn at the same place. */
  method BraceTurn(nv0: array<Ptr>, el0: nat, vl: nat, ghost done: seq<Word>, ghost todo0: seq<Word>,
                   ghost goal: Outcome<seq<Word>>)
    returns (missing: int, nv: array<Ptr>, el: nat, ghost todo: seq<Word>)
    requires todo0 != [] && !Untouched(todo0[0]) && Expanding(nv0[..], el0, vl, done, todo0, goal)
    modifies nv0
    ensures nv == nv0 || fresh(nv)
    ensures missing != 0 ==> goal == Missing(missing)
    ensures missing == 0 ==> Expanding(nv[..], el, vl, done, todo, goal) && TurnsAll(todo) < TurnsAll(todo0)
  {
    nv, el, todo := nv0, el0, todo0;
    ghost var ws := done + todo0;
    var len, bl := Globbrace(nv[vl].s);
    if len < 0 {
      MissWord(done, todo0);
      return -len, nv, el, todo;
    }
    ghost var alts := Alternatives(todo0[0]).value;
    ExpandWord(done, todo0, alts);
    todo := alts + todo0[1..];
    missing := 0;
    if len == 1 {
      nv[vl] := bl[0];
      return;
    }
    var n := Blklen(bl, alts);
    nv := Widen(nv0, el, n, ws);
    Splice(nv, vl, el, bl, n, ws, alts);
    el := el + n - 1;
  }

  /** The test for words that are left alone: no brace, or "{" or "{}" and nothing else. */
  method Alone(s: Word) returns (alone: bool)
    ensures alone == Untouched(s)
  {
    if |s| > 0 && s[0] == LBRC && (|s| == 1 || (s[1] == RBRC && |s| == 2)) {
      assert s == [LBRC] || s == [LBRC, RBRC];
      return true;
    }
    var i := 0;
    while i < |s|
      invariant i <= |s| && LBRC !in s[..i]
    {
      if s[i] == LBRC {
        return false;
      }
      assert s[..i + 1] == s[..i] + [s[i]];
      i := i + 1;
    }
    assert s[..i] == s;
    return true;
  }

  /** `expbrace`: every word of the vector is replaced by the words that it expands to, in place and in order;
      or the character is reported that is missing in the first word that does not expand. The end is looked
      for if it is not known. */
  method Expbrace(nv0: array<Ptr>, known: bool, el0: nat, ghost ws: seq<Word>)
    returns (missing: int, nv: array<Ptr>, el: nat)
    requires Vector(nv0[..], ws) && (known ==> el0 == |ws|)
    modifies nv0
    ensures match ExpandAll(ws)
      case Missing(c) => missing == c != 0
      case Ok(es) => missing == 0 && Vector(nv[..], es) && el == |es|
  {
    nv, el := nv0, el0;
    if !known {
      el := Blklen(nv, ws);
    }
    var vl := 0;
    ghost var done, todo := [], ws;
    assert [] + ws == ws;
    ThenThen(Ok([]), Ok([]), ExpandAll(ws));
    missing := 0;
    while nv[vl] != Null
      invariant Expanding(nv[..], el, vl, done, todo, ExpandAll(ws)) && (nv == nv0 || fresh(nv))
      decreases TurnsAll(todo)
    {
      var alone := Alone(nv[vl].s);
      if alone {
        KeepWord(done, todo);
        done, todo, vl := done + [todo[0]], todo[1..], vl + 1;
      } else {
        missing, nv, el, todo := BraceTurn(nv, el, vl, done, todo, ExpandAll(ws));
        if missing != 0 {
          assert ExpandAll(ws) == Missing(missing);
          return;
        }
      }
    }
    assert done + todo == done;
  }
}
