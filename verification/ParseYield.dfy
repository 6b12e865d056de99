/** What the trees of csh's parser are made of (bin/csh/parse.c): the words of the text, in order, without what holds
    them together. */
module ParseYield {
  import opened Basics
  import opened ParseCommand
  import opened ParseSyntax

  /** Keywords are words that could be anything else as well. */
  ghost predicate Keywords(kind: Word -> Keyword) {
    forall w :: kind(w) != Other ==> Plain(w)
  }

  /** Where a reader of the text is: in a command that begins with a keyword, so deep in its parentheses; and
      whether a command may begin. */
  datatype Reader = Reader(special: bool, l: int, start: bool)

  const FRESH := Reader(false, 0, true)
  const ON := Reader(false, 0, false)

  /** A semicolon, `&`, a newline or `|`. */
  predicate Operates(c: int) {
    c == 59 || c == 38 || c == 10 || c == 124
  }

  /** The place behind an operator: the `&` behind `|` belongs to it. */
  function Behind(ws: seq<Word>, k: nat, j: nat): (n: nat)
    requires k < j <= |ws|
    ensures k < n <= j
  {
    if Char(ws[k], 0) == 124 && Char(ws[k], 1) != 124 && k + 1 < j && Char(ws[k + 1], 0) == 38 then k + 2 else k + 1
  }

  /** The place of the file name of a redirection: behind `<`, or behind `>` and the `&`, `!` or both that follow. */
  function NameAt(ws: seq<Word>, k: nat, j: nat): (n: nat)
    requires k < j <= |ws|
    ensures k < n <= j
  {
    var output := Char(ws[k], 0) == 62;
    var p := if output && k + 1 < j && ws[k + 1] == [38] then k + 1 else k;
    var q := if output && p + 1 < j && ws[p + 1] == [33] then p + 1 else p;
    q + 1
  }

  /** The place behind a redirection. */
  function Redirected(ws: seq<Word>, k: nat, j: nat): (n: nat)
    requires k < j <= |ws|
    ensures k < n <= j
  {
    if NameAt(ws, k, j) < j then NameAt(ws, k, j) + 1 else j
  }

  /** The words from k on without operators, redirections and the parentheses of subshells, read in one pass. In a
      command that begins with a keyword, parentheses and what is in them stay. */
  function Sift(ws: seq<Word>, k: nat, j: nat, kind: Word -> Keyword, s: Reader): seq<Word>
    requires k <= j <= |ws|
    decreases j - k
  {
    if k == j then []
    else
      var w := ws[k];
      var c := Char(w, 0);
      if s.special && s.l > 0 then
        [w] + Sift(ws, k + 1, j, kind, s.(l := if c == 40 then s.l + 1 else if c == 41 then s.l - 1 else s.l))
      else if Operates(c) then Sift(ws, Behind(ws, k, j), j, kind, FRESH)
      else if c == 41 then Sift(ws, k + 1, j, kind, ON)
      else
        var special := if s.start then IsSpecial(ws, k, j, kind) else s.special;
        if c == 40 then
          if special then [w] + Sift(ws, k + 1, j, kind, Reader(true, 1, false)) else Sift(ws, k + 1, j, kind, FRESH)
        else if c == 60 || c == 62 then Sift(ws, Redirected(ws, k, j), j, kind, Reader(special, 0, false))
        else [w] + Sift(ws, k + 1, j, kind, Reader(special, 0, false))
  }

  /** The words of a tree, from left to right. */
  function Yield(t: Tree): seq<Word>
    decreases t, 0
  {
    match t
    case Command(words, _, _, _) => words
    case Paren(sub, _, _, _) => YieldAny(sub)
    case PipeNode(l, r, _) => Yield(l) + Yield(r)
    case ListNode(car, cdr) => YieldAny(car) + YieldAny(cdr)
    case OrNode(l, r) => Yield(l) + Yield(r)
    case AndNode(l, r) => Yield(l) + Yield(r)
  }

  function YieldAny(t: Option<Tree>): seq<Word>
    decreases t, 1
  {
    if t.None? then [] else Yield(t.value)
  }

  /** A command ends here. */
  predicate Ends(ws: seq<Word>, k: nat, j: nat)
    requires k <= j <= |ws|
  {
    k == j || Operates(Char(ws[k], 0)) || Char(ws[k], 0) == RPAR
  }

  /** Where a command ends, it does not matter what the reader has come from. */
  lemma EndsAnyhow(ws: seq<Word>, k: nat, j: nat, kind: Word -> Keyword, s: Reader)
    requires k <= j <= |ws| && Ends(ws, k, j) && !(s.special && s.l > 0)
    ensures Sift(ws, k, j, kind, s) == Sift(ws, k, j, kind, ON)
  {
  }

  /** A keyword is found or not, however much of the text behind the command is looked at. */
  lemma {:induction false} SameKeyword(ws: seq<Word>, i: nat, j: nat, end: nat, kind: Word -> Keyword)
    requires i <= j <= end <= |ws| && Ends(ws, j, end) && Keywords(kind)
    ensures IsSpecial(ws, i, j, kind) == IsSpecial(ws, i, end, kind)
    decreases j - i
  {
    if i < j {
      SameKeyword(ws, i + 1, j, end, kind);
    } else if i < end {
      assert !Plain(ws[i]);
    }
  }

  lemma StartsPlain(ws: seq<Word>, k: nat, j: nat, kind: Word -> Keyword)
    requires k <= j <= |ws| && !IsSpecial(ws, k, j, kind)
    ensures Sift(ws, k, j, kind, FRESH) == Sift(ws, k, j, kind, ON)
  {
  }

  /** A redirection without an error has its file name in the command. */
  lemma OutputIs(ws: seq<Word>, k: nat, j: nat, end: nat, fl: set<Where>, m: Fields)
    requires k < j <= end <= |ws| && Char(ws[k], 0) == GREATER && !Output(ws, k, j, fl, m).0.err
    ensures Redirected(ws, k, end) == Output(ws, k, j, fl, m).1
  {
  }

  lemma InputIs(ws: seq<Word>, k: nat, j: nat, end: nat, fl: set<Where>, m: Fields)
    requires k < j <= end <= |ws| && Char(ws[k], 0) == LESS && !Input(ws, k, j, fl, m).0.err
    ensures Redirected(ws, k, end) == Input(ws, k, j, fl, m).1
  {
  }

  /** Outside of parentheses, a word that is no parenthesis and no redirection is no operator either. */
  lemma NoOperator(ws: seq<Word>, i: nat, k: nat, j: nat, m: Fields)
    requires i <= k < j <= |ws| && Aligned(ws, i, k, m) && m.l == 0 && FreeUpTo(5, ws, i, j) && !RelPar(Char(ws[k], 0))
    ensures !Operates(Char(ws[k], 0))
  {
    StoredIsPlain(ws, i, k, j, {}, m);
  }

  /** A parenthesis is closed only in a group. */
  lemma NotClosing(ws: seq<Word>, i: nat, k: nat, j: nat, m: Fields)
    requires i <= k < j <= |ws| && NoDip(ws, i, j) && Aligned(ws, i, k, m) && m.l == 0
    ensures Char(ws[k], 0) != RPAR
  {
    assert Depth(ws, i, k + 1) >= 0;
  }

  /** The reader at place k of a command, as the second pass is. */
  function At(m: Fields, specp: bool): Reader {
    Reader(specp, if specp then m.l else 0, false)
  }

  /** A turn of the second pass, outside of the parentheses of a subshell, and the reader's step. */
  lemma TurnSifts(ws: seq<Word>, i: nat, k: nat, j: nat, end: nat, specp: bool, fl: set<Where>, m: Fields,
                  kind: Word -> Keyword)
    requires i <= k < j <= end <= |ws| && NoDip(ws, i, j) && Aligned(ws, i, k, m) && FreeUpTo(5, ws, i, j)
    requires !Turn(ws, k, j, specp, fl, m).0.err && if specp then m.l >= 0 else m.l == 0 && Char(ws[k], 0) != LPAR
    ensures var t := Turn(ws, k, j, specp, fl, m);
      Sift(ws, k, end, kind, At(m, specp)) == (if t.2 then [ws[k]] else []) + Sift(ws, t.1, end, kind, At(t.0, specp))
  {
    hide NoDip, Aligned, FreeUpTo, IsSpecial;
    var c := Char(ws[k], 0);
    if m.l == 0 {
      NotClosing(ws, i, k, j, m);
      if c == GREATER {
        OutputIs(ws, k, j, end, fl, m);
      } else if c == LESS {
        InputIs(ws, k, j, end, fl, m);
      } else if c != LPAR {
        NoOperator(ws, i, k, j, m);
      }
    }
  }

  /** A command that begins with a keyword: the second pass stores what the reader finds. */
  lemma {:induction false} SpecialSifts(ws: seq<Word>, i: nat, k: nat, j: nat, end: nat, fl: set<Where>, m: Fields,
                                        kind: Word -> Keyword)
    requires i <= k <= j <= end <= |ws| && NoDip(ws, i, j) && Aligned(ws, i, k, m) && FreeUpTo(5, ws, i, j)
    requires !Fill(ws, k, j, true, fl, m).0.err
    ensures Aligned(ws, i, j, Fill(ws, k, j, true, fl, m).0)
    ensures Sift(ws, k, end, kind, At(m, true)) ==
      Fill(ws, k, j, true, fl, m).1 + Sift(ws, j, end, kind, At(Fill(ws, k, j, true, fl, m).0, true))
    decreases j - k
  {
    hide FreeUpTo, Turn, Sift;
    if k < j {
      var t := Turn(ws, k, j, true, fl, m);
      assert m.l >= 0;
      TurnSifts(ws, i, k, j, end, true, fl, m, kind);
      AlignedTurn(ws, i, k, j, true, fl, m);
      hide Aligned, NoDip;
      SpecialSifts(ws, i, t.1, j, end, fl, t.0, kind);
      Regroup(if t.2 then [ws[k]] else [], Fill(ws, t.1, j, true, fl, t.0).1,
              Sift(ws, j, end, kind, At(Fill(ws, k, j, true, fl, m).0, true)));
    }
  }

  lemma Regroup<T>(a: seq<T>, b: seq<T>, c: seq<T>)
    ensures a + (b + c) == a + b + c && [] + c == c && c + [] == c
  {
  }

  /** Parentheses are found once and for all. */
  lemma {:induction false} GroupStays(ws: seq<Word>, k: nat, j: nat, fl: set<Where>, m: Fields)
    requires k <= j <= |ws| && m.lp.Some? && !Fill(ws, k, j, false, fl, m).0.err
    ensures Fill(ws, k, j, false, fl, m).0.lp == m.lp
    decreases j - k
  {
    if k < j {
      var t := Turn(ws, k, j, false, fl, m);
      GroupStays(ws, t.1, j, fl, t.0);
    }
  }

  /** A part of a command without parentheses. */
  lemma {:induction false} PlainSifts(ws: seq<Word>, i: nat, k: nat, j: nat, end: nat, fl: set<Where>, m: Fields,
                                      kind: Word -> Keyword)
    requires i <= k <= j <= end <= |ws| && NoDip(ws, i, j) && Aligned(ws, i, k, m) && FreeUpTo(5, ws, i, j) && m.l == 0
    requires !Fill(ws, k, j, false, fl, m).0.err && Fill(ws, k, j, false, fl, m).0.lp == m.lp
    ensures Sift(ws, k, end, kind, ON) == Fill(ws, k, j, false, fl, m).1 + Sift(ws, j, end, kind, ON)
    ensures Fill(ws, k, j, false, fl, m).0.rp == m.rp
    decreases j - k
  {
    if k < j {
      var t := Turn(ws, k, j, false, fl, m);
      NoGroup(ws, k, j, fl, m);
      NotClosing(ws, i, k, j, m);
      assert t.0.lp == m.lp && t.0.l == 0 && t.0.rp == m.rp;
      hide FreeUpTo, Turn, Sift;
      TurnSifts(ws, i, k, j, end, false, fl, m, kind);
      AlignedTurn(ws, i, k, j, false, fl, m);
      hide Aligned, NoDip;
      PlainSifts(ws, i, t.1, j, end, fl, t.0, kind);
      Regroup(if t.2 then [ws[k]] else [], Fill(ws, t.1, j, false, fl, t.0).1, Sift(ws, j, end, kind, ON));
    }
  }

  /** If the second pass ends with the group that it has, or without one, no group begins. */
  lemma NoGroup(ws: seq<Word>, k: nat, j: nat, fl: set<Where>, m: Fields)
    requires k < j <= |ws| && m.l == 0 && !Fill(ws, k, j, false, fl, m).0.err
    requires Fill(ws, k, j, false, fl, m).0.lp == m.lp
    ensures Char(ws[k], 0) != LPAR
  {
    if Char(ws[k], 0) == LPAR && m.lp.None? {
      var t := Turn(ws, k, j, false, fl, m);
      GroupStays(ws, t.1, j, fl, t.0);
    }
  }

  /** Behind the beginning of a group: where it ends, and that only redirections follow. */
  lemma {:induction false} GroupSifts(ws: seq<Word>, i: nat, k: nat, j: nat, end: nat, fl: set<Where>, m: Fields,
                                      kind: Word -> Keyword)
    requires i <= k <= j <= end <= |ws| && Balanced(ws, i, j) && Aligned(ws, i, k, m) && FreeUpTo(5, ws, i, j)
    requires m.l > 0 && m.lp.Some? && !Fill(ws, k, j, false, fl, m).0.err && Fill(ws, k, j, false, fl, m).1 == []
    ensures var rp := Fill(ws, k, j, false, fl, m).0.rp; rp.Some? && k <= rp.value < j && Char(ws[rp.value], 0) == RPAR
    ensures var rp := Fill(ws, k, j, false, fl, m).0.rp;
      Sift(ws, rp.value + 1, end, kind, ON) == Sift(ws, j, end, kind, ON)
    decreases j - k
  {
    if k < j {
      var t := Turn(ws, k, j, false, fl, m);
      AlignedTurn(ws, i, k, j, false, fl, m);
      GroupStays(ws, t.1, j, fl, t.0);
      hide FreeUpTo, Sift, Aligned;
      if t.0.l > 0 {
        GroupSifts(ws, i, t.1, j, end, fl, t.0, kind);
      } else {
        PlainSifts(ws, i, t.1, j, end, fl, t.0, kind);
        Regroup([], [], Sift(ws, j, end, kind, ON));
      }
    }
  }

  /** Up to the beginning of a group there are only redirections. */
  lemma {:induction false} BeforeGroup(ws: seq<Word>, i: nat, k: nat, j: nat, end: nat, fl: set<Where>, m: Fields,
                                       kind: Word -> Keyword)
    requires i <= k <= j <= end <= |ws| && Balanced(ws, i, j) && Aligned(ws, i, k, m) && FreeUpTo(5, ws, i, j)
    requires m.l == 0 && m.lp.None? && !Fill(ws, k, j, false, fl, m).0.err && Fill(ws, k, j, false, fl, m).1 == []
    requires Fill(ws, k, j, false, fl, m).0.lp.Some?
    ensures var f := Fill(ws, k, j, false, fl, m).0; f.rp.Some? && k < f.lp.value <= f.rp.value < j
    ensures var f := Fill(ws, k, j, false, fl, m).0; Char(ws[f.rp.value], 0) == RPAR
    ensures var f := Fill(ws, k, j, false, fl, m).0; Sift(ws, k, end, kind, ON) == Sift(ws, f.lp.value, end, kind,
      FRESH)
    ensures var f := Fill(ws, k, j, false, fl, m).0;
      Sift(ws, f.rp.value + 1, end, kind, ON) == Sift(ws, j, end, kind, ON)
    decreases j - k
  {
    hide FreeUpTo, Aligned, Sift, Balanced, NoDip, Depth;
    if k < j {
      var t := Turn(ws, k, j, false, fl, m);
      AlignedTurn(ws, i, k, j, false, fl, m);
      if Char(ws[k], 0) == LPAR {
        GroupStays(ws, t.1, j, fl, t.0);
        GroupBegins(ws, k, end, kind);
        GroupSifts(ws, i, t.1, j, end, fl, t.0, kind);
      } else {
        Unclosed(ws, i, j);
        NotClosing(ws, i, k, j, m);
        assert t.0.l == 0 && t.0.lp == m.lp && !t.2;
        hide Turn, Fill;
        TurnSifts(ws, i, k, j, end, false, fl, m, kind);
        Regroup([], [], Sift(ws, t.1, end, kind, ON));
        BeforeGroup(ws, i, t.1, j, end, fl, t.0, kind);
      }
    }
  }

  lemma GroupBegins(ws: seq<Word>, k: nat, end: nat, kind: Word -> Keyword)
    requires k < end <= |ws| && Char(ws[k], 0) == LPAR
    ensures Sift(ws, k, end, kind, ON) == Sift(ws, k + 1, end, kind, FRESH)
  {
  }

  lemma Unclosed(ws: seq<Word>, i: nat, j: nat)
    requires i <= j <= |ws| && Balanced(ws, i, j)
    ensures NoDip(ws, i, j)
  {
  }

  lemma StartAligned(ws: seq<Word>, i: nat, j: nat)
    requires i <= j <= |ws|
    ensures Aligned(ws, i, i, Start(ws, j))
  {
  }

  /** A command that begins with a keyword. */
  lemma SpecialYield(ws: seq<Word>, i: nat, j: nat, end: nat, fl: set<Where>, kind: Word -> Keyword)
    requires i <= j <= end <= |ws| && Balanced(ws, i, j) && FreeUpTo(5, ws, i, j) && Ends(ws, j, end) && Keywords(kind)
    requires IsSpecial(ws, i, j, kind) && !Simple(ws, i, j, fl, kind).err
    ensures Sift(ws, i, end, kind, FRESH) == Yield(Simple(ws, i, j, fl, kind).t) + Sift(ws, j, end, kind, ON)
  {
    var m := Fill(ws, i, j, true, fl, Start(ws, j)).0;
    SameKeyword(ws, i, j, end, kind);
    assert Plain(ws[i]);
    assert Sift(ws, i, end, kind, FRESH) == Sift(ws, i, end, kind, Reader(true, 0, false));
    assert Simple(ws, i, j, fl, kind).t.words == Fill(ws, i, j, true, fl, Start(ws, j)).1;
    hide FreeUpTo, Sift, Fill, Plain, IsSpecial;
    StartAligned(ws, i, j);
    SpecialSifts(ws, i, i, j, end, fl, Start(ws, j), kind);
    EndsAnyhow(ws, j, end, kind, At(m, true));
  }

  lemma CommandYield(ws: seq<Word>, i: nat, j: nat, end: nat, fl: set<Where>, kind: Word -> Keyword)
    requires i <= j <= end <= |ws| && Balanced(ws, i, j) && FreeUpTo(5, ws, i, j) && Ends(ws, j, end) && Keywords(kind)
    requires !IsSpecial(ws, i, j, kind) && !Simple(ws, i, j, fl, kind).err
    requires Fill(ws, i, j, false, fl, Start(ws, j)).0.lp.None?
    ensures Sift(ws, i, end, kind, FRESH) == Yield(Simple(ws, i, j, fl, kind).t) + Sift(ws, j, end, kind, ON)
  {
    assert Simple(ws, i, j, fl, kind).t.words == Fill(ws, i, j, false, fl, Start(ws, j)).1;
    SameKeyword(ws, i, j, end, kind);
    StartsPlain(ws, i, end, kind);
    hide FreeUpTo, Sift, Fill, IsSpecial;
    StartAligned(ws, i, j);
    PlainSifts(ws, i, i, j, end, fl, Start(ws, j), kind);
  }

  /** The words of the tree that a level of the parser returns without an error are those that the reader finds. */
  lemma {:induction false} SimpleYield(ws: seq<Word>, i: nat, j: nat, end: nat, fl: set<Where>, kind: Word -> Keyword)
    requires i <= j <= end <= |ws| && Balanced(ws, i, j) && FreeUpTo(5, ws, i, j) && Ends(ws, j, end) && Keywords(kind)
    requires !Simple(ws, i, j, fl, kind).err
    ensures Sift(ws, i, end, kind, FRESH) == Yield(Simple(ws, i, j, fl, kind).t) + Sift(ws, j, end, kind, ON)
    decreases j - i, 2
  {
    var m := Fill(ws, i, j, false, fl, Start(ws, j)).0;
    if IsSpecial(ws, i, j, kind) {
      SpecialYield(ws, i, j, end, fl, kind);
    } else if m.lp.None? {
      CommandYield(ws, i, j, end, fl, kind);
    } else {
      GroupYield(ws, i, j, end, fl, kind);
      SimpleGroup(ws, i, j, false, fl);
      hide FreeUpTo, Sift, Fill, IsSpecial, Line;
      LineYield(ws, m.lp.value, m.rp.value, end, {Here}, kind);
    }
  }

  lemma GroupYield(ws: seq<Word>, i: nat, j: nat, end: nat, fl: set<Where>, kind: Word -> Keyword)
    requires i <= j <= end <= |ws| && Balanced(ws, i, j) && FreeUpTo(5, ws, i, j) && Ends(ws, j, end) && Keywords(kind)
    requires !IsSpecial(ws, i, j, kind) && !Simple(ws, i, j, fl, kind).err
    requires Fill(ws, i, j, false, fl, Start(ws, j)).0.lp.Some?
    ensures var m := Fill(ws, i, j, false, fl, Start(ws, j)).0;
      && m.rp.Some? && i < m.lp.value <= m.rp.value < j && Ends(ws, m.rp.value, end)
      && Sift(ws, i, end, kind, FRESH) == Sift(ws, m.lp.value, end, kind, FRESH)
      && Sift(ws, m.rp.value, end, kind, ON) == Sift(ws, j, end, kind, ON)
  {
    hide FreeUpTo, Fill;
    SameKeyword(ws, i, j, end, kind);
    StartsPlain(ws, i, end, kind);
    StartAligned(ws, i, j);
    BeforeGroup(ws, i, i, j, end, fl, Start(ws, j), kind);
    hide IsSpecial;
  }

  lemma PipesIs(ws: seq<Word>, i: nat, j: nat, fl: set<Where>, kind: Word -> Keyword)
    requires i <= j <= |ws| && Balanced(ws, i, j) && FreeUpTo(4, ws, i, j)
    ensures var k := FirstTop(Pipe, ws, i, i, j);
      if k == j then FreeUpTo(5, ws, i, j) && Pipes(ws, i, j, fl, kind) == Simple(ws, i, j, fl, kind)
      else
        var both := Both(ws, k, j);
        var p := if both then k + 2 else k + 1;
        && Top(Pipe, ws, i, k) && Balanced(ws, i, k) && FreeUpTo(5, ws, i, k)
        && p <= j && Balanced(ws, p, j) && FreeUpTo(4, ws, p, j)
        && var a := Simple(ws, i, k, fl + (if both then {Out, Err} else {Out}), kind);
           var b := Pipes(ws, p, j, fl + {In}, kind);
           Pipes(ws, i, j, fl, kind) == Outcome(PipeNode(a.t, b.t, if both then {StdErr} else {}), a.err || b.err)
  {
    hide Simple;
    LeftPart(4, ws, i, j);
    if FirstTop(Pipe, ws, i, i, j) < j {
      PipeRight(ws, i, j);
    }
  }

  lemma {:induction false} PipesYield(ws: seq<Word>, i: nat, j: nat, end: nat, fl: set<Where>, kind: Word -> Keyword)
    requires i <= j <= end <= |ws| && Balanced(ws, i, j) && FreeUpTo(4, ws, i, j) && Ends(ws, j, end) && Keywords(kind)
    requires !Pipes(ws, i, j, fl, kind).err
    ensures Sift(ws, i, end, kind, FRESH) == Yield(Pipes(ws, i, j, fl, kind).t) + Sift(ws, j, end, kind, ON)
    decreases j - i, 3
  {
    hide Pipes, Simple, FirstTop, FreeUpTo, Balanced, Sift, Top, Keywords, Ends, Both;
    PipesIs(ws, i, j, fl, kind);
    var k := FirstTop(Pipe, ws, i, i, j);
    if k == j {
      SimpleYield(ws, i, j, end, fl, kind);
    } else {
      var both := Both(ws, k, j);
      var p := if both then k + 2 else k + 1;
      var fa, fb := fl + (if both then {Out, Err} else {Out}), fl + {In};
      BehindPipe(ws, i, k, j, end, fb, kind);
      SimpleYield(ws, i, k, end, fa, kind);
      PipesYield(ws, p, j, end, fb, kind);
      Regroup(Yield(Simple(ws, i, k, fa, kind).t), Yield(Pipes(ws, p, j, fb, kind).t), Sift(ws, j, end, kind, ON));
    }
  }

  /** A command without words is an error. */
  lemma NothingErrs(ws: seq<Word>, j: nat, fl: set<Where>, kind: Word -> Keyword)
    requires j <= |ws| && Balanced(ws, j, j) && FreeUpTo(4, ws, j, j)
    ensures Pipes(ws, j, j, fl, kind).err
  {
    assert Fill(ws, j, j, false, fl, Start(ws, j)) == (Start(ws, j), []);
    assert FreeUpTo(5, ws, j, j) && Simple(ws, j, j, fl, kind).err;
  }

  /** So something follows a pipe, and it is seen whether that is `&`. */
  lemma BehindPipe(ws: seq<Word>, i: nat, k: nat, j: nat, end: nat, fl: set<Where>, kind: Word -> Keyword)
    requires i <= k < j <= end <= |ws| && Top(Pipe, ws, i, k) && FreeUpTo(4, ws, i, j)
    requires !Both(ws, k, j) ==>
      Balanced(ws, k + 1, j) && FreeUpTo(4, ws, k + 1, j) && !Pipes(ws, k + 1, j, fl, kind).err
    ensures var n := if Both(ws, k, j) then k + 2 else k + 1;
      Ends(ws, k, end) && Sift(ws, k, end, kind, ON) == Sift(ws, n, end, kind, FRESH)
  {
    hide Pipes;
    assert !Top(Or, ws, i, k);
    if k + 1 == j {
      NothingErrs(ws, j, fl, kind);
    }
  }

  lemma BehindOperator(op: Operator, ws: seq<Word>, i: nat, k: nat, j: nat, end: nat, kind: Word -> Keyword)
    requires i <= k < j <= end <= |ws| && Top(op, ws, i, k) && (op == And || op == Or || op == Sequence)
    ensures Ends(ws, k, end) && Sift(ws, k, end, kind, ON) == Sift(ws, k + 1, end, kind, FRESH)
  {
  }

  lemma AndsIs(ws: seq<Word>, i: nat, j: nat, fl: set<Where>, kind: Word -> Keyword)
    requires i <= j <= |ws| && Balanced(ws, i, j) && FreeUpTo(3, ws, i, j)
    ensures var k := FirstTop(And, ws, i, i, j);
      if k == j then FreeUpTo(4, ws, i, j) && Ands(ws, i, j, fl, kind) == Pipes(ws, i, j, fl, kind)
      else
        && Top(And, ws, i, k) && Balanced(ws, i, k) && FreeUpTo(4, ws, i, k)
        && Balanced(ws, k + 1, j) && FreeUpTo(3, ws, k + 1, j)
        && var a, b := Pipes(ws, i, k, fl, kind), Ands(ws, k + 1, j, fl, kind);
           Ands(ws, i, j, fl, kind) == Outcome(AndNode(a.t, b.t), a.err || b.err)
  {
    hide Pipes;
    LeftPart(3, ws, i, j);
    var k := FirstTop(And, ws, i, i, j);
    if k < j {
      RightPart(3, ws, i, k + 1, j);
    }
  }

  lemma {:induction false} AndsYield(ws: seq<Word>, i: nat, j: nat, end: nat, fl: set<Where>, kind: Word -> Keyword)
    requires i <= j <= end <= |ws| && Balanced(ws, i, j) && FreeUpTo(3, ws, i, j) && Ends(ws, j, end) && Keywords(kind)
    requires !Ands(ws, i, j, fl, kind).err
    ensures Sift(ws, i, end, kind, FRESH) == Yield(Ands(ws, i, j, fl, kind).t) + Sift(ws, j, end, kind, ON)
    decreases j - i, 4
  {
    hide Ands, Pipes, FirstTop, FreeUpTo, Balanced, Sift, Top, Keywords, Ends;
    AndsIs(ws, i, j, fl, kind);
    var k := FirstTop(And, ws, i, i, j);
    if k == j {
      PipesYield(ws, i, j, end, fl, kind);
    } else {
      BehindOperator(And, ws, i, k, j, end, kind);
      PipesYield(ws, i, k, end, fl, kind);
      AndsYield(ws, k + 1, j, end, fl, kind);
      Regroup(Yield(Pipes(ws, i, k, fl, kind).t), Yield(Ands(ws, k + 1, j, fl, kind).t), Sift(ws, j, end, kind, ON));
    }
  }

  lemma OrsIs(ws: seq<Word>, i: nat, j: nat, fl: set<Where>, kind: Word -> Keyword)
    requires i <= j <= |ws| && Balanced(ws, i, j) && FreeUpTo(2, ws, i, j)
    ensures var k := FirstTop(Or, ws, i, i, j);
      if k == j then FreeUpTo(3, ws, i, j) && Ors(ws, i, j, fl, kind) == Ands(ws, i, j, fl, kind)
      else
        && Top(Or, ws, i, k) && Balanced(ws, i, k) && FreeUpTo(3, ws, i, k)
        && Balanced(ws, k + 1, j) && FreeUpTo(2, ws, k + 1, j)
        && var a, b := Ands(ws, i, k, fl, kind), Ors(ws, k + 1, j, fl, kind);
           Ors(ws, i, j, fl, kind) == Outcome(OrNode(a.t, b.t), a.err || b.err)
  {
    hide Ands;
    LeftPart(2, ws, i, j);
    var k := FirstTop(Or, ws, i, i, j);
    if k < j {
      RightPart(2, ws, i, k + 1, j);
    }
  }

  lemma {:induction false} OrsYield(ws: seq<Word>, i: nat, j: nat, end: nat, fl: set<Where>, kind: Word -> Keyword)
    requires i <= j <= end <= |ws| && Balanced(ws, i, j) && FreeUpTo(2, ws, i, j) && Ends(ws, j, end) && Keywords(kind)
    requires !Ors(ws, i, j, fl, kind).err
    ensures Sift(ws, i, end, kind, FRESH) == Yield(Ors(ws, i, j, fl, kind).t) + Sift(ws, j, end, kind, ON)
    decreases j - i, 5
  {
    hide Ors, Ands, FirstTop, FreeUpTo, Balanced, Sift, Top, Keywords, Ends;
    OrsIs(ws, i, j, fl, kind);
    var k := FirstTop(Or, ws, i, i, j);
    if k == j {
      AndsYield(ws, i, j, end, fl, kind);
    } else {
      BehindOperator(Or, ws, i, k, j, end, kind);
      AndsYield(ws, i, k, end, fl, kind);
      OrsYield(ws, k + 1, j, end, fl, kind);
      Regroup(Yield(Ands(ws, i, k, fl, kind).t), Yield(Ors(ws, k + 1, j, fl, kind).t), Sift(ws, j, end, kind, ON));
    }
  }

  lemma JobsIs(ws: seq<Word>, i: nat, j: nat, fl: set<Where>, kind: Word -> Keyword)
    requires i <= j <= |ws| && Balanced(ws, i, j) && FreeUpTo(1, ws, i, j)
    ensures var k := FirstTop(Sequence, ws, i, i, j);
      if k == j then FreeUpTo(2, ws, i, j) && Jobs(ws, i, j, fl, kind) == Ors(ws, i, j, fl, kind)
      else
        && Top(Sequence, ws, i, k) && Balanced(ws, i, k) && FreeUpTo(2, ws, i, k) && NoDip(ws, k + 1, j)
        && var a, b := Ors(ws, i, k, fl, kind), Text(ws, k + 1, j, fl, kind);
           Jobs(ws, i, j, fl, kind) ==
           Outcome(if b.t == None then ListNode(None, Some(a.t)) else ListNode(Some(a.t), b.t), a.err || b.err)
  {
    hide Ors, Text;
    LeftPart(1, ws, i, j);
    var k := FirstTop(Sequence, ws, i, i, j);
    if k < j {
      RightPart(1, ws, i, k + 1, j);
    }
  }

  lemma {:induction false} JobsYield(ws: seq<Word>, i: nat, j: nat, end: nat, fl: set<Where>, kind: Word -> Keyword)
    requires i <= j <= end <= |ws| && Balanced(ws, i, j) && FreeUpTo(1, ws, i, j) && Ends(ws, j, end) && Keywords(kind)
    requires !Jobs(ws, i, j, fl, kind).err
    ensures Sift(ws, i, end, kind, FRESH) == Yield(Jobs(ws, i, j, fl, kind).t) + Sift(ws, j, end, kind, ON)
    decreases j - i, 6
  {
    hide Jobs, Ors, Text, FirstTop, FreeUpTo, Balanced, NoDip, Sift, Top, Keywords, Ends;
    JobsIs(ws, i, j, fl, kind);
    var k := FirstTop(Sequence, ws, i, i, j);
    if k == j {
      OrsYield(ws, i, j, end, fl, kind);
    } else {
      BehindOperator(Sequence, ws, i, k, j, end, kind);
      OrsYield(ws, i, k, end, fl, kind);
      TextYield(ws, k + 1, j, end, fl, kind);
      var a, b := Ors(ws, i, k, fl, kind).t, Text(ws, k + 1, j, fl, kind).t;
      Regroup(Yield(a), YieldAny(b), Sift(ws, j, end, kind, ON));
      Regroup(Yield(a), [], []);
      Regroup([], [], Yield(a));
    }
  }

  lemma {:induction false} LineYield(ws: seq<Word>, i: nat, j: nat, end: nat, fl: set<Where>, kind: Word -> Keyword)
    requires i <= j <= end <= |ws| && NoDip(ws, i, j) && Ends(ws, j, end) && Keywords(kind)
    requires !Line(ws, i, j, fl, kind).err
    ensures Sift(ws, i, end, kind, FRESH) == YieldAny(Line(ws, i, j, fl, kind).t) + Sift(ws, j, end, kind, ON)
    decreases j - i, if i < j && Separator(Char(ws[i], 0)) then 9 else 7
  {
    LeftPart(0, ws, i, j);
    var k := FirstTop(Background, ws, i, i, j);
    if k == j {
      hide Sift, Jobs;
      JobsYield(ws, i, j, end, fl, kind);
    } else {
      BalancedPart(ws, i, k, j, j);
      assert Ends(ws, k, end) && Sift(ws, k, end, kind, ON) == Sift(ws, k, end, kind, FRESH);
      var a := Jobs(ws, i, k, fl, kind).t;
      var b := Text(ws, k, j, fl, kind).t;
      assert Yield(InBackground(a)) == Yield(a);
      assert YieldAny(Some(ListNode(Some(InBackground(a)), b))) == YieldAny(Some(InBackground(a))) + YieldAny(b);
      hide Sift, Jobs, Text, FreeUpTo, InBackground;
      JobsYield(ws, i, k, end, fl, kind);
      TextYield(ws, k, j, end, fl, kind);
      Regroup(Yield(a), YieldAny(b), Sift(ws, j, end, kind, ON));
    }
  }

  lemma {:induction false} TextYield(ws: seq<Word>, i: nat, j: nat, end: nat, fl: set<Where>, kind: Word -> Keyword)
    requires i <= j <= end <= |ws| && NoDip(ws, i, j) && Ends(ws, j, end) && Keywords(kind)
    requires !Text(ws, i, j, fl, kind).err
    ensures Sift(ws, i, end, kind, FRESH) == YieldAny(Text(ws, i, j, fl, kind).t) + Sift(ws, j, end, kind, ON)
    decreases j - i, 8
  {
    if i == j {
      EndsAnyhow(ws, i, end, kind, FRESH);
      Regroup([], [], Sift(ws, j, end, kind, ON));
    } else if Separator(Char(ws[i], 0)) {
      BalancedPart(ws, i, i + 1, j, j);
      TextYield(ws, i + 1, j, end, fl, kind);
    } else {
      hide Sift, Line;
      LineYield(ws, i, j, end, fl, kind);
    }
  }

  /** The words of the tree that `syntax` makes of a text without an error are those of the text, in order, but for
      operators, redirections and the parentheses of subshells. */
  lemma SyntaxYield(ws: seq<Word>, fl: set<Where>, kind: Word -> Keyword)
    requires NoDip(ws, 0, |ws|) && Keywords(kind) && !Text(ws, 0, |ws|, fl, kind).err
    ensures YieldAny(Text(ws, 0, |ws|, fl, kind).t) == Sift(ws, 0, |ws|, kind, FRESH)
  {
    TextYield(ws, 0, |ws|, |ws|, fl, kind);
    Regroup([], [], YieldAny(Text(ws, 0, |ws|, fl, kind).t));
  }

  /** How far up in the order of the operators a tree belongs. */
  function Rank(t: Tree): nat {
    match t
    case Command(_, _, _, _) => 0
    case Paren(_, _, _, _) => 0
    case PipeNode(_, _, _) => 1
    case AndNode(_, _) => 2
    case OrNode(_, _) => 3
    case ListNode(_, _) => 4
  }

  /** A tree as the grammar has it: weaker operators above stronger ones, a command in every pair of parentheses, and
      every command has words, which are plain unless it begins with a keyword. */
  ghost predicate Shaped(t: Tree, kind: Word -> Keyword)
    decreases t, 0
  {
    match t
    case Command(words, _, _, _) =>
      words != [] && (IsSpecial(words, 0, |words|, kind) || forall w <- words :: Plain(w))
    case Paren(sub, _, _, _) => sub.Some? && ShapedAny(sub, kind)
    case PipeNode(l, r, _) => Rank(l) == 0 && Rank(r) <= 1 && Shaped(l, kind) && Shaped(r, kind)
    case AndNode(l, r) => Rank(l) <= 1 && Rank(r) <= 2 && Shaped(l, kind) && Shaped(r, kind)
    case OrNode(l, r) => Rank(l) <= 2 && Rank(r) <= 3 && Shaped(l, kind) && Shaped(r, kind)
    case ListNode(car, cdr) => (car.Some? ==> Rank(car.value) <= 3) && ShapedAny(car, kind) && ShapedAny(cdr, kind)
  }

  ghost predicate ShapedAny(t: Option<Tree>, kind: Word -> Keyword)
    decreases t, 1
  {
    t.Some? ==> Shaped(t.value, kind)
  }

  lemma {:induction false} SpecialShift(a: seq<Word>, b: seq<Word>, i: nat, kind: Word -> Keyword)
    requires i <= |b|
    ensures IsSpecial(a + b, |a| + i, |a + b|, kind) == IsSpecial(b, i, |b|, kind)
    decreases |b| - i
  {
    if i < |b| {
      SpecialShift(a, b, i + 1, kind);
    }
  }

  /** The keyword of a command is among its words. */
  lemma {:induction false} SpecialWords(ws: seq<Word>, i: nat, j: nat, fl: set<Where>, m: Fields, kind: Word -> Keyword)
    requires i <= j <= |ws| && IsSpecial(ws, i, j, kind) && Keywords(kind) && m.l == 0
    ensures var words := Fill(ws, i, j, true, fl, m).1; IsSpecial(words, 0, |words|, kind)
    decreases j - i
  {
    assert Plain(ws[i]);
    var words := Fill(ws, i + 1, j, true, fl, m).1;
    assert Fill(ws, i, j, true, fl, m).1 == [ws[i]] + words;
    hide Fill;
    if kind(ws[i]) == Else {
      SpecialWords(ws, i + 1, j, fl, m, kind);
      SpecialShift([ws[i]], words, 0, kind);
    }
  }

  lemma CommandShaped(ws: seq<Word>, i: nat, j: nat, fl: set<Where>, kind: Word -> Keyword)
    requires i <= j <= |ws| && Balanced(ws, i, j) && FreeUpTo(5, ws, i, j) && Keywords(kind)
    requires !Simple(ws, i, j, fl, kind).err && Simple(ws, i, j, fl, kind).t.Command?
    ensures Shaped(Simple(ws, i, j, fl, kind).t, kind)
  {
    if IsSpecial(ws, i, j, kind) {
      hide Fill;
      SpecialWords(ws, i, j, fl, Start(ws, j), kind);
    } else {
      hide Fill, Plain;
      SimpleIsPlain(ws, i, j, fl, kind);
    }
  }

  /** So are the trees that the levels of the parser return without an error. */
  lemma {:induction false} SimpleShaped(ws: seq<Word>, i: nat, j: nat, fl: set<Where>, kind: Word -> Keyword)
    requires i <= j <= |ws| && Balanced(ws, i, j) && FreeUpTo(5, ws, i, j) && Keywords(kind)
    requires !Simple(ws, i, j, fl, kind).err
    ensures var t := Simple(ws, i, j, fl, kind).t; Shaped(t, kind) && Rank(t) == 0
    decreases j - i, 2
  {
    hide Fill, FreeUpTo;
    if Simple(ws, i, j, fl, kind).t.Command? {
      CommandShaped(ws, i, j, fl, kind);
    } else {
      SimpleGroup(ws, i, j, false, fl);
      var m := Fill(ws, i, j, false, fl, Start(ws, j)).0;
      LineShaped(ws, m.lp.value, m.rp.value, {Here}, kind);
    }
  }

  lemma {:induction false} PipesShaped(ws: seq<Word>, i: nat, j: nat, fl: set<Where>, kind: Word -> Keyword)
    requires i <= j <= |ws| && Balanced(ws, i, j) && FreeUpTo(4, ws, i, j) && Keywords(kind)
    requires !Pipes(ws, i, j, fl, kind).err
    ensures var t := Pipes(ws, i, j, fl, kind).t; Shaped(t, kind) && Rank(t) <= 1
    decreases j - i, 3
  {
    hide Pipes, Simple, FirstTop, FreeUpTo, Balanced, Top, Keywords, Both;
    PipesIs(ws, i, j, fl, kind);
    var k := FirstTop(Pipe, ws, i, i, j);
    if k == j {
      SimpleShaped(ws, i, j, fl, kind);
    } else {
      var both := Both(ws, k, j);
      SimpleShaped(ws, i, k, fl + (if both then {Out, Err} else {Out}), kind);
      PipesShaped(ws, if both then k + 2 else k + 1, j, fl + {In}, kind);
    }
  }

  lemma {:induction false} AndsShaped(ws: seq<Word>, i: nat, j: nat, fl: set<Where>, kind: Word -> Keyword)
    requires i <= j <= |ws| && Balanced(ws, i, j) && FreeUpTo(3, ws, i, j) && Keywords(kind)
    requires !Ands(ws, i, j, fl, kind).err
    ensures var t := Ands(ws, i, j, fl, kind).t; Shaped(t, kind) && Rank(t) <= 2
    decreases j - i, 4
  {
    hide Ands, Pipes, FirstTop, FreeUpTo, Balanced, Top, Keywords;
    AndsIs(ws, i, j, fl, kind);
    var k := FirstTop(And, ws, i, i, j);
    PipesShaped(ws, i, k, fl, kind);
    if k < j {
      AndsShaped(ws, k + 1, j, fl, kind);
    }
  }

  lemma {:induction false} OrsShaped(ws: seq<Word>, i: nat, j: nat, fl: set<Where>, kind: Word -> Keyword)
    requires i <= j <= |ws| && Balanced(ws, i, j) && FreeUpTo(2, ws, i, j) && Keywords(kind)
    requires !Ors(ws, i, j, fl, kind).err
    ensures var t := Ors(ws, i, j, fl, kind).t; Shaped(t, kind) && Rank(t) <= 3
    decreases j - i, 5
  {
    hide Ors, Ands, FirstTop, FreeUpTo, Balanced, Top, Keywords;
    OrsIs(ws, i, j, fl, kind);
    var k := FirstTop(Or, ws, i, i, j);
    AndsShaped(ws, i, k, fl, kind);
    if k < j {
      OrsShaped(ws, k + 1, j, fl, kind);
    }
  }

  lemma {:induction false} JobsShaped(ws: seq<Word>, i: nat, j: nat, fl: set<Where>, kind: Word -> Keyword)
    requires i <= j <= |ws| && Balanced(ws, i, j) && FreeUpTo(1, ws, i, j) && Keywords(kind)
    requires !Jobs(ws, i, j, fl, kind).err
    ensures Shaped(Jobs(ws, i, j, fl, kind).t, kind)
    decreases j - i, 6
  {
    hide Jobs, Ors, Text, FirstTop, FreeUpTo, Balanced, NoDip, Top, Keywords;
    JobsIs(ws, i, j, fl, kind);
    var k := FirstTop(Sequence, ws, i, i, j);
    OrsShaped(ws, i, k, fl, kind);
    if k < j {
      TextShaped(ws, k + 1, j, fl, kind);
    }
  }

  lemma BackgroundShaped(t: Tree, kind: Word -> Keyword)
    requires Shaped(t, kind)
    ensures Shaped(InBackground(t), kind) && Rank(InBackground(t)) <= 1
  {
  }

  lemma {:induction false} LineShaped(ws: seq<Word>, i: nat, j: nat, fl: set<Where>, kind: Word -> Keyword)
    requires i <= j <= |ws| && NoDip(ws, i, j) && Keywords(kind) && !Line(ws, i, j, fl, kind).err
    ensures Line(ws, i, j, fl, kind).t.Some? && Shaped(Line(ws, i, j, fl, kind).t.value, kind)
    decreases j - i, if i < j && Separator(Char(ws[i], 0)) then 9 else 7
  {
    hide Jobs, Text, FreeUpTo, InBackground, Keywords;
    LeftPart(0, ws, i, j);
    var k := FirstTop(Background, ws, i, i, j);
    JobsShaped(ws, i, k, fl, kind);
    if k < j {
      BalancedPart(ws, i, k, j, j);
      BackgroundShaped(Jobs(ws, i, k, fl, kind).t, kind);
      TextShaped(ws, k, j, fl, kind);
    }
  }

  lemma {:induction false} TextShaped(ws: seq<Word>, i: nat, j: nat, fl: set<Where>, kind: Word -> Keyword)
    requires i <= j <= |ws| && NoDip(ws, i, j) && Keywords(kind) && !Text(ws, i, j, fl, kind).err
    ensures ShapedAny(Text(ws, i, j, fl, kind).t, kind)
    decreases j - i, 8
  {
    if i < j {
      if Separator(Char(ws[i], 0)) {
        BalancedPart(ws, i, i + 1, j, j);
        TextShaped(ws, i + 1, j, fl, kind);
      } else {
        hide Line;
        LineShaped(ws, i, j, fl, kind);
      }
    }
  }
}
