/** The simple commands of csh's parser: two passes over the words, one that counts and one that stores
    (`syn3` of bin/csh/parse.c). */
module ParseCommand {
  import opened Basics

  const LPAR := 40
  const RPAR := 41
  const LESS := 60
  const GREATER := 62
  const AMPERSAND: Word := [38]
  const BANG: Word := [33]

  function Char(w: Word, i: nat): int {
    if i < |w| then w[i] else 0
  }

  predicate Angle(c: int) {
    c == LESS || c == GREATER
  }

  /** `any(RELPAR, c)`. */
  predicate RelPar(c: int) {
    c == LESS || c == GREATER || c == LPAR || c == RPAR
  }

  datatype Flag = Amp | Append | NoFork | NoInterrupt | StdErr | Overwrite | Read

  /** What a command is told about its surroundings. */
  datatype Where = Here | In | Out | Err

  /** The state of the second pass: the parentheses that enclose a subshell, the depth, and what has been filled
      in of the command. */
  datatype Fields = Fields(lp: Option<nat>, rp: Option<nat>, l: int, lef: Option<Word>, rit: Option<Word>,
                           flags: set<Flag>, err: bool)

  /** The first pass: the room for words, counted from place k on, at depth l. In a command that begins with a
      keyword, what is in parentheses counts like the rest. */
  function Count(ws: seq<Word>, k: nat, j: nat, specp: bool, l: int): int
    requires k <= j <= |ws|
    decreases j - k
  {
    if k == j then 0
    else
      var c := Char(ws[k], 0);
      if c == LPAR || c == RPAR then
        (if specp then 1 else 0) + Count(ws, k + 1, j, specp, if c == LPAR then l + 1 else l - 1)
      else if Angle(c) && l == 0 then
        (if k + 1 < j && !RelPar(Char(ws[k + 1], 0)) then -1 else 0) + Count(ws, k + 1, j, specp, l)
      else
        (if l == 0 || specp then 1 else 0) + Count(ws, k + 1, j, specp, l)
  }

  /** A redirection of the output, at place k: its modifiers and its file name, and the place behind it. */
  function Output(ws: seq<Word>, k: nat, j: nat, fl: set<Where>, m: Fields): (r: (Fields, nat))
    requires k < j <= |ws|
    ensures k < r.1 <= j && r.0.l == m.l && r.0.lp == m.lp && r.0.rp == m.rp && (m.err ==> r.0.err)
  {
    var f := if Char(ws[k], 1) == GREATER then m.flags + {Append} else m.flags;
    var amp := k + 1 < j && ws[k + 1] == AMPERSAND;
    var f1, p := if amp then f + {StdErr} else f, if amp then k + 1 else k;
    if amp && (Out in fl || Err in fl) then (m.(flags := f1, err := true), p + 1)
    else
      var bang := p + 1 < j && ws[p + 1] == BANG;
      var f2, q := if bang then f1 + {Overwrite} else f1, if bang then p + 1 else p;
      if q + 1 == j then (m.(flags := f2, err := true), q + 1)
      else if RelPar(Char(ws[q + 1], 0)) then (m.(flags := f2, err := true), q + 2)
      else if (Out in fl && Err !in fl) || m.rit.Some? then (m.(flags := f2, err := true), q + 2)
      else (m.(flags := f2, rit := Some(ws[q + 1])), q + 2)
  }

  /** A redirection of the input. */
  function Input(ws: seq<Word>, k: nat, j: nat, fl: set<Where>, m: Fields): (r: (Fields, nat))
    requires k < j <= |ws|
    ensures k < r.1 <= j && r.0.l == m.l && r.0.lp == m.lp && r.0.rp == m.rp && (m.err ==> r.0.err)
  {
    var f := if Char(ws[k], 1) == LESS then m.flags + {Read} else m.flags;
    if k + 1 == j then (m.(flags := f, err := true), k + 1)
    else if RelPar(Char(ws[k + 1], 0)) then (m.(flags := f, err := true), k + 2)
    else if (Here in fl && Read in f) || In in fl || m.lef.Some? then (m.(flags := f, err := true), k + 2)
    else (m.(flags := f, lef := Some(ws[k + 1])), k + 2)
  }

  /** One turn of the second pass, at place k: the new state, the next place, and whether the word is stored. */
  function Turn(ws: seq<Word>, k: nat, j: nat, specp: bool, fl: set<Where>, m: Fields): (r: (Fields, nat, bool))
    requires k < j <= |ws|
    ensures k < r.1 <= j && (m.err ==> r.0.err)
  {
    var c := Char(ws[k], 0);
    if c == LPAR then
      var m1 := if m.l == 0 then m.(err := m.err || (m.lp.Some? && !specp), lp := Some(k + 1)) else m;
      (m1.(l := m.l + 1), k + 1, specp)
    else if c == RPAR then
      (m.(l := m.l - 1, rp := if m.l - 1 == 0 then Some(k) else m.rp), k + 1, specp)
    else if c == GREATER && m.l == 0 then
      var r := Output(ws, k, j, fl, m);
      (r.0, r.1, false)
    else if c == LESS && m.l == 0 then
      var r := Input(ws, k, j, fl, m);
      (r.0, r.1, false)
    else
      (m, k + 1, m.l == 0 || specp)
  }

  /** The whole second pass from place k on: the state behind it and the words it stores. */
  function Fill(ws: seq<Word>, k: nat, j: nat, specp: bool, fl: set<Where>, m: Fields): (r: (Fields, seq<Word>))
    requires k <= j <= |ws|
    ensures m.err ==> r.0.err
    decreases j - k
  {
    if k == j then (m, [])
    else
      var t := Turn(ws, k, j, specp, fl, m);
      var r := Fill(ws, t.1, j, specp, fl, t.0);
      (r.0, (if t.2 then [ws[k]] else []) + r.1)
  }

  /** From any place on, the count is not negative: what a redirection takes off, its file name puts back. */
  lemma {:induction false} CountNatural(ws: seq<Word>, k: nat, j: nat, specp: bool, l: int)
    requires k <= j <= |ws|
    ensures Count(ws, k, j, specp, l) >= 0
    decreases j - k
  {
    if k < j {
      var c := Char(ws[k], 0);
      if Angle(c) && l == 0 && k + 1 < j && !RelPar(Char(ws[k + 1], 0)) {
        assert Count(ws, k + 1, j, specp, l) == 1 + Count(ws, k + 2, j, specp, l);
        CountNatural(ws, k + 2, j, specp, l);
      } else {
        CountNatural(ws, k + 1, j, specp, if c == LPAR then l + 1 else if c == RPAR then l - 1 else l);
      }
    }
  }

  /** A turn without an error takes as much off the count as it stores, or more. */
  lemma TurnCount(ws: seq<Word>, k: nat, j: nat, specp: bool, fl: set<Where>, m: Fields)
    requires k < j <= |ws| && !Turn(ws, k, j, specp, fl, m).0.err
    ensures var t := Turn(ws, k, j, specp, fl, m);
      Count(ws, t.1, j, specp, t.0.l) + (if t.2 then 1 else 0) <= Count(ws, k, j, specp, m.l)
  {
    var c := Char(ws[k], 0);
    if c == GREATER && m.l == 0 {
      OutputCount(ws, k, j, specp, fl, m);
    } else if c == LESS && m.l == 0 {
      assert Count(ws, k + 1, j, specp, 0) == 1 + Count(ws, k + 2, j, specp, 0);
    }
  }

  lemma OutputCount(ws: seq<Word>, k: nat, j: nat, specp: bool, fl: set<Where>, m: Fields)
    requires k < j <= |ws| && Char(ws[k], 0) == GREATER && m.l == 0 && !Output(ws, k, j, fl, m).0.err
    ensures Count(ws, Output(ws, k, j, fl, m).1, j, specp, 0) <= Count(ws, k, j, specp, 0)
  {
    var amp := k + 1 < j && ws[k + 1] == AMPERSAND;
    var p := if amp then k + 1 else k;
    var bang := p + 1 < j && ws[p + 1] == BANG;
    var q := if bang then p + 1 else p;
    var n := Count(ws, q + 2, j, specp, 0);
    assert Count(ws, q + 1, j, specp, 0) == 1 + n;
    assert bang ==> Count(ws, p + 1, j, specp, 0) == 2 + n;
    assert amp ==> Count(ws, k + 1, j, specp, 0) == 1 + Count(ws, p + 1, j, specp, 0);
    assert Count(ws, k, j, specp, 0) == Count(ws, k + 1, j, specp, 0) - 1;
  }

  /** The words for which the second pass finds room: as many as the first pass has counted, or fewer. */
  lemma {:induction false} FillCount(ws: seq<Word>, k: nat, j: nat, specp: bool, fl: set<Where>, m: Fields)
    requires k <= j <= |ws| && !Fill(ws, k, j, specp, fl, m).0.err
    ensures |Fill(ws, k, j, specp, fl, m).1| <= Count(ws, k, j, specp, m.l)
    decreases j - k
  {
    if k < j {
      var t := Turn(ws, k, j, specp, fl, m);
      TurnCount(ws, k, j, specp, fl, m);
      FillCount(ws, t.1, j, specp, fl, t.0);
    }
  }

  /** The first loop of `syn3`. */
  method CountPass(ws: seq<Word>, i: nat, j: nat, specp: bool) returns (n: int)
    requires i <= j <= |ws|
    ensures n == Count(ws, i, j, specp, 0)
  {
    var k, l := i, 0;
    n := 0;
    while k != j
      invariant i <= k <= j && n + Count(ws, k, j, specp, l) == Count(ws, i, j, specp, 0)
      decreases j - k
    {
      var c := Char(ws[k], 0);
      if c == LPAR || c == RPAR {
        if specp {
          n := n + 1;
        }
        l := if c == LPAR then l + 1 else l - 1;
      } else if Angle(c) && l != 0 {
        if specp {
          n := n + 1;
        }
      } else if Angle(c) {
        if k + 1 != j && !RelPar(Char(ws[k + 1], 0)) {
          n := n - 1;
        }
      } else if specp || l == 0 {
        n := n + 1;
      }
      k := k + 1;
    }
  }

  /** The words in an argument vector, and nulls behind them. */
  ghost predicate Stored(av: seq<Option<Word>>, w: seq<Word>) {
    |w| < |av| && (forall i :: 0 <= i < |w| ==> av[i] == Some(w[i])) && forall i :: |w| <= i < |av| ==> av[i] == None
  }

  /** The state of the second loop: as long as there is no error, the words so far are stored, and there is room
      for those to come. */
  ghost predicate Filling(ws: seq<Word>, i: nat, k: nat, j: nat, specp: bool, fl: set<Where>, m0: Fields, m: Fields,
                          w: seq<Word>, av: seq<Option<Word>>, err0: bool)
    requires i <= k <= j <= |ws|
  {
    && Fill(ws, i, j, specp, fl, m0) == (Fill(ws, k, j, specp, fl, m).0, w + Fill(ws, k, j, specp, fl, m).1)
    && (!err0 && !m.err ==> Stored(av, w) && |w| + Count(ws, k, j, specp, m.l) < |av|)
  }

  lemma FillingOn(ws: seq<Word>, i: nat, k: nat, j: nat, specp: bool, fl: set<Where>, m0: Fields, m: Fields,
                  w: seq<Word>, av: seq<Option<Word>>, err0: bool)
    requires i <= k < j <= |ws| && Filling(ws, i, k, j, specp, fl, m0, m, w, av, err0)
    ensures var t := Turn(ws, k, j, specp, fl, m);
      var stores := t.2 && !err0 && !t.0.err;
      && (stores ==> |w| < |av|)
      && Filling(ws, i, t.1, j, specp, fl, m0, t.0, if t.2 then w + [ws[k]] else w,
                 if stores then av[|w| := Some(ws[k])] else av, err0)
  {
    var t := Turn(ws, k, j, specp, fl, m);
    var rest := Fill(ws, t.1, j, specp, fl, t.0);
    assert w + ([ws[k]] + rest.1) == w + [ws[k]] + rest.1 && w + ([] + rest.1) == w + rest.1;
    if !t.0.err {
      TurnCount(ws, k, j, specp, fl, m);
      CountNatural(ws, t.1, j, specp, t.0.l);
    }
  }

  /** The second loop of `syn3`, over an argument vector of the size that the first loop has counted: it never
      stores beyond it, and unless there is an error, the vector holds what is to be stored. */
  method FillPass(ws: seq<Word>, i: nat, j: nat, specp: bool, fl: set<Where>, m0: Fields, seterr: bool)
    returns (m: Fields, n: nat, av: array<Option<Word>>)
    requires i <= j <= |ws| && m0.l == 0 && !m0.err
    ensures var r := Fill(ws, i, j, specp, fl, m0);
      m == r.0 && n == |r.1| && fresh(av) && (!seterr && !m.err ==> Stored(av[..], r.1))
  {
    hide Turn, Fill, Count, Filling;
    var size := CountPass(ws, i, j, specp);
    CountNatural(ws, i, j, specp, 0);
    av := new Option<Word>[size + 1](_ => None);
    var k := i;
    m, n := m0, 0;
    ghost var w: seq<Word> := [];
    FillingFirst(ws, i, j, specp, fl, m0, av[..], seterr);
    while k != j
      invariant i <= k <= j && n == |w| && Filling(ws, i, k, j, specp, fl, m0, m, w, av[..], seterr)
      decreases j - k
    {
      FillingOn(ws, i, k, j, specp, fl, m0, m, w, av[..], seterr);
      var (after, next, stored) := Turn(ws, k, j, specp, fl, m);
      m := after;
      if stored {
        if !seterr && !m.err {
          av[n] := Some(ws[k]);
        }
        n := n + 1;
        w := w + [ws[k]];
      }
      k := next;
    }
    FillingLast(ws, i, j, specp, fl, m0, m, w, av[..], seterr);
  }

  lemma FillingFirst(ws: seq<Word>, i: nat, j: nat, specp: bool, fl: set<Where>, m0: Fields,
                     av: seq<Option<Word>>, err0: bool)
    requires i <= j <= |ws| && m0.l == 0 && |av| == Count(ws, i, j, specp, 0) + 1
    requires forall k :: 0 <= k < |av| ==> av[k] == None
    ensures Filling(ws, i, i, j, specp, fl, m0, m0, [], av, err0)
  {
    hide Count;
    var r := Fill(ws, i, j, specp, fl, m0);
    assert [] + r.1 == r.1;
    CountNatural(ws, i, j, specp, 0);
  }

  lemma FillingLast(ws: seq<Word>, i: nat, j: nat, specp: bool, fl: set<Where>, m0: Fields, m: Fields,
                    w: seq<Word>, av: seq<Option<Word>>, err0: bool)
    requires i <= j <= |ws| && Filling(ws, i, j, j, specp, fl, m0, m, w, av, err0)
    ensures Fill(ws, i, j, specp, fl, m0) == (m, w) && (!err0 && !m.err ==> Stored(av, w))
  {
    assert Fill(ws, j, j, specp, fl, m) == (m, []) && w + [] == w;
  }
}
