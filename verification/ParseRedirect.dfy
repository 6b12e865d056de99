/** What the redirections of a command come to (bin/csh/parse.c): which words give which field of the tree, by the
    characters that stand there. */
module ParseRedirect {
  import opened Basics
  import opened ParseCommand
  import opened ParseSyntax
  import opened ParseYield

  /** How many words begin with c. */
  function Heads(ws: seq<Word>, c: int): nat {
    if ws == [] then 0 else Heads(ws[..|ws| - 1], c) + if Char(ws[|ws| - 1], 0) == c then 1 else 0
  }

  /** The depth is the number of opening parentheses less that of closing ones. */
  lemma {:induction false} DepthCounts(ws: seq<Word>, i: nat, k: nat)
    requires i <= k <= |ws|
    ensures Depth(ws, i, k) == Heads(ws[i..k], 40) - Heads(ws[i..k], 41)
    decreases k - i
  {
    if i < k {
      DepthCounts(ws, i, k - 1);
      assert ws[i..k][..k - i - 1] == ws[i..k - 1];
    }
  }

  /** What a redirection can tell of its command. */
  datatype Mark = To(name: Word) | From(name: Word) | Appends | Merges | Overwrites | Reads

  /** It is told at place p of a command that ends at j. */
  predicate Marked(x: Mark, ws: seq<Word>, p: nat, j: nat)
    requires p < j <= |ws|
  {
    var c := Char(ws[p], 0);
    match x
    case To(w) => c == 62 && NameAt(ws, p, j) < j && w == ws[NameAt(ws, p, j)]
    case From(w) => c == 60 && NameAt(ws, p, j) < j && w == ws[NameAt(ws, p, j)]
    case Appends => c == 62 && Char(ws[p], 1) == 62
    case Merges => c == 62 && [[38]] <= ws[p + 1..j]
    case Overwrites => c == 62 && ([[33]] <= ws[p + 1..j] || [[38], [33]] <= ws[p + 1..j])
    case Reads => c == 60 && Char(ws[p], 1) == 60
  }

  /** It is told somewhere outside of parentheses, from k on. */
  ghost predicate Met(x: Mark, ws: seq<Word>, i: nat, k: nat, j: nat)
    requires i <= k <= j <= |ws|
  {
    exists p: nat :: k <= p < j && Depth(ws, i, p) == 0 && Marked(x, ws, p, j)
  }

  /** It has been noted. */
  predicate Noted(x: Mark, rit: Option<Word>, lef: Option<Word>, flags: set<Flag>) {
    match x
    case To(w) => rit == Some(w)
    case From(w) => lef == Some(w)
    case Appends => Append in flags
    case Merges => StdErr in flags
    case Overwrites => Overwrite in flags
    case Reads => Read in flags
  }

  lemma OutputNotes(x: Mark, ws: seq<Word>, k: nat, j: nat, fl: set<Where>, m: Fields)
    requires k < j <= |ws| && Char(ws[k], 0) == 62 && !Output(ws, k, j, fl, m).0.err
    ensures var n := Output(ws, k, j, fl, m).0;
      Noted(x, n.rit, n.lef, n.flags) <==> Noted(x, m.rit, m.lef, m.flags) || Marked(x, ws, k, j)
  {
    var rest := ws[k + 1..j];
    assert [[38]] <= rest <==> |rest| > 0 && rest[0] == [38];
    assert [[33]] <= rest <==> |rest| > 0 && rest[0] == [33];
    assert [[38], [33]] <= rest <==> |rest| > 1 && rest[0] == [38] && rest[1] == [33];
  }

  lemma InputNotes(x: Mark, ws: seq<Word>, k: nat, j: nat, fl: set<Where>, m: Fields)
    requires k < j <= |ws| && Char(ws[k], 0) == 60 && !Input(ws, k, j, fl, m).0.err
    ensures var n := Input(ws, k, j, fl, m).0;
      Noted(x, n.rit, n.lef, n.flags) <==> Noted(x, m.rit, m.lef, m.flags) || Marked(x, ws, k, j)
  {
  }

  lemma TurnNotes(x: Mark, ws: seq<Word>, k: nat, j: nat, specp: bool, fl: set<Where>, m: Fields)
    requires k < j <= |ws| && !Turn(ws, k, j, specp, fl, m).0.err
    ensures var n := Turn(ws, k, j, specp, fl, m).0;
      Noted(x, n.rit, n.lef, n.flags) <==> Noted(x, m.rit, m.lef, m.flags) || (m.l == 0 && Marked(x, ws, k, j))
  {
    hide Output, Input, NameAt, Noted;
    var c := Char(ws[k], 0);
    if m.l == 0 && c == 62 {
      OutputNotes(x, ws, k, j, fl, m);
    } else if m.l == 0 && c == 60 {
      InputNotes(x, ws, k, j, fl, m);
    } else {
      SameNotes(x, m, Turn(ws, k, j, specp, fl, m).0);
    }
  }

  lemma SameNotes(x: Mark, m: Fields, n: Fields)
    requires m.rit == n.rit && m.lef == n.lef && m.flags == n.flags
    ensures Noted(x, n.rit, n.lef, n.flags) <==> Noted(x, m.rit, m.lef, m.flags)
  {
  }

  /** What a redirection takes is no redirection. */
  lemma TurnTakes(x: Mark, ws: seq<Word>, k: nat, p: nat, j: nat, specp: bool, fl: set<Where>, m: Fields)
    requires k < j <= |ws| && k < p < Turn(ws, k, j, specp, fl, m).1 && !Turn(ws, k, j, specp, fl, m).0.err
    ensures !Marked(x, ws, p, j)
  {
  }

  lemma TurnMeets(x: Mark, ws: seq<Word>, i: nat, k: nat, j: nat, specp: bool, fl: set<Where>, m: Fields)
    requires i <= k < j <= |ws| && m.l == Depth(ws, i, k) && !Turn(ws, k, j, specp, fl, m).0.err
    ensures Met(x, ws, i, k, j) <==>
      (m.l == 0 && Marked(x, ws, k, j)) || Met(x, ws, i, Turn(ws, k, j, specp, fl, m).1, j)
  {
    hide Turn, Marked, Depth;
    if Met(x, ws, i, k, j) {
      var p: nat :| k <= p < j && Depth(ws, i, p) == 0 && Marked(x, ws, p, j);
      if k < p < Turn(ws, k, j, specp, fl, m).1 {
        TurnTakes(x, ws, k, p, j, specp, fl, m);
      }
    }
  }

  /** At the end of the second pass, what has been told has been noted. */
  lemma {:induction false} FillNotes(x: Mark, ws: seq<Word>, i: nat, k: nat, j: nat, specp: bool, fl: set<Where>,
                                     m: Fields)
    requires i <= k <= j <= |ws| && Aligned(ws, i, k, m) && !Fill(ws, k, j, specp, fl, m).0.err
    ensures var n := Fill(ws, k, j, specp, fl, m).0;
      Noted(x, n.rit, n.lef, n.flags) <==> Noted(x, m.rit, m.lef, m.flags) || Met(x, ws, i, k, j)
    decreases j - k
  {
    hide Turn, Noted, Marked;
    if k < j {
      var t := Turn(ws, k, j, specp, fl, m);
      TurnNotes(x, ws, k, j, specp, fl, m);
      TurnMeets(x, ws, i, k, j, specp, fl, m);
      AlignedTurn(ws, i, k, j, specp, fl, m);
      FillNotes(x, ws, i, t.1, j, specp, fl, t.0);
    }
  }

  lemma {:induction false} FillKeeps(ws: seq<Word>, k: nat, j: nat, specp: bool, fl: set<Where>, m: Fields, f: Flag)
    requires k <= j <= |ws| && (f == Amp || f == NoFork || f == NoInterrupt)
    ensures f in Fill(ws, k, j, specp, fl, m).0.flags <==> f in m.flags
    decreases j - k
  {
    if k < j {
      var t := Turn(ws, k, j, specp, fl, m);
      assert f in t.0.flags <==> f in m.flags;
      FillKeeps(ws, t.1, j, specp, fl, t.0, f);
    }
  }

  lemma SimpleNotes(x: Mark, ws: seq<Word>, i: nat, j: nat, fl: set<Where>, kind: Word -> Keyword)
    requires i <= j <= |ws| && Balanced(ws, i, j) && FreeUpTo(5, ws, i, j) && !Simple(ws, i, j, fl, kind).err
    ensures var t := Simple(ws, i, j, fl, kind).t;
      (t.Command? || t.Paren?) && (Noted(x, t.rit, t.lef, t.flags) <==> Met(x, ws, i, i, j))
  {
    var specp := IsSpecial(ws, i, j, kind);
    var m := Fill(ws, i, j, specp, fl, Start(ws, j)).0;
    SimpleGroup(ws, i, j, specp, fl);
    assert !m.err && Simple(ws, i, j, fl, kind).t.rit == m.rit && Simple(ws, i, j, fl, kind).t.lef == m.lef
        && Simple(ws, i, j, fl, kind).t.flags == m.flags;
    hide Fill, Met, Line, FreeUpTo, IsSpecial;
    StartAligned(ws, i, j);
    FillNotes(x, ws, i, i, j, specp, fl, Start(ws, j));
  }

  /** Outside of parentheses there is a word that begins with c, and w is the file name behind it. */
  ghost predicate File(w: Word, c: int, ws: seq<Word>, i: nat, j: nat)
    requires i <= j <= |ws|
  {
    exists k: nat :: i <= k < j && Depth(ws, i, k) == 0 && Char(ws[k], 0) == c
      && NameAt(ws, k, j) < j && w == ws[NameAt(ws, k, j)]
  }

  /** The files of a command or subshell that is read without an error: its output goes to w if and only if w is the
      file name of a `>` outside of parentheses, and its input comes from w if and only if w is that of a `<`. */
  lemma RedirectedFiles(ws: seq<Word>, i: nat, j: nat, fl: set<Where>, kind: Word -> Keyword, w: Word)
    requires i <= j <= |ws| && Balanced(ws, i, j) && FreeUpTo(5, ws, i, j) && !Simple(ws, i, j, fl, kind).err
    ensures var t := Simple(ws, i, j, fl, kind).t;
      && (t.Command? || t.Paren?)
      && (t.rit == Some(w) <==> File(w, 62, ws, i, j))
      && (t.lef == Some(w) <==> File(w, 60, ws, i, j))
  {
    hide Simple, FreeUpTo, Depth, Balanced, NameAt;
    SimpleNotes(To(w), ws, i, j, fl, kind);
    SimpleNotes(From(w), ws, i, j, fl, kind);
  }

  /** Its flags: `>>` appends, `>&` takes the diagnostic output along, `>!` and `>&!` overwrite, `<<` reads on, and a
      closing parenthesis behind it saves a fork. Nothing that a command holds runs it in the background. */
  lemma RedirectedFlags(ws: seq<Word>, i: nat, j: nat, fl: set<Where>, kind: Word -> Keyword)
    requires i <= j <= |ws| && Balanced(ws, i, j) && FreeUpTo(5, ws, i, j) && !Simple(ws, i, j, fl, kind).err
    ensures var t := Simple(ws, i, j, fl, kind).t;
      && (t.Command? || t.Paren?)
      && (Append in t.flags <==> exists k: nat ::
            i <= k < j && Depth(ws, i, k) == 0 && Char(ws[k], 0) == 62 && Char(ws[k], 1) == 62)
      && (StdErr in t.flags <==> exists k: nat ::
            i <= k < j && Depth(ws, i, k) == 0 && Char(ws[k], 0) == 62 && [[38]] <= ws[k + 1..j])
      && (Overwrite in t.flags <==> exists k: nat ::
            i <= k < j && Depth(ws, i, k) == 0 && Char(ws[k], 0) == 62
            && ([[33]] <= ws[k + 1..j] || [[38], [33]] <= ws[k + 1..j]))
      && (Read in t.flags <==> exists k: nat ::
            i <= k < j && Depth(ws, i, k) == 0 && Char(ws[k], 0) == 60 && Char(ws[k], 1) == 60)
      && (NoFork in t.flags <==> j < |ws| && Char(ws[j], 0) == 41)
      && Amp !in t.flags && NoInterrupt !in t.flags
  {
    hide Simple, FreeUpTo, Depth, Balanced;
    SimpleNotes(Appends, ws, i, j, fl, kind);
    SimpleNotes(Merges, ws, i, j, fl, kind);
    SimpleNotes(Overwrites, ws, i, j, fl, kind);
    SimpleNotes(Reads, ws, i, j, fl, kind);
    SimpleKeeps(ws, i, j, fl, kind);
    Flags(ws, i, j);
  }

  lemma SimpleKeeps(ws: seq<Word>, i: nat, j: nat, fl: set<Where>, kind: Word -> Keyword)
    requires i <= j <= |ws| && Balanced(ws, i, j) && FreeUpTo(5, ws, i, j)
    ensures var t := Simple(ws, i, j, fl, kind).t;
      && (t.Command? || t.Paren?) && (NoFork in t.flags <==> j < |ws| && Char(ws[j], 0) == 41)
      && Amp !in t.flags && NoInterrupt !in t.flags
  {
    var specp := IsSpecial(ws, i, j, kind);
    SimpleGroup(ws, i, j, specp, fl);
    hide Fill, Line, FreeUpTo, IsSpecial;
    FillKeeps(ws, i, j, specp, fl, Start(ws, j), NoFork);
    FillKeeps(ws, i, j, specp, fl, Start(ws, j), Amp);
    FillKeeps(ws, i, j, specp, fl, Start(ws, j), NoInterrupt);
  }

  lemma Flags(ws: seq<Word>, i: nat, j: nat)
    requires i <= j <= |ws|
    ensures Met(Appends, ws, i, i, j) <==> exists k: nat ::
      i <= k < j && Depth(ws, i, k) == 0 && Char(ws[k], 0) == 62 && Char(ws[k], 1) == 62
    ensures Met(Merges, ws, i, i, j) <==> exists k: nat ::
      i <= k < j && Depth(ws, i, k) == 0 && Char(ws[k], 0) == 62 && [[38]] <= ws[k + 1..j]
    ensures Met(Overwrites, ws, i, i, j) <==> exists k: nat ::
      i <= k < j && Depth(ws, i, k) == 0 && Char(ws[k], 0) == 62
      && ([[33]] <= ws[k + 1..j] || [[38], [33]] <= ws[k + 1..j])
    ensures Met(Reads, ws, i, i, j) <==> exists k: nat ::
      i <= k < j && Depth(ws, i, k) == 0 && Char(ws[k], 0) == 60 && Char(ws[k], 1) == 60
  {
    hide Depth;
  }

  /** A redirection as it should be: with a file name, and at odds neither with a pipe nor with parentheses around
      it. The output of a command in front of `|` can be sent elsewhere only if its diagnostic output goes there too,
      and then not together with that. */
  predicate Right(ws: seq<Word>, p: nat, j: nat, fl: set<Where>)
    requires p < j <= |ws|
  {
    var c := Char(ws[p], 0);
    c == 60 || c == 62 ==>
      var n := NameAt(ws, p, j);
      && n < j && Char(ws[n], 0) !in {40, 41, 60, 62}
      && if c == 62 then
           !(Out in fl && Err !in fl) && (p + 1 < j && ws[p + 1] == [38] ==> Out !in fl && Err !in fl)
         else In !in fl && (Char(ws[p], 1) == 60 ==> Here !in fl)
  }

  ghost predicate AllRight(ws: seq<Word>, i: nat, k: nat, j: nat, fl: set<Where>)
    requires i <= k <= j <= |ws|
  {
    forall p: nat :: k <= p < j && Depth(ws, i, p) == 0 ==> Right(ws, p, j, fl)
  }

  /** How many words outside of parentheses begin with c, from k on. */
  function Places(c: int, ws: seq<Word>, i: nat, k: nat, j: nat): nat
    requires i <= k <= j <= |ws|
    decreases j - k
  {
    if k == j then 0
    else (if Depth(ws, i, k) == 0 && Char(ws[k], 0) == c then 1 else 0) + Places(c, ws, i, k + 1, j)
  }

  function One<T>(x: Option<T>): nat {
    if x.Some? then 1 else 0
  }

  /** There is at most one redirection of each kind, and at most one group, with what has been found so far. */
  predicate Once(ws: seq<Word>, i: nat, k: nat, j: nat, specp: bool, m: Fields)
    requires i <= k <= j <= |ws|
  {
    && Places(62, ws, i, k, j) + One(m.rit) <= 1 && Places(60, ws, i, k, j) + One(m.lef) <= 1
    && (specp || Places(40, ws, i, k, j) + One(m.lp) <= 1)
  }

  /** Nothing of the kind of w has been found so far. */
  predicate Fresh(w: Word, specp: bool, m: Fields) {
    var c := Char(w, 0);
    (c == 62 ==> m.rit.None?) && (c == 60 ==> m.lef.None?) && (c == 40 && !specp ==> m.lp.None?)
  }

  lemma TurnErrs(ws: seq<Word>, i: nat, k: nat, j: nat, specp: bool, fl: set<Where>, m: Fields)
    requires i <= k < j <= |ws| && m.l == Depth(ws, i, k) && !m.err && (Read in m.flags ==> m.lef.Some?)
    ensures !Turn(ws, k, j, specp, fl, m).0.err <==> (m.l == 0 ==> Right(ws, k, j, fl) && Fresh(ws[k], specp, m))
  {
  }

  lemma TurnFinds(ws: seq<Word>, k: nat, j: nat, specp: bool, fl: set<Where>, m: Fields)
    requires k < j <= |ws| && !Turn(ws, k, j, specp, fl, m).0.err && (Read in m.flags ==> m.lef.Some?)
    ensures var n := Turn(ws, k, j, specp, fl, m).0; var c := if m.l == 0 then Char(ws[k], 0) else -1;
      && (n.rit.Some? <==> m.rit.Some? || c == 62) && (n.lef.Some? <==> m.lef.Some? || c == 60)
      && (n.lp.Some? <==> m.lp.Some? || c == 40) && (Read in n.flags ==> n.lef.Some?)
  {
  }

  /** What a redirection takes begins with none of the characters that are counted. */
  lemma TurnSkips(c: int, ws: seq<Word>, i: nat, k: nat, j: nat, specp: bool, fl: set<Where>, m: Fields)
    requires i <= k < j <= |ws| && m.l == Depth(ws, i, k) && !Turn(ws, k, j, specp, fl, m).0.err
    requires c == 40 || c == 60 || c == 62
    ensures Places(c, ws, i, k, j) == (if m.l == 0 && Char(ws[k], 0) == c then 1 else 0)
      + Places(c, ws, i, Turn(ws, k, j, specp, fl, m).1, j)
    ensures AllRight(ws, i, k, j, fl) <==>
      (m.l == 0 ==> Right(ws, k, j, fl)) && AllRight(ws, i, Turn(ws, k, j, specp, fl, m).1, j, fl)
  {
    var n := Turn(ws, k, j, specp, fl, m).1;
    assert forall p: nat :: k < p < n ==> Char(ws[p], 0) !in {40, 41, 60, 62};
    hide Turn, Depth;
    PlacesSkip(c, ws, i, k + 1, n, j);
  }

  lemma {:induction false} PlacesSkip(c: int, ws: seq<Word>, i: nat, k: nat, n: nat, j: nat)
    requires i <= k <= n <= j <= |ws| && forall p: nat :: k <= p < n ==> Char(ws[p], 0) != c
    ensures Places(c, ws, i, k, j) == Places(c, ws, i, n, j)
    decreases n - k
  {
    if k < n {
      PlacesSkip(c, ws, i, k + 1, n, j);
    }
  }

  /** The second pass finds an error exactly if a redirection is not as it should be, or there is one too many, or
      one group too many; and it finds a group exactly if there is one. */
  lemma {:induction false} FillErrs(ws: seq<Word>, i: nat, k: nat, j: nat, specp: bool, fl: set<Where>, m: Fields)
    requires i <= k <= j <= |ws| && Aligned(ws, i, k, m) && !m.err && (Read in m.flags ==> m.lef.Some?)
    ensures !Fill(ws, k, j, specp, fl, m).0.err <==> AllRight(ws, i, k, j, fl) && Once(ws, i, k, j, specp, m)
    ensures !Fill(ws, k, j, specp, fl, m).0.err ==>
      (Fill(ws, k, j, specp, fl, m).0.lp.Some? <==> m.lp.Some? || Places(40, ws, i, k, j) > 0)
    decreases j - k
  {
    if k < j {
      hide Turn, Right, Depth;
      var t := Turn(ws, k, j, specp, fl, m);
      TurnErrs(ws, i, k, j, specp, fl, m);
      if !t.0.err {
        TurnFinds(ws, k, j, specp, fl, m);
        TurnSkips(40, ws, i, k, j, specp, fl, m);
        TurnSkips(60, ws, i, k, j, specp, fl, m);
        TurnSkips(62, ws, i, k, j, specp, fl, m);
        AlignedTurn(ws, i, k, j, specp, fl, m);
        FillErrs(ws, i, t.1, j, specp, fl, t.0);
      }
    }
  }
}
