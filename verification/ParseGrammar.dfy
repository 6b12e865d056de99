/** The grammar of csh, as a relation between words and trees, by the characters that the words begin with; and that
    the parser reads exactly what it says (bin/csh/parse.c). */
module ParseGrammar {
  import opened Basics
  import opened ParseCommand
  import opened ParseSyntax
  import opened ParseYield
  import opened ParseRedirect

  /** Between k and a, of a command that ends at j, there are redirections and nothing else. */
  predicate Bare(ws: seq<Word>, k: nat, a: nat, j: nat)
    requires k <= j <= |ws|
    decreases j - k
  {
    k == a || (k < a <= j && (Char(ws[k], 0) == 60 || Char(ws[k], 0) == 62) && Bare(ws, Redirected(ws, k, j), a, j))
  }

  /** The parentheses at a and b, and nothing but redirections around them. */
  ghost predicate Group(ws: seq<Word>, i: nat, a: nat, b: nat, j: nat)
    requires i <= j <= |ws|
  {
    && i <= a < b < j && Char(ws[a], 0) == 40 && Char(ws[b], 0) == 41 && Balanced(ws, a + 1, b)
    && Bare(ws, i, a, j) && Bare(ws, b + 1, j, j)
  }

  lemma {:induction false} FoundAfter(ws: seq<Word>, i: nat, k: nat, j: nat, fl: set<Where>, m: Fields)
    requires i <= k <= j <= |ws| && NoDip(ws, i, j) && Aligned(ws, i, k, m) && m.l == 0 && m.lp.Some?
    requires var r := Fill(ws, k, j, false, fl, m); !r.0.err && r.1 == []
    ensures Bare(ws, k, j, j) && Fill(ws, k, j, false, fl, m).0.rp == m.rp
    decreases j - k
  {
    if k < j {
      var t := Turn(ws, k, j, false, fl, m);
      NotClosing(ws, i, k, j, m);
      AlignedTurn(ws, i, k, j, false, fl, m);
      TurnMoves(ws, k, j, fl, m);
      hide Turn, Aligned, NoDip;
      FoundAfter(ws, i, t.1, j, fl, t.0);
    }
  }

  /** A turn without an error, outside of parentheses, that stores nothing and finds no group. */
  lemma TurnMoves(ws: seq<Word>, k: nat, j: nat, fl: set<Where>, m: Fields)
    requires k < j <= |ws| && m.l == 0 && Char(ws[k], 0) != 40 && Char(ws[k], 0) != 41
    requires var t := Turn(ws, k, j, false, fl, m); !t.0.err && !t.2
    ensures var t := Turn(ws, k, j, false, fl, m);
      && (Char(ws[k], 0) == 60 || Char(ws[k], 0) == 62) && t.1 == Redirected(ws, k, j)
      && t.0.l == 0 && t.0.lp == m.lp && t.0.rp == m.rp
  {
    if Char(ws[k], 0) == 62 {
      OutputIs(ws, k, j, j, fl, m);
    } else if Char(ws[k], 0) == 60 {
      InputIs(ws, k, j, j, fl, m);
    }
  }

  lemma {:induction false} FoundInside(ws: seq<Word>, i: nat, k: nat, j: nat, fl: set<Where>, m: Fields)
    requires i <= k <= j <= |ws| && Balanced(ws, i, j) && Aligned(ws, i, k, m) && m.l > 0 && m.lp.Some?
    requires var r := Fill(ws, k, j, false, fl, m); !r.0.err && r.1 == []
    ensures var rp := Fill(ws, k, j, false, fl, m).0.rp;
      rp.Some? && k <= rp.value < j && Char(ws[rp.value], 0) == 41 && Bare(ws, rp.value + 1, j, j)
    decreases j - k
  {
    if k < j {
      var t := Turn(ws, k, j, false, fl, m);
      AlignedTurn(ws, i, k, j, false, fl, m);
      hide Aligned, Bare;
      if t.0.l > 0 {
        FoundInside(ws, i, t.1, j, fl, t.0);
      } else {
        FoundAfter(ws, i, t.1, j, fl, t.0);
      }
    }
  }

  lemma {:induction false} FoundBefore(ws: seq<Word>, i: nat, k: nat, j: nat, fl: set<Where>, m: Fields)
    requires i <= k <= j <= |ws| && Balanced(ws, i, j) && Aligned(ws, i, k, m) && m.l == 0 && m.lp.None?
    requires var r := Fill(ws, k, j, false, fl, m); !r.0.err && r.1 == [] && r.0.lp.Some?
    ensures var f := Fill(ws, k, j, false, fl, m).0;
      && k < f.lp.value <= j && Char(ws[f.lp.value - 1], 0) == 40 && Bare(ws, k, f.lp.value - 1, j)
      && f.rp.Some? && f.lp.value <= f.rp.value < j && Char(ws[f.rp.value], 0) == 41 && Bare(ws, f.rp.value + 1, j, j)
    decreases j - k
  {
    if k < j {
      var t := Turn(ws, k, j, false, fl, m);
      AlignedTurn(ws, i, k, j, false, fl, m);
      if Char(ws[k], 0) == 40 {
        GroupStays(ws, t.1, j, fl, t.0);
        FoundInside(ws, i, t.1, j, fl, t.0);
      } else {
        NotClosing(ws, i, k, j, m);
        TurnMoves(ws, k, j, fl, m);
        hide Turn, Aligned;
        FoundBefore(ws, i, t.1, j, fl, t.0);
      }
    }
  }

  /** A group that the second pass finds is there. */
  lemma GroupFound(ws: seq<Word>, i: nat, j: nat, fl: set<Where>)
    requires i <= j <= |ws| && Balanced(ws, i, j)
    requires var r := Fill(ws, i, j, false, fl, Start(ws, j)); !r.0.err && r.1 == [] && r.0.lp.Some?
    ensures var m := Fill(ws, i, j, false, fl, Start(ws, j)).0;
      i < m.lp.value && m.rp.Some? && Group(ws, i, m.lp.value - 1, m.rp.value, j)
  {
    hide Fill, Bare;
    SimpleGroup(ws, i, j, false, fl);
    StartAligned(ws, i, j);
    FoundBefore(ws, i, i, j, fl, Start(ws, j));
  }

  lemma {:induction false} BareFill(ws: seq<Word>, k: nat, a: nat, j: nat, fl: set<Where>, m: Fields)
    returns (n: Fields)
    requires k <= a <= j <= |ws| && Bare(ws, k, a, j) && m.l == 0 && !Fill(ws, k, j, false, fl, m).0.err
    ensures n.l == 0 && n.lp == m.lp && n.rp == m.rp
    ensures Fill(ws, k, j, false, fl, m) == Fill(ws, a, j, false, fl, n)
    decreases j - k
  {
    n := m;
    if k < a {
      var t := Turn(ws, k, j, false, fl, m);
      assert !t.0.err && !t.2;
      TurnMoves(ws, k, j, fl, m);
      Regroup<Word>([], [], Fill(ws, t.1, j, false, fl, t.0).1);
      hide Turn;
      n := BareFill(ws, t.1, a, j, fl, t.0);
    }
  }

  lemma {:induction false} InsideFill(ws: seq<Word>, s: nat, k: nat, b: nat, j: nat, fl: set<Where>, m: Fields)
    requires s <= k <= b <= j <= |ws| && Balanced(ws, s, b) && m.l == 1 + Depth(ws, s, k)
    ensures Fill(ws, k, j, false, fl, m) == Fill(ws, b, j, false, fl, m.(l := 1))
    decreases b - k
  {
    if k == b {
      assert m.(l := 1) == m;
    } else {
      var t := Turn(ws, k, j, false, fl, m);
      assert Depth(ws, s, k) >= 0 && Depth(ws, s, k + 1) >= 0;
      assert t.1 == k + 1 && !t.2 && t.0 == m.(l := 1 + Depth(ws, s, k + 1));
      Regroup<Word>([], [], Fill(ws, t.1, j, false, fl, t.0).1);
      hide Turn, Balanced;
      InsideFill(ws, s, k + 1, b, j, fl, t.0);
    }
  }

  /** A group that is there is found. */
  lemma GroupRead(ws: seq<Word>, i: nat, a: nat, b: nat, j: nat, fl: set<Where>)
    requires i <= j <= |ws| && Group(ws, i, a, b, j) && !Fill(ws, i, j, false, fl, Start(ws, j)).0.err
    ensures var r := Fill(ws, i, j, false, fl, Start(ws, j)); r.1 == [] && r.0.lp == Some(a + 1) && r.0.rp == Some(b)
  {
    hide Bare;
    var n := BareFill(ws, i, a, j, fl, Start(ws, j));
    var t := Turn(ws, a, j, false, fl, n);
    assert t.1 == a + 1 && !t.2 && t.0.l == 1 && t.0.lp == Some(a + 1);
    InsideFill(ws, a + 1, a + 1, b, j, fl, t.0);
    var n1 := t.0.(l := 1);
    var t1 := Turn(ws, b, j, false, fl, n1);
    assert t1.1 == b + 1 && !t1.2 && t1.0.l == 0 && t1.0.lp == Some(a + 1) && t1.0.rp == Some(b);
    var n2 := BareFill(ws, b + 1, j, j, fl, t1.0);
    assert Fill(ws, j, j, false, fl, n2) == (n2, []);
    hide Turn;
  }

  /** No operator: no `;`, no newline, no `|`, and no `&` but that of `>&`. */
  predicate NoOperatorAt(ws: seq<Word>, i: nat, k: nat)
    requires i <= k < |ws|
  {
    var c := Char(ws[k], 0);
    c != 59 && c != 10 && c != 124 && (c == 38 ==> i < k && ws[k] == [38] && Char(ws[k - 1], 0) == 62)
  }

  ghost predicate Alone(ws: seq<Word>, i: nat, j: nat)
    requires i <= j <= |ws|
  {
    forall k: nat :: i <= k < j && Depth(ws, i, k) == 0 ==> NoOperatorAt(ws, i, k)
  }

  lemma AloneFree(ws: seq<Word>, i: nat, j: nat)
    requires i <= j <= |ws|
    ensures Alone(ws, i, j) <==> FreeUpTo(5, ws, i, j)
  {
    if FreeUpTo(5, ws, i, j) {
      forall k: nat | i <= k < j && Depth(ws, i, k) == 0 ensures NoOperatorAt(ws, i, k) {
        FreeIsAlone(ws, i, k, j);
      }
    }
    if Alone(ws, i, j) {
      forall k: nat, op: Operator | i <= k < j ensures !Top(op, ws, i, k) {
        AloneIsFree(op, ws, i, k);
      }
    }
  }

  lemma FreeIsAlone(ws: seq<Word>, i: nat, k: nat, j: nat)
    requires i <= k < j <= |ws| && FreeUpTo(5, ws, i, j) && Depth(ws, i, k) == 0
    ensures NoOperatorAt(ws, i, k)
  {
    assert !Top(Background, ws, i, k) && !Top(Sequence, ws, i, k) && !Top(And, ws, i, k) && !Top(Pipe, ws, i, k);
    assert k > i ==> !Top(Pipe, ws, i, k - 1);
  }

  lemma AloneIsFree(op: Operator, ws: seq<Word>, i: nat, k: nat)
    requires i <= k < |ws| && (Depth(ws, i, k) == 0 ==> NoOperatorAt(ws, i, k))
    ensures !Top(op, ws, i, k)
  {
  }

  /** The files and flags of a command are what its redirections tell, and a closing parenthesis behind it. */
  ghost predicate Told(ws: seq<Word>, i: nat, j: nat, rit: Option<Word>, lef: Option<Word>, flags: set<Flag>)
    requires i <= j <= |ws|
  {
    && (forall x: Mark :: Noted(x, rit, lef, flags) <==> Met(x, ws, i, i, j))
    && (NoFork in flags <==> j < |ws| && Char(ws[j], 0) == 41) && Amp !in flags && NoInterrupt !in flags
  }

  /** A simple command: its redirections are as they should be, and there is at most one of each kind; it has words,
      or it is one list in parentheses. Only a command that begins with a keyword has parentheses among its words. */
  ghost predicate SimpleG(ws: seq<Word>, i: nat, j: nat, fl: set<Where>, kind: Word -> Keyword, t: Tree)
    requires i <= j <= |ws|
    decreases j - i, 2
  {
    && Balanced(ws, i, j) && Alone(ws, i, j)
    && AllRight(ws, i, i, j, fl) && Places(62, ws, i, i, j) <= 1 && Places(60, ws, i, i, j) <= 1
    && match t
       case Command(words, lef, rit, flags) =>
         && Told(ws, i, j, rit, lef, flags) && words == Sift(ws, i, j, kind, FRESH) && words != []
         && (IsSpecial(ws, i, j, kind) || Places(40, ws, i, i, j) == 0)
       case Paren(sub, lef, rit, flags) =>
         && Told(ws, i, j, rit, lef, flags) && !IsSpecial(ws, i, j, kind) && Places(40, ws, i, i, j) == 1 && sub.Some?
         && exists a: nat, b: nat :: Group(ws, i, a, b, j) && LineG(ws, a + 1, b, {Here}, kind, sub.value)
       case _ => false
  }

  /** A command in front of the `|` or `|&` at k, and a pipeline behind it. */
  ghost predicate PipeAt(ws: seq<Word>, i: nat, k: nat, j: nat, fl: set<Where>, kind: Word -> Keyword, t: Tree)
    requires i <= k < j <= |ws|
    decreases j - i, 2, 1
  {
    && t.PipeNode? && Char(ws[k], 0) == 124 && Char(ws[k], 1) != 124
    && if k + 1 < j && ws[k + 1] == [38] then
         && SimpleG(ws, i, k, fl + {Out, Err}, kind, t.l) && PipesG(ws, k + 2, j, fl + {In}, kind, t.r)
         && t.flags == {StdErr}
       else
         && SimpleG(ws, i, k, fl + {Out}, kind, t.l) && PipesG(ws, k + 1, j, fl + {In}, kind, t.r)
         && t.flags == {}
  }

  /** Simple commands with `|` or `|&` between them. */
  ghost predicate PipesG(ws: seq<Word>, i: nat, j: nat, fl: set<Where>, kind: Word -> Keyword, t: Tree)
    requires i <= j <= |ws|
    decreases j - i, 3
  {
    || SimpleG(ws, i, j, fl, kind, t)
    || exists k: nat :: i <= k < j && PipeAt(ws, i, k, j, fl, kind, t)
  }

  /** Pipelines with `&&` between them. */
  ghost predicate AndsG(ws: seq<Word>, i: nat, j: nat, fl: set<Where>, kind: Word -> Keyword, t: Tree)
    requires i <= j <= |ws|
    decreases j - i, 4
  {
    || PipesG(ws, i, j, fl, kind, t)
    || exists k: nat :: i <= k < j && AndAt(ws, i, k, j, fl, kind, t)
  }

  ghost predicate AndAt(ws: seq<Word>, i: nat, k: nat, j: nat, fl: set<Where>, kind: Word -> Keyword, t: Tree)
    requires i <= k < j <= |ws|
    decreases j - i, 3, 1
  {
    && t.AndNode? && Char(ws[k], 0) == 38 && Char(ws[k], 1) == 38
    && PipesG(ws, i, k, fl, kind, t.l) && AndsG(ws, k + 1, j, fl, kind, t.r)
  }

  /** Those with `||` between them. */
  ghost predicate OrsG(ws: seq<Word>, i: nat, j: nat, fl: set<Where>, kind: Word -> Keyword, t: Tree)
    requires i <= j <= |ws|
    decreases j - i, 5
  {
    || AndsG(ws, i, j, fl, kind, t)
    || exists k: nat :: i <= k < j && OrAt(ws, i, k, j, fl, kind, t)
  }

  ghost predicate OrAt(ws: seq<Word>, i: nat, k: nat, j: nat, fl: set<Where>, kind: Word -> Keyword, t: Tree)
    requires i <= k < j <= |ws|
    decreases j - i, 4, 1
  {
    && t.OrNode? && Char(ws[k], 0) == 124 && Char(ws[k], 1) == 124
    && AndsG(ws, i, k, fl, kind, t.l) && OrsG(ws, k + 1, j, fl, kind, t.r)
  }

  /** Those with a semicolon or newline behind each, or between them. */
  ghost predicate JobsG(ws: seq<Word>, i: nat, j: nat, fl: set<Where>, kind: Word -> Keyword, t: Tree)
    requires i <= j <= |ws|
    decreases j - i, 6
  {
    || OrsG(ws, i, j, fl, kind, t)
    || exists k: nat :: i <= k < j && JobAt(ws, i, k, j, fl, kind, t)
  }

  ghost predicate JobAt(ws: seq<Word>, i: nat, k: nat, j: nat, fl: set<Where>, kind: Word -> Keyword, t: Tree)
    requires i <= k < j <= |ws|
    decreases j - i, 5, 1
  {
    && t.ListNode? && t.cdr.Some? && (Char(ws[k], 0) == 59 || Char(ws[k], 0) == 10)
    && if t.car.Some? then OrsG(ws, i, k, fl, kind, t.car.value) && MoreG(ws, k + 1, j, fl, kind, t.cdr)
       else OrsG(ws, i, k, fl, kind, t.cdr.value) && MoreG(ws, k + 1, j, fl, kind, None)
  }

  /** What follows in such a list: maybe nothing, and more separators are passed over, also a `&&`. */
  ghost predicate MoreG(ws: seq<Word>, i: nat, j: nat, fl: set<Where>, kind: Word -> Keyword, t: Option<Tree>)
    requires i <= j <= |ws|
    decreases j - i, 7
  {
    if i == j then t == None
    else if Char(ws[i], 0) == 59 || Char(ws[i], 0) == 10 || (Char(ws[i], 0) == 38 && Char(ws[i], 1) == 38) then
      MoreG(ws, i + 1, j, fl, kind, t)
    else t.Some? && JobsG(ws, i, j, fl, kind, t.value)
  }

  /** A tree is put into the background: a list gets parentheses for that. */
  predicate PutBehind(a: Tree, t: Tree) {
    if a.ListNode? || a.OrNode? || a.AndNode? then t == Paren(Some(a), None, None, {Amp, NoInterrupt})
    else t == a.(flags := a.flags + {Amp, NoInterrupt})
  }

  /** Lists with `&` between them, or behind each, that is no part of `>&` or `|&`. */
  ghost predicate LineG(ws: seq<Word>, i: nat, j: nat, fl: set<Where>, kind: Word -> Keyword, t: Tree)
    requires i <= j <= |ws|
    decreases j - i, 8
  {
    || JobsG(ws, i, j, fl, kind, t)
    || exists k: nat, a: Tree :: i < k < j && BehindAt(ws, i, k, j, fl, kind, a, t)
  }

  ghost predicate BehindAt(ws: seq<Word>, i: nat, k: nat, j: nat, fl: set<Where>, kind: Word -> Keyword, a: Tree,
                           t: Tree)
    requires i < k < j <= |ws|
    decreases j - i, 7, 1
  {
    && t.ListNode? && t.car.Some? && Char(ws[k], 0) == 38 && Char(ws[k], 1) != 38
    && (ws[k] == [38] ==> Char(ws[k - 1], 0) != 62 && (Char(ws[k - 1], 0) != 124 || Char(ws[k - 1], 1) == 124))
    && JobsG(ws, i, k, fl, kind, a) && PutBehind(a, t.car.value) && TextG(ws, k, j, fl, kind, t.cdr)
  }

  /** A text: separators in front are passed over. */
  ghost predicate TextG(ws: seq<Word>, i: nat, j: nat, fl: set<Where>, kind: Word -> Keyword, t: Option<Tree>)
    requires i <= j <= |ws|
    decreases j - i, 9
  {
    if i == j then t == None
    else if Char(ws[i], 0) == 59 || Char(ws[i], 0) == 10 || Char(ws[i], 0) == 38 then
      TextG(ws, i + 1, j, fl, kind, t)
    else t.Some? && LineG(ws, i, j, fl, kind, t.value)
  }

  lemma ToldOnce(ws: seq<Word>, i: nat, j: nat, rit: Option<Word>, lef: Option<Word>, flags: set<Flag>,
                 rit': Option<Word>, lef': Option<Word>, flags': set<Flag>)
    requires i <= j <= |ws| && Told(ws, i, j, rit, lef, flags) && Told(ws, i, j, rit', lef', flags')
    ensures rit == rit' && lef == lef' && flags == flags'
  {
    hide Met;
    if rit.Some? { assert Noted(To(rit.value), rit', lef', flags'); }
    if rit'.Some? { assert Noted(To(rit'.value), rit, lef, flags); }
    if lef.Some? { assert Noted(From(lef.value), rit', lef', flags'); }
    if lef'.Some? { assert Noted(From(lef'.value), rit, lef, flags); }
    forall f: Flag ensures f in flags <==> f in flags' {
      var x := match f case Append => Appends case StdErr => Merges case Overwrite => Overwrites case _ => Reads;
      assert Noted(x, rit, lef, flags) <==> Noted(x, rit', lef', flags');
    }
  }

  lemma SimpleIs(ws: seq<Word>, i: nat, j: nat, fl: set<Where>, kind: Word -> Keyword)
    requires i <= j <= |ws| && Balanced(ws, i, j) && FreeUpTo(5, ws, i, j)
    ensures var specp := IsSpecial(ws, i, j, kind);
      var r := Fill(ws, i, j, specp, fl, Start(ws, j));
      var m := r.0;
      if m.lp.Some? && !specp then
        && m.rp.Some? && i < m.lp.value <= m.rp.value < j && Balanced(ws, m.lp.value, m.rp.value)
        && var sub := Line(ws, m.lp.value, m.rp.value, {Here}, kind);
           Simple(ws, i, j, fl, kind) == Outcome(Paren(sub.t, m.lef, m.rit, m.flags), m.err || r.1 != [] || sub.err)
      else Simple(ws, i, j, fl, kind) == Outcome(Command(r.1, m.lef, m.rit, m.flags), m.err || r.1 == [])
  {
    hide Fill, Line, FreeUpTo, IsSpecial;
    SimpleGroup(ws, i, j, IsSpecial(ws, i, j, kind), fl);
  }

  /** Unless there is a list in parentheses, the words that are stored are those that a reader of the text finds. */
  lemma FillWords(ws: seq<Word>, i: nat, j: nat, fl: set<Where>, kind: Word -> Keyword)
    requires i <= j <= |ws| && Balanced(ws, i, j) && FreeUpTo(5, ws, i, j) && Keywords(kind)
    requires var specp := IsSpecial(ws, i, j, kind);
      var m := Fill(ws, i, j, specp, fl, Start(ws, j)).0; !m.err && (specp || m.lp.None?)
    ensures Fill(ws, i, j, IsSpecial(ws, i, j, kind), fl, Start(ws, j)).1 == Sift(ws, i, j, kind, FRESH)
    ensures IsSpecial(ws, i, j, kind) ==> Sift(ws, i, j, kind, FRESH) != []
  {
    var specp := IsSpecial(ws, i, j, kind);
    StartAligned(ws, i, j);
    if specp {
      assert Plain(ws[i]);
      assert Sift(ws, i, j, kind, FRESH) == Sift(ws, i, j, kind, Reader(true, 0, false));
      hide FreeUpTo, Fill, Sift, Plain, IsSpecial;
      SpecialSifts(ws, i, i, j, j, fl, Start(ws, j), kind);
      SiftsNothing(ws, j, kind, At(Fill(ws, i, j, true, fl, Start(ws, j)).0, true));
      Regroup([], [], Fill(ws, i, j, true, fl, Start(ws, j)).1);
      SpecialWords(ws, i, j, fl, Start(ws, j), kind);
      NoneSpecial(Fill(ws, i, j, true, fl, Start(ws, j)).1, kind);
    } else {
      StartsPlain(ws, i, j, kind);
      hide FreeUpTo, Fill, Sift, IsSpecial;
      PlainSifts(ws, i, i, j, j, fl, Start(ws, j), kind);
      SiftsNothing(ws, j, kind, ON);
      Regroup([], [], Fill(ws, i, j, false, fl, Start(ws, j)).1);
    }
  }

  lemma SiftsNothing(ws: seq<Word>, j: nat, kind: Word -> Keyword, s: Reader)
    requires j <= |ws|
    ensures Sift(ws, j, j, kind, s) == []
  {
  }

  lemma NoneSpecial(words: seq<Word>, kind: Word -> Keyword)
    requires IsSpecial(words, 0, |words|, kind)
    ensures words != []
  {
  }

  /** The second pass meets no error exactly if the redirections and groups are as they should be, and finds a group
      exactly if there is one. */
  lemma StartErrs(ws: seq<Word>, i: nat, j: nat, specp: bool, fl: set<Where>)
    requires i <= j <= |ws|
    ensures var m := Fill(ws, i, j, specp, fl, Start(ws, j)).0;
      && (!m.err <==> AllRight(ws, i, i, j, fl) && Places(62, ws, i, i, j) <= 1 && Places(60, ws, i, i, j) <= 1
                      && (specp || Places(40, ws, i, i, j) <= 1))
      && (!m.err ==> (m.lp.Some? <==> Places(40, ws, i, i, j) > 0))
  {
    hide Fill, AllRight, Places;
    StartAligned(ws, i, j);
    FillErrs(ws, i, i, j, specp, fl, Start(ws, j));
  }

  lemma FillTold(ws: seq<Word>, i: nat, j: nat, specp: bool, fl: set<Where>)
    requires i <= j <= |ws| && !Fill(ws, i, j, specp, fl, Start(ws, j)).0.err
    ensures var m := Fill(ws, i, j, specp, fl, Start(ws, j)).0; Told(ws, i, j, m.rit, m.lef, m.flags)
  {
    hide Fill, Met;
    StartAligned(ws, i, j);
    var m := Fill(ws, i, j, specp, fl, Start(ws, j)).0;
    forall x: Mark ensures Noted(x, m.rit, m.lef, m.flags) <==> Met(x, ws, i, i, j) {
      FillNotes(x, ws, i, i, j, specp, fl, Start(ws, j));
    }
    FillKeeps(ws, i, j, specp, fl, Start(ws, j), NoFork);
    FillKeeps(ws, i, j, specp, fl, Start(ws, j), Amp);
    FillKeeps(ws, i, j, specp, fl, Start(ws, j), NoInterrupt);
  }

  /** A command without a list in parentheses. */
  lemma CommandReads(ws: seq<Word>, i: nat, j: nat, fl: set<Where>, kind: Word -> Keyword, t: Tree)
    requires i <= j <= |ws| && Balanced(ws, i, j) && FreeUpTo(5, ws, i, j) && Keywords(kind)
    requires IsSpecial(ws, i, j, kind) || Fill(ws, i, j, false, fl, Start(ws, j)).0.lp.None?
    requires !Fill(ws, i, j, IsSpecial(ws, i, j, kind), fl, Start(ws, j)).0.err
    ensures SimpleG(ws, i, j, fl, kind, t) <==> Simple(ws, i, j, fl, kind) == Outcome(t, false)
  {
    var specp := IsSpecial(ws, i, j, kind);
    var m := Fill(ws, i, j, specp, fl, Start(ws, j)).0;
    hide Fill, AllRight, Places, Sift, Told, IsSpecial, Simple, LineG;
    SimpleIs(ws, i, j, fl, kind);
    AloneFree(ws, i, j);
    StartErrs(ws, i, j, specp, fl);
    FillTold(ws, i, j, specp, fl);
    FillWords(ws, i, j, fl, kind);
    hide FreeUpTo, Alone, Balanced, Keywords;
    if SimpleG(ws, i, j, fl, kind, t) {
      ToldOnce(ws, i, j, t.rit, t.lef, t.flags, m.rit, m.lef, m.flags);
    }
  }

  /** A command with one. */
  lemma GroupIn(ws: seq<Word>, i: nat, j: nat, fl: set<Where>, kind: Word -> Keyword, t: Tree)
    returns (a: nat, b: nat)
    requires i <= j <= |ws| && Balanced(ws, i, j) && FreeUpTo(5, ws, i, j) && !IsSpecial(ws, i, j, kind)
    requires var m := Fill(ws, i, j, false, fl, Start(ws, j)).0; !m.err && m.lp.Some?
    requires SimpleG(ws, i, j, fl, kind, t)
    ensures var r := Fill(ws, i, j, false, fl, Start(ws, j)); var m := r.0;
      && r.1 == [] && m.lp == Some(a + 1) && m.rp == Some(b) && a < b <= |ws|
      && t.Paren? && t.sub.Some? && t == Paren(t.sub, m.lef, m.rit, m.flags)
      && LineG(ws, a + 1, b, {Here}, kind, t.sub.value)
  {
    hide Fill, AllRight, Places, Sift, Told, LineG, FreeUpTo, Alone, Balanced;
    StartErrs(ws, i, j, false, fl);
    FillTold(ws, i, j, false, fl);
    assert t.Paren?;
    a, b :| Group(ws, i, a, b, j) && LineG(ws, a + 1, b, {Here}, kind, t.sub.value);
    GroupRead(ws, i, a, b, j, fl);
    var m := Fill(ws, i, j, false, fl, Start(ws, j)).0;
    ToldOnce(ws, i, j, t.rit, t.lef, t.flags, m.rit, m.lef, m.flags);
  }

  lemma GroupOut(ws: seq<Word>, i: nat, j: nat, fl: set<Where>, kind: Word -> Keyword, t: Tree)
    requires i <= j <= |ws| && Balanced(ws, i, j) && FreeUpTo(5, ws, i, j) && !IsSpecial(ws, i, j, kind)
    requires var r := Fill(ws, i, j, false, fl, Start(ws, j)); var m := r.0;
      && !m.err && m.lp.Some? && r.1 == [] && t.Paren? && t == Paren(t.sub, m.lef, m.rit, m.flags) && t.sub.Some?
      && (m.rp.Some? && m.lp.value <= m.rp.value <= |ws| ==>
            LineG(ws, m.lp.value, m.rp.value, {Here}, kind, t.sub.value))
    ensures SimpleG(ws, i, j, fl, kind, t)
  {
    hide Fill, AllRight, Places, Sift, Told, LineG, Balanced;
    AloneFree(ws, i, j);
    hide FreeUpTo, Alone;
    StartErrs(ws, i, j, false, fl);
    FillTold(ws, i, j, false, fl);
    GroupFound(ws, i, j, fl);
    var m := Fill(ws, i, j, false, fl, Start(ws, j)).0;
    GroupIsIn(ws, i, m.lp.value - 1, m.rp.value, j);
    assert m.lp.value - 1 + 1 == m.lp.value;
  }

  lemma GroupIsIn(ws: seq<Word>, i: nat, a: nat, b: nat, j: nat)
    requires i <= j <= |ws| && Group(ws, i, a, b, j)
    ensures i <= a < b < j
  {
  }

  lemma SimpleReads(ws: seq<Word>, i: nat, j: nat, fl: set<Where>, kind: Word -> Keyword, t: Tree)
    requires i <= j <= |ws| && Keywords(kind)
    ensures SimpleG(ws, i, j, fl, kind, t) <==>
      Balanced(ws, i, j) && FreeUpTo(5, ws, i, j) && Simple(ws, i, j, fl, kind) == Outcome(t, false)
    decreases j - i, 2
  {
    hide Fill, LineG, Simple, Line;
    AloneFree(ws, i, j);
    if Balanced(ws, i, j) && FreeUpTo(5, ws, i, j) {
      SimpleIs(ws, i, j, fl, kind);
      StartErrs(ws, i, j, IsSpecial(ws, i, j, kind), fl);
      hide FreeUpTo, Alone, Balanced, AllRight, Places, Sift, Told, IsSpecial, Group;
      var m := Fill(ws, i, j, IsSpecial(ws, i, j, kind), fl, Start(ws, j)).0;
      if !m.err {
        if IsSpecial(ws, i, j, kind) || m.lp.None? {
          CommandReads(ws, i, j, fl, kind, t);
        } else {
          SubshellReads(ws, i, j, fl, kind, t);
        }
      }
    }
  }

  lemma SubshellReads(ws: seq<Word>, i: nat, j: nat, fl: set<Where>, kind: Word -> Keyword, t: Tree)
    requires i <= j <= |ws| && Keywords(kind) && Balanced(ws, i, j) && FreeUpTo(5, ws, i, j)
    requires !IsSpecial(ws, i, j, kind)
    requires var m := Fill(ws, i, j, false, fl, Start(ws, j)).0; !m.err && m.lp.Some?
    ensures SimpleG(ws, i, j, fl, kind, t) <==> Simple(ws, i, j, fl, kind) == Outcome(t, false)
    decreases j - i, 1
  {
    hide *;
    SimpleIs(ws, i, j, fl, kind);
    var m := Fill(ws, i, j, false, fl, Start(ws, j)).0;
    if SimpleG(ws, i, j, fl, kind, t) {
      var a, b := GroupIn(ws, i, j, fl, kind, t);
      LineReads(ws, a + 1, b, {Here}, kind, t.sub.value);
    }
    if Simple(ws, i, j, fl, kind) == Outcome(t, false) {
      Unclosed(ws, m.lp.value, m.rp.value);
      LineFinds(ws, m.lp.value, m.rp.value, {Here}, kind);
      LineReads(ws, m.lp.value, m.rp.value, {Here}, kind, t.sub.value);
      GroupOut(ws, i, j, fl, kind, t);
    }
  }

  lemma FreeJoin(op: Operator, ws: seq<Word>, i: nat, k: nat, a: nat, j: nat)
    requires i <= k < a <= j <= |ws| && Free(op, ws, i, k) && Free(op, ws, a, j) && Depth(ws, i, a) == 0
    requires forall p: nat :: k <= p < a ==> !Top(op, ws, i, p)
    ensures Free(op, ws, i, j)
  {
    forall p: nat | i <= p < j ensures !Top(op, ws, i, p) {
      if p < k {
        assert !Top(op, ws, i, p);
      } else if p >= a {
        DepthSplit(ws, i, a, p);
        assert !Top(op, ws, a, p);
      }
    }
  }

  /** The place behind an operator; that of a pipe may be two words. */
  predicate Follows(op: Operator, ws: seq<Word>, k: nat, a: nat, j: nat)
    requires k < j <= |ws|
  {
    k < a <= j && (a == k + 1 || (op == Pipe && a == k + 2 && Char(ws[k], 1) != 124 && ws[k + 1] == [38]))
  }

  /** No operator is a parenthesis. */
  lemma SameDepth(op: Operator, ws: seq<Word>, i: nat, k: nat, a: nat, j: nat)
    requires i <= k < j <= |ws| && Follows(op, ws, k, a, j) && Is(op, ws, i, k)
    ensures Depth(ws, i, a) == Depth(ws, i, k)
  {
    assert Depth(ws, i, k + 1) == Depth(ws, i, k);
  }

  lemma BalancedJoin(ws: seq<Word>, i: nat, k: nat, a: nat, j: nat)
    requires i <= k < a <= j <= |ws| && Balanced(ws, i, k) && Balanced(ws, a, j)
    requires forall p: nat :: k < p <= a ==> Depth(ws, i, p) == 0
    ensures Balanced(ws, i, j)
  {
    hide Depth;
    forall p: nat | i <= p <= j ensures Depth(ws, i, p) >= 0 {
      if p >= a {
        DepthSplit(ws, i, a, p);
      }
    }
    DepthSplit(ws, i, a, j);
  }

  /** Two parts with an operator between them make a whole, in which that operator is the first of its level. */
  lemma Joined(level: nat, ws: seq<Word>, i: nat, k: nat, a: nat, j: nat)
    requires 1 <= level <= 4 && i <= k < j <= |ws| && Follows(OpOf(level), ws, k, a, j) && Is(OpOf(level), ws, i, k)
    requires level == 4 ==> Char(ws[k], 1) != 124
    requires Balanced(ws, i, k) && FreeUpTo(level + 1, ws, i, k) && Balanced(ws, a, j) && FreeUpTo(level, ws, a, j)
    ensures Balanced(ws, i, j) && FreeUpTo(level, ws, i, j) && FirstTop(OpOf(level), ws, i, i, j) == k
    ensures Depth(ws, i, k) == 0
  {
    SameDepth(OpOf(level), ws, i, k, k + 1, j);
    SameDepth(OpOf(level), ws, i, k, a, j);
    BalancedJoin(ws, i, k, a, j);
    NotBetween(level, ws, i, k, a, j);
    hide Is;
    FreeJoin(Background, ws, i, k, a, j);
    if level > 1 { FreeJoin(Sequence, ws, i, k, a, j); }
    if level > 2 { FreeJoin(Or, ws, i, k, a, j); }
    if level > 3 { FreeJoin(And, ws, i, k, a, j); }
    FirstTopIs(OpOf(level), ws, i, i, k, j);
  }

  /** An operator is none of those of earlier levels. */
  lemma NotBetween(level: nat, ws: seq<Word>, i: nat, k: nat, a: nat, j: nat)
    requires 1 <= level <= 4 && i <= k < j <= |ws| && Follows(OpOf(level), ws, k, a, j) && Is(OpOf(level), ws, i, k)
    requires level == 4 ==> Char(ws[k], 1) != 124
    ensures forall p: nat | k <= p < a ::
      && !Is(Background, ws, i, p) && (level > 1 ==> !Is(Sequence, ws, i, p))
      && (level > 2 ==> !Is(Or, ws, i, p)) && (level > 3 ==> !Is(And, ws, i, p))
  {
  }

  /** Behind a pipe, `&` belongs to it. */
  lemma BothIs(ws: seq<Word>, i: nat, k: nat, j: nat)
    requires i <= k < j <= |ws| && Char(ws[k], 0) == 124 && Char(ws[k], 1) != 124 && Depth(ws, i, k) == 0
    requires FreeUpTo(4, ws, i, j)
    ensures Both(ws, k, j) <==> k + 1 < j && ws[k + 1] == [38]
  {
    if Both(ws, k, j) {
      assert Depth(ws, i, k + 1) == 0;
      assert !Top(Background, ws, i, k + 1) && !Top(And, ws, i, k + 1);
    }
  }

  /** A pipe at this level is no or-or. */
  lemma PipeIs(ws: seq<Word>, i: nat, k: nat, j: nat)
    requires i <= k < j <= |ws| && FreeUpTo(4, ws, i, j)
    ensures Top(Pipe, ws, i, k) <==> Char(ws[k], 0) == 124 && Char(ws[k], 1) != 124 && Depth(ws, i, k) == 0
  {
    assert !Top(Or, ws, i, k);
  }

  lemma {:induction false} PipesReads(ws: seq<Word>, i: nat, j: nat, fl: set<Where>, kind: Word -> Keyword, t: Tree)
    requires i <= j <= |ws| && Keywords(kind)
    ensures PipesG(ws, i, j, fl, kind, t) <==>
      Balanced(ws, i, j) && FreeUpTo(4, ws, i, j) && Pipes(ws, i, j, fl, kind) == Outcome(t, false)
    decreases j - i, 3
  {
    hide SimpleG, PipeAt, Pipes, Simple, FirstTop, FreeUpTo, Balanced, Top, Keywords;
    SimpleReads(ws, i, j, fl, kind, t);
    if SimpleG(ws, i, j, fl, kind, t) {
      NoPipe(ws, i, j);
      PipesIs(ws, i, j, fl, kind);
    } else if PipesG(ws, i, j, fl, kind, t) {
      var k := PipePlace(ws, i, j, fl, kind, t);
      PipeIn(ws, i, k, j, fl, kind, t);
    }
    if Balanced(ws, i, j) && FreeUpTo(4, ws, i, j) && Pipes(ws, i, j, fl, kind) == Outcome(t, false) {
      PipesIs(ws, i, j, fl, kind);
      if FirstTop(Pipe, ws, i, i, j) < j {
        PipeOut(ws, i, j, fl, kind, t);
      }
    }
  }

  lemma PipePlace(ws: seq<Word>, i: nat, j: nat, fl: set<Where>, kind: Word -> Keyword, t: Tree) returns (k: nat)
    requires i <= j <= |ws| && PipesG(ws, i, j, fl, kind, t) && !SimpleG(ws, i, j, fl, kind, t)
    ensures i <= k < j && PipeAt(ws, i, k, j, fl, kind, t)
  {
    k :| i <= k < j && PipeAt(ws, i, k, j, fl, kind, t);
  }

  lemma NoPipe(ws: seq<Word>, i: nat, j: nat)
    requires i <= j <= |ws| && FreeUpTo(5, ws, i, j)
    ensures FreeUpTo(4, ws, i, j) && FirstTop(Pipe, ws, i, i, j) == j
  {
  }

  lemma PipeIn(ws: seq<Word>, i: nat, k: nat, j: nat, fl: set<Where>, kind: Word -> Keyword, t: Tree)
    requires i <= k < j <= |ws| && Keywords(kind) && PipeAt(ws, i, k, j, fl, kind, t)
    ensures Balanced(ws, i, j) && FreeUpTo(4, ws, i, j) && Pipes(ws, i, j, fl, kind) == Outcome(t, false)
    decreases j - i, 2, 1
  {
    hide SimpleG, PipesG, Pipes, Simple, FirstTop, FreeUpTo, Balanced, Top, Keywords;
    var both := k + 1 < j && ws[k + 1] == [38];
    var p := if both then k + 2 else k + 1;
    SimpleReads(ws, i, k, fl + (if both then {Out, Err} else {Out}), kind, t.l);
    PipesReads(ws, p, j, fl + {In}, kind, t.r);
    Joined(4, ws, i, k, p, j);
    PipesIs(ws, i, j, fl, kind);
    hide *;
    BothIs(ws, i, k, j);
  }

  lemma PipeOut(ws: seq<Word>, i: nat, j: nat, fl: set<Where>, kind: Word -> Keyword, t: Tree)
    requires i <= j <= |ws| && Keywords(kind) && Balanced(ws, i, j) && FreeUpTo(4, ws, i, j)
    requires FirstTop(Pipe, ws, i, i, j) < j && Pipes(ws, i, j, fl, kind) == Outcome(t, false)
    ensures PipeAt(ws, i, FirstTop(Pipe, ws, i, i, j), j, fl, kind, t)
    decreases j - i, 2, 1
  {
    hide SimpleG, PipesG, Pipes, Simple, FirstTop, FreeUpTo, Balanced, Keywords;
    var k := FirstTop(Pipe, ws, i, i, j);
    PipesIs(ws, i, j, fl, kind);
    PipeIs(ws, i, k, j);
    BothIs(ws, i, k, j);
    var both := Both(ws, k, j);
    SimpleReads(ws, i, k, fl + (if both then {Out, Err} else {Out}), kind, t.l);
    PipesReads(ws, if both then k + 2 else k + 1, j, fl + {In}, kind, t.r);
  }

  lemma {:induction false} AndsReads(ws: seq<Word>, i: nat, j: nat, fl: set<Where>, kind: Word -> Keyword, t: Tree)
    requires i <= j <= |ws| && Keywords(kind)
    ensures AndsG(ws, i, j, fl, kind, t) <==>
      Balanced(ws, i, j) && FreeUpTo(3, ws, i, j) && Ands(ws, i, j, fl, kind) == Outcome(t, false)
    decreases j - i, 4
  {
    hide PipesG, AndAt, Ands, Pipes, FirstTop, FreeUpTo, Balanced, Top, Keywords;
    PipesReads(ws, i, j, fl, kind, t);
    if PipesG(ws, i, j, fl, kind, t) {
      NoAnd(ws, i, j);
      AndsIs(ws, i, j, fl, kind);
    } else if AndsG(ws, i, j, fl, kind, t) {
      var k := AndPlace(ws, i, j, fl, kind, t);
      AndIn(ws, i, k, j, fl, kind, t);
    }
    if Balanced(ws, i, j) && FreeUpTo(3, ws, i, j) && Ands(ws, i, j, fl, kind) == Outcome(t, false) {
      AndsIs(ws, i, j, fl, kind);
      if FirstTop(And, ws, i, i, j) < j {
        AndOut(ws, i, j, fl, kind, t);
      }
    }
  }

  lemma AndPlace(ws: seq<Word>, i: nat, j: nat, fl: set<Where>, kind: Word -> Keyword, t: Tree) returns (k: nat)
    requires i <= j <= |ws| && AndsG(ws, i, j, fl, kind, t) && !PipesG(ws, i, j, fl, kind, t)
    ensures i <= k < j && AndAt(ws, i, k, j, fl, kind, t)
  {
    k :| i <= k < j && AndAt(ws, i, k, j, fl, kind, t);
  }

  lemma NoAnd(ws: seq<Word>, i: nat, j: nat)
    requires i <= j <= |ws| && FreeUpTo(4, ws, i, j)
    ensures FreeUpTo(3, ws, i, j) && FirstTop(And, ws, i, i, j) == j
  {
  }

  lemma AndIn(ws: seq<Word>, i: nat, k: nat, j: nat, fl: set<Where>, kind: Word -> Keyword, t: Tree)
    requires i <= k < j <= |ws| && Keywords(kind) && AndAt(ws, i, k, j, fl, kind, t)
    ensures Balanced(ws, i, j) && FreeUpTo(3, ws, i, j) && Ands(ws, i, j, fl, kind) == Outcome(t, false)
    decreases j - i, 3, 1
  {
    hide PipesG, AndsG, Ands, Pipes, FirstTop, FreeUpTo, Balanced, Top, Keywords;
    PipesReads(ws, i, k, fl, kind, t.l);
    AndsReads(ws, k + 1, j, fl, kind, t.r);
    Joined(3, ws, i, k, k + 1, j);
    AndsIs(ws, i, j, fl, kind);
  }

  lemma AndOut(ws: seq<Word>, i: nat, j: nat, fl: set<Where>, kind: Word -> Keyword, t: Tree)
    requires i <= j <= |ws| && Keywords(kind) && Balanced(ws, i, j) && FreeUpTo(3, ws, i, j)
    requires FirstTop(And, ws, i, i, j) < j && Ands(ws, i, j, fl, kind) == Outcome(t, false)
    ensures AndAt(ws, i, FirstTop(And, ws, i, i, j), j, fl, kind, t)
    decreases j - i, 3, 1
  {
    hide PipesG, AndsG, Ands, Pipes, FirstTop, FreeUpTo, Balanced, Keywords;
    var k := FirstTop(And, ws, i, i, j);
    AndsIs(ws, i, j, fl, kind);
    PipesReads(ws, i, k, fl, kind, t.l);
    AndsReads(ws, k + 1, j, fl, kind, t.r);
  }

  lemma {:induction false} OrsReads(ws: seq<Word>, i: nat, j: nat, fl: set<Where>, kind: Word -> Keyword, t: Tree)
    requires i <= j <= |ws| && Keywords(kind)
    ensures OrsG(ws, i, j, fl, kind, t) <==>
      Balanced(ws, i, j) && FreeUpTo(2, ws, i, j) && Ors(ws, i, j, fl, kind) == Outcome(t, false)
    decreases j - i, 5
  {
    hide AndsG, OrAt, Ors, Ands, FirstTop, FreeUpTo, Balanced, Top, Keywords;
    AndsReads(ws, i, j, fl, kind, t);
    if AndsG(ws, i, j, fl, kind, t) {
      NoOr(ws, i, j);
      OrsIs(ws, i, j, fl, kind);
    } else if OrsG(ws, i, j, fl, kind, t) {
      var k := OrPlace(ws, i, j, fl, kind, t);
      OrIn(ws, i, k, j, fl, kind, t);
    }
    if Balanced(ws, i, j) && FreeUpTo(2, ws, i, j) && Ors(ws, i, j, fl, kind) == Outcome(t, false) {
      OrsIs(ws, i, j, fl, kind);
      if FirstTop(Or, ws, i, i, j) < j {
        OrOut(ws, i, j, fl, kind, t);
      }
    }
  }

  lemma OrPlace(ws: seq<Word>, i: nat, j: nat, fl: set<Where>, kind: Word -> Keyword, t: Tree) returns (k: nat)
    requires i <= j <= |ws| && OrsG(ws, i, j, fl, kind, t) && !AndsG(ws, i, j, fl, kind, t)
    ensures i <= k < j && OrAt(ws, i, k, j, fl, kind, t)
  {
    k :| i <= k < j && OrAt(ws, i, k, j, fl, kind, t);
  }

  lemma NoOr(ws: seq<Word>, i: nat, j: nat)
    requires i <= j <= |ws| && FreeUpTo(3, ws, i, j)
    ensures FreeUpTo(2, ws, i, j) && FirstTop(Or, ws, i, i, j) == j
  {
  }

  lemma OrIn(ws: seq<Word>, i: nat, k: nat, j: nat, fl: set<Where>, kind: Word -> Keyword, t: Tree)
    requires i <= k < j <= |ws| && Keywords(kind) && OrAt(ws, i, k, j, fl, kind, t)
    ensures Balanced(ws, i, j) && FreeUpTo(2, ws, i, j) && Ors(ws, i, j, fl, kind) == Outcome(t, false)
    decreases j - i, 4, 1
  {
    hide AndsG, OrsG, Ors, Ands, FirstTop, FreeUpTo, Balanced, Top, Keywords;
    AndsReads(ws, i, k, fl, kind, t.l);
    OrsReads(ws, k + 1, j, fl, kind, t.r);
    Joined(2, ws, i, k, k + 1, j);
    OrsIs(ws, i, j, fl, kind);
  }

  lemma OrOut(ws: seq<Word>, i: nat, j: nat, fl: set<Where>, kind: Word -> Keyword, t: Tree)
    requires i <= j <= |ws| && Keywords(kind) && Balanced(ws, i, j) && FreeUpTo(2, ws, i, j)
    requires FirstTop(Or, ws, i, i, j) < j && Ors(ws, i, j, fl, kind) == Outcome(t, false)
    ensures OrAt(ws, i, FirstTop(Or, ws, i, i, j), j, fl, kind, t)
    decreases j - i, 4, 1
  {
    hide AndsG, OrsG, Ors, Ands, FirstTop, FreeUpTo, Balanced, Keywords;
    var k := FirstTop(Or, ws, i, i, j);
    OrsIs(ws, i, j, fl, kind);
    AndsReads(ws, i, k, fl, kind, t.l);
    OrsReads(ws, k + 1, j, fl, kind, t.r);
  }

  lemma {:induction false} JobsReads(ws: seq<Word>, i: nat, j: nat, fl: set<Where>, kind: Word -> Keyword, t: Tree)
    requires i <= j <= |ws| && Keywords(kind)
    ensures JobsG(ws, i, j, fl, kind, t) <==>
      Balanced(ws, i, j) && FreeUpTo(1, ws, i, j) && Jobs(ws, i, j, fl, kind) == Outcome(t, false)
    decreases j - i, 6
  {
    hide OrsG, JobAt, Jobs, Ors, FirstTop, FreeUpTo, Balanced, Top, Keywords;
    OrsReads(ws, i, j, fl, kind, t);
    if OrsG(ws, i, j, fl, kind, t) {
      NoSequence(ws, i, j);
      JobsIs(ws, i, j, fl, kind);
    } else if JobsG(ws, i, j, fl, kind, t) {
      var k := SequencePlace(ws, i, j, fl, kind, t);
      SequenceIn(ws, i, k, j, fl, kind, t);
    }
    if Balanced(ws, i, j) && FreeUpTo(1, ws, i, j) && Jobs(ws, i, j, fl, kind) == Outcome(t, false) {
      JobsIs(ws, i, j, fl, kind);
      if FirstTop(Sequence, ws, i, i, j) < j {
        SequenceOut(ws, i, j, fl, kind, t);
      }
    }
  }

  lemma SequencePlace(ws: seq<Word>, i: nat, j: nat, fl: set<Where>, kind: Word -> Keyword, t: Tree) returns (k: nat)
    requires i <= j <= |ws| && JobsG(ws, i, j, fl, kind, t) && !OrsG(ws, i, j, fl, kind, t)
    ensures i <= k < j && JobAt(ws, i, k, j, fl, kind, t)
  {
    k :| i <= k < j && JobAt(ws, i, k, j, fl, kind, t);
  }

  lemma NoSequence(ws: seq<Word>, i: nat, j: nat)
    requires i <= j <= |ws| && FreeUpTo(2, ws, i, j)
    ensures FreeUpTo(1, ws, i, j) && FirstTop(Sequence, ws, i, i, j) == j
  {
  }

  lemma SequenceIn(ws: seq<Word>, i: nat, k: nat, j: nat, fl: set<Where>, kind: Word -> Keyword, t: Tree)
    requires i <= k < j <= |ws| && Keywords(kind) && JobAt(ws, i, k, j, fl, kind, t)
    ensures Balanced(ws, i, j) && FreeUpTo(1, ws, i, j) && Jobs(ws, i, j, fl, kind) == Outcome(t, false)
    decreases j - i, 5, 1
  {
    hide OrsG, MoreG, Jobs, Ors, Text, FirstTop, FreeUpTo, Balanced, NoDip, Top, Keywords;
    OrsReads(ws, i, k, fl, kind, if t.car.Some? then t.car.value else t.cdr.value);
    MoreReads(ws, k + 1, j, fl, kind, if t.car.Some? then t.cdr else None);
    Joined(1, ws, i, k, k + 1, j);
    JobsIs(ws, i, j, fl, kind);
  }

  lemma SequenceOut(ws: seq<Word>, i: nat, j: nat, fl: set<Where>, kind: Word -> Keyword, t: Tree)
    requires i <= j <= |ws| && Keywords(kind) && Balanced(ws, i, j) && FreeUpTo(1, ws, i, j)
    requires FirstTop(Sequence, ws, i, i, j) < j && Jobs(ws, i, j, fl, kind) == Outcome(t, false)
    ensures JobAt(ws, i, FirstTop(Sequence, ws, i, i, j), j, fl, kind, t)
    decreases j - i, 5, 1
  {
    hide OrsG, MoreG, Jobs, Ors, Text, FirstTop, FreeUpTo, Balanced, NoDip, Keywords;
    var k := FirstTop(Sequence, ws, i, i, j);
    JobsIs(ws, i, j, fl, kind);
    RightPart(1, ws, i, k + 1, j);
    OrsReads(ws, i, k, fl, kind, if t.car.Some? then t.car.value else t.cdr.value);
    MoreReads(ws, k + 1, j, fl, kind, if t.car.Some? then t.cdr else None);
  }

  /** A separator in front does not matter for the parentheses and operators behind it. */
  lemma BehindSeparator(ws: seq<Word>, i: nat, j: nat)
    requires i < j <= |ws| && (Char(ws[i], 0) == 59 || Char(ws[i], 0) == 10 || Char(ws[i], 0) == 38)
    ensures NoDip(ws, i, j) <==> NoDip(ws, i + 1, j)
    ensures Depth(ws, i, j) == Depth(ws, i + 1, j)
    ensures !Is(Background, ws, i, i) ==> (FreeUpTo(1, ws, i, j) <==> FreeUpTo(1, ws, i + 1, j))
  {
    assert Depth(ws, i, i) == 0 == Depth(ws, i, i + 1);
    hide Is, Depth;
    forall p: nat | i + 1 <= p <= j ensures Depth(ws, i, p) == Depth(ws, i + 1, p) {
      DepthSplit(ws, i, i + 1, p);
    }
    forall p: nat | i + 1 <= p < j ensures Is(Background, ws, i, p) <==> Is(Background, ws, i + 1, p) {
      SameBehind(ws, i, p);
    }
    BehindDips(ws, i, j);
    BehindFree(ws, i, j);
  }

  lemma SameBehind(ws: seq<Word>, i: nat, p: nat)
    requires i < p < |ws| && (Char(ws[i], 0) == 59 || Char(ws[i], 0) == 10 || Char(ws[i], 0) == 38)
    ensures Is(Background, ws, i, p) <==> Is(Background, ws, i + 1, p)
  {
  }

  lemma BehindDips(ws: seq<Word>, i: nat, j: nat)
    requires i < j <= |ws| && Depth(ws, i, i) == 0
    requires forall p: nat :: i + 1 <= p <= j ==> Depth(ws, i, p) == Depth(ws, i + 1, p)
    ensures NoDip(ws, i, j) <==> NoDip(ws, i + 1, j)
  {
    hide Depth;
    if NoDip(ws, i + 1, j) {
      forall p: nat | i <= p <= j ensures Depth(ws, i, p) >= 0 {
        assert p > i ==> Depth(ws, i, p) == Depth(ws, i + 1, p);
      }
    }
    if NoDip(ws, i, j) {
      var s := i + 1;
      forall p: nat | s <= p <= j ensures Depth(ws, s, p) >= 0 {
        assert Depth(ws, i, p) == Depth(ws, i + 1, p);
      }
    }
  }

  lemma BehindFree(ws: seq<Word>, i: nat, j: nat)
    requires i < j <= |ws| && forall p: nat :: i + 1 <= p <= j ==> Depth(ws, i, p) == Depth(ws, i + 1, p)
    requires forall p: nat :: i + 1 <= p < j ==> (Is(Background, ws, i, p) <==> Is(Background, ws, i + 1, p))
    ensures !Is(Background, ws, i, i) ==> (FreeUpTo(1, ws, i, j) <==> FreeUpTo(1, ws, i + 1, j))
  {
    hide Is, Depth;
    if !Is(Background, ws, i, i) && FreeUpTo(1, ws, i + 1, j) {
      forall p: nat | i <= p < j ensures !Top(Background, ws, i, p) {
        assert p > i ==> !Top(Background, ws, i + 1, p);
      }
    }
    if FreeUpTo(1, ws, i, j) {
      var s := i + 1;
      forall p: nat | s <= p < j ensures !Top(Background, ws, s, p) {
        assert !Top(Background, ws, i, p);
      }
    }
  }

  /** Where there is no `&` outside of parentheses, `syn0` comes to `syn1`. */
  lemma LineIsJobs(ws: seq<Word>, i: nat, j: nat, fl: set<Where>, kind: Word -> Keyword)
    requires i <= j <= |ws| && Balanced(ws, i, j) && FreeUpTo(1, ws, i, j)
    ensures var r := Jobs(ws, i, j, fl, kind); Line(ws, i, j, fl, kind) == Outcome(Some(r.t), r.err)
  {
    hide Jobs, Text, InBackground;
    assert FirstTop(Background, ws, i, i, j) == j;
  }

  lemma LineFinds(ws: seq<Word>, i: nat, j: nat, fl: set<Where>, kind: Word -> Keyword)
    requires i <= j <= |ws| && NoDip(ws, i, j) && !Line(ws, i, j, fl, kind).err
    ensures Line(ws, i, j, fl, kind).t.Some?
  {
    hide Jobs, Text, InBackground;
  }

  lemma {:induction false} MoreReads(ws: seq<Word>, i: nat, j: nat, fl: set<Where>, kind: Word -> Keyword,
                                     t: Option<Tree>)
    requires i <= j <= |ws| && Keywords(kind)
    ensures MoreG(ws, i, j, fl, kind, t) <==>
      Balanced(ws, i, j) && FreeUpTo(1, ws, i, j) && Text(ws, i, j, fl, kind) == Outcome(t, false)
    decreases j - i, 7
  {
    hide JobsG, Jobs, Line, FreeUpTo, Keywords, NoDip;
    if i == j {
      NothingFree(ws, i);
    } else {
      var c := Char(ws[i], 0);
      if c == 59 || c == 10 || (c == 38 && Char(ws[i], 1) == 38) {
        BehindSeparator(ws, i, j);
        MoreReads(ws, i + 1, j, fl, kind, t);
      } else {
        if t.Some? {
          JobsReads(ws, i, j, fl, kind, t.value);
        }
        if Balanced(ws, i, j) && FreeUpTo(1, ws, i, j) {
          NotFirst(ws, i, j);
          LineIsJobs(ws, i, j, fl, kind);
        }
      }
    }
  }

  lemma NothingFree(ws: seq<Word>, i: nat)
    requires i <= |ws|
    ensures NoDip(ws, i, i) && Balanced(ws, i, i) && FreeUpTo(1, ws, i, i)
  {
  }

  lemma NotFirst(ws: seq<Word>, i: nat, j: nat)
    requires i < j <= |ws| && FreeUpTo(1, ws, i, j)
    ensures Char(ws[i], 0) == 38 ==> Char(ws[i], 1) == 38
  {
    assert !Top(Background, ws, i, i);
  }

  lemma {:induction false} LineReads(ws: seq<Word>, i: nat, j: nat, fl: set<Where>, kind: Word -> Keyword, t: Tree)
    requires i <= j <= |ws| && Keywords(kind)
    ensures LineG(ws, i, j, fl, kind, t) <==>
      NoDip(ws, i, j) && Line(ws, i, j, fl, kind) == Outcome(Some(t), false)
    decreases j - i, 8
  {
    hide JobsG, BehindAt, Jobs, Line, Text, FirstTop, FreeUpTo, NoDip, Top, Keywords;
    JobsReads(ws, i, j, fl, kind, t);
    if JobsG(ws, i, j, fl, kind, t) {
      LineIsJobs(ws, i, j, fl, kind);
    } else if LineG(ws, i, j, fl, kind, t) {
      var k, a := BehindPlace(ws, i, j, fl, kind, t);
      BehindIn(ws, i, k, j, fl, kind, a, t);
    }
    if NoDip(ws, i, j) && Line(ws, i, j, fl, kind) == Outcome(Some(t), false) {
      if FirstTop(Background, ws, i, i, j) < j {
        BehindOut(ws, i, j, fl, kind, t);
      } else {
        WholeLine(ws, i, j, fl, kind);
        LineIsJobs(ws, i, j, fl, kind);
      }
    }
  }

  lemma BehindPlace(ws: seq<Word>, i: nat, j: nat, fl: set<Where>, kind: Word -> Keyword, t: Tree)
    returns (k: nat, a: Tree)
    requires i <= j <= |ws| && LineG(ws, i, j, fl, kind, t) && !JobsG(ws, i, j, fl, kind, t)
    ensures i < k < j && BehindAt(ws, i, k, j, fl, kind, a, t)
  {
    k, a :| i < k < j && BehindAt(ws, i, k, j, fl, kind, a, t);
  }

  lemma WholeLine(ws: seq<Word>, i: nat, j: nat, fl: set<Where>, kind: Word -> Keyword)
    requires i <= j <= |ws| && NoDip(ws, i, j) && FirstTop(Background, ws, i, i, j) == j
    requires !Line(ws, i, j, fl, kind).err
    ensures Balanced(ws, i, j) && FreeUpTo(1, ws, i, j)
  {
    hide Jobs, Text;
  }

  lemma LineIs(ws: seq<Word>, i: nat, j: nat, fl: set<Where>, kind: Word -> Keyword)
    requires i <= j <= |ws| && NoDip(ws, i, j) && FirstTop(Background, ws, i, i, j) < j
    ensures var k := FirstTop(Background, ws, i, i, j);
      && Top(Background, ws, i, k) && Balanced(ws, i, k) && FreeUpTo(1, ws, i, k) && NoDip(ws, k, j)
      && var a, b := Jobs(ws, i, k, fl, kind), Text(ws, k, j, fl, kind);
         Line(ws, i, j, fl, kind) == Outcome(Some(ListNode(Some(InBackground(a.t)), b.t)), a.err || b.err)
  {
    hide Jobs, Text, InBackground;
    LeftPart(0, ws, i, j);
    BalancedPart(ws, i, FirstTop(Background, ws, i, i, j), j, j);
  }

  lemma BehindIn(ws: seq<Word>, i: nat, k: nat, j: nat, fl: set<Where>, kind: Word -> Keyword, a: Tree, t: Tree)
    requires i < k < j <= |ws| && Keywords(kind) && BehindAt(ws, i, k, j, fl, kind, a, t)
    ensures NoDip(ws, i, j) && Line(ws, i, j, fl, kind) == Outcome(Some(t), false)
    decreases j - i, 7, 1
  {
    hide JobsG, TextG, Jobs, Line, Text, FirstTop, Keywords;
    JobsReads(ws, i, k, fl, kind, a);
    TextReads(ws, k, j, fl, kind, t.cdr);
    StartsBackground(ws, i, k, j);
    hide Balanced, FreeUpTo, NoDip, Top;
    LineIs(ws, i, j, fl, kind);
  }

  lemma StartsBackground(ws: seq<Word>, i: nat, k: nat, j: nat)
    requires i < k < j <= |ws| && Balanced(ws, i, k) && FreeUpTo(1, ws, i, k) && NoDip(ws, k, j)
    requires Is(Background, ws, i, k)
    ensures NoDip(ws, i, j) && FirstTop(Background, ws, i, i, j) == k
  {
    forall p: nat | i <= p <= j ensures Depth(ws, i, p) >= 0 {
      if p >= k {
        DepthSplit(ws, i, k, p);
      }
    }
    FirstTopIs(Background, ws, i, i, k, j);
  }

  lemma BehindOut(ws: seq<Word>, i: nat, j: nat, fl: set<Where>, kind: Word -> Keyword, t: Tree)
    requires i <= j <= |ws| && Keywords(kind) && NoDip(ws, i, j) && FirstTop(Background, ws, i, i, j) < j
    requires Line(ws, i, j, fl, kind) == Outcome(Some(t), false)
    ensures var k := FirstTop(Background, ws, i, i, j);
      && i < k && NoDip(ws, i, k) && Depth(ws, i, k) == 0 && FreeUpTo(1, ws, i, k)
      && BehindAt(ws, i, k, j, fl, kind, Jobs(ws, i, k, fl, kind).t, t)
    decreases j - i, 7, 1
  {
    hide JobsG, TextG, Jobs, Line, Text, FirstTop, FreeUpTo, NoDip, Keywords;
    var k := FirstTop(Background, ws, i, i, j);
    LineIs(ws, i, j, fl, kind);
    if i == k {
      NoJobs(ws, i, fl, kind);
    }
    JobsReads(ws, i, k, fl, kind, Jobs(ws, i, k, fl, kind).t);
    TextReads(ws, k, j, fl, kind, t.cdr);
  }

  /** No words are no list. */
  lemma NoJobs(ws: seq<Word>, i: nat, fl: set<Where>, kind: Word -> Keyword)
    requires i <= |ws| && Balanced(ws, i, i) && FreeUpTo(1, ws, i, i)
    ensures Jobs(ws, i, i, fl, kind).err
  {
    JobsIs(ws, i, i, fl, kind);
    OrsIs(ws, i, i, fl, kind);
    AndsIs(ws, i, i, fl, kind);
    hide *;
    NothingErrs(ws, i, fl, kind);
  }

  /** The parser finds no error in a text exactly if the grammar has a tree for it, and then it finds that tree. */
  lemma {:induction false} TextReads(ws: seq<Word>, i: nat, j: nat, fl: set<Where>, kind: Word -> Keyword,
                                     t: Option<Tree>)
    requires i <= j <= |ws| && Keywords(kind)
    ensures TextG(ws, i, j, fl, kind, t) <==> NoDip(ws, i, j) && Text(ws, i, j, fl, kind) == Outcome(t, false)
    decreases j - i, 9
  {
    hide LineG, Line, NoDip, Keywords;
    if i == j {
      NothingFree(ws, i);
    } else {
      var c := Char(ws[i], 0);
      if c == 59 || c == 10 || c == 38 {
        BehindSeparator(ws, i, j);
        TextReads(ws, i + 1, j, fl, kind, t);
      } else {
        if t.Some? {
          LineReads(ws, i, j, fl, kind, t.value);
        }
        if NoDip(ws, i, j) && !Line(ws, i, j, fl, kind).err {
          LineFinds(ws, i, j, fl, kind);
        }
      }
    }
  }

  /** So the parser finds an error in a text exactly if the grammar has no tree for it. */
  lemma ErrsExactly(ws: seq<Word>, fl: set<Where>, kind: Word -> Keyword)
    requires NoDip(ws, 0, |ws|) && Keywords(kind)
    ensures Text(ws, 0, |ws|, fl, kind).err <==> forall t :: !TextG(ws, 0, |ws|, fl, kind, t)
  {
    hide Text;
    if Text(ws, 0, |ws|, fl, kind).err {
      forall t ensures !TextG(ws, 0, |ws|, fl, kind, t) {
        TextReads(ws, 0, |ws|, fl, kind, t);
      }
    } else {
      TextReads(ws, 0, |ws|, fl, kind, Text(ws, 0, |ws|, fl, kind).t);
    }
  }

  /** A command begins with a keyword if there is one behind nothing but words like `else`. */
  lemma {:induction false} SpecialExactly(ws: seq<Word>, i: nat, j: nat, kind: Word -> Keyword)
    requires i <= j <= |ws|
    ensures IsSpecial(ws, i, j, kind) <==>
      exists k: nat :: i <= k < j && kind(ws[k]) == Special && forall p: nat :: i <= p < k ==> kind(ws[p]) == Else
    decreases j - i
  {
    if i < j {
      SpecialExactly(ws, i + 1, j, kind);
      if kind(ws[i]) == Else && IsSpecial(ws, i + 1, j, kind) {
        var k: nat :| i + 1 <= k < j && kind(ws[k]) == Special
          && forall p: nat :: i + 1 <= p < k ==> kind(ws[p]) == Else;
        assert forall p: nat :: i <= p < k ==> kind(ws[p]) == Else;
      }
    }
  }
}
