/** The recursive parser of csh (bin/csh/parse.c). */
module ParseSyntax {
  import opened Basics
  import opened ParseCommand

  const BAR := 124
  const AND := 38
  const SEMI := 59
  const NEWLINE := 10

  /** How many parentheses are open at place k, seen from place i. */
  function Depth(ws: seq<Word>, i: nat, k: nat): int
    requires i <= k <= |ws|
  {
    if k == i then 0
    else
      var c := Char(ws[k - 1], 0);
      Depth(ws, i, k - 1) + if c == LPAR then 1 else if c == RPAR then -1 else 0
  }

  /** No parenthesis is closed that has not been opened. */
  ghost predicate NoDip(ws: seq<Word>, i: nat, j: nat)
    requires i <= j <= |ws|
  {
    forall k :: i <= k <= j ==> Depth(ws, i, k) >= 0
  }

  ghost predicate Balanced(ws: seq<Word>, i: nat, j: nat)
    requires i <= j <= |ws|
  {
    NoDip(ws, i, j) && Depth(ws, i, j) == 0
  }

  lemma {:induction false} DepthSplit(ws: seq<Word>, i: nat, m: nat, k: nat)
    requires i <= m <= k <= |ws|
    ensures Depth(ws, i, k) == Depth(ws, i, m) + Depth(ws, m, k)
    decreases k - m
  {
    if m < k {
      DepthSplit(ws, i, m, k - 1);
    }
  }

  /** A stretch between two places of depth zero is balanced, if the whole is. */
  lemma BalancedPart(ws: seq<Word>, i: nat, a: nat, b: nat, j: nat)
    requires i <= a <= b <= j <= |ws| && NoDip(ws, i, j) && Depth(ws, i, a) == 0
    ensures NoDip(ws, a, b) && (Depth(ws, i, b) == 0 ==> Balanced(ws, a, b))
  {
    forall k: nat | a <= k <= b ensures Depth(ws, a, k) == Depth(ws, i, k) {
      DepthSplit(ws, i, a, k);
    }
  }

  /** The operators, the weakest first. */
  datatype Operator = Background | Sequence | Or | And | Pipe

  /** The `&` of `>&` and `|&` is not an operator. */
  predicate Consumed(ws: seq<Word>, i: nat, k: nat)
    requires i <= k < |ws|
  {
    k > i && ws[k] == AMPERSAND && (Char(ws[k - 1], 0) == GREATER || (Char(ws[k - 1], 0) == BAR && Char(ws[k - 1],
      1) != BAR))
  }

  predicate Is(op: Operator, ws: seq<Word>, i: nat, k: nat)
    requires i <= k < |ws|
  {
    var c, d := Char(ws[k], 0), Char(ws[k], 1);
    match op
    case Background => c == AND && d != AND && !Consumed(ws, i, k)
    case Sequence => c == SEMI || c == NEWLINE
    case Or => c == BAR && d == BAR
    case And => c == AND && d == AND
    case Pipe => c == BAR
  }

  /** An operator outside of all parentheses. */
  predicate Top(op: Operator, ws: seq<Word>, i: nat, k: nat)
    requires i <= k < |ws|
  {
    Is(op, ws, i, k) && Depth(ws, i, k) == 0
  }

  /** No such operator outside of parentheses. */
  ghost predicate Free(op: Operator, ws: seq<Word>, i: nat, j: nat)
    requires i <= j <= |ws|
  {
    forall k :: i <= k < j ==> !Top(op, ws, i, k)
  }

  /** The first such operator from k on; j if there is none. */
  function FirstTop(op: Operator, ws: seq<Word>, i: nat, k: nat, j: nat): (r: nat)
    requires i <= k <= j <= |ws|
    ensures k <= r <= j && (r < j ==> Top(op, ws, i, r)) && forall m :: k <= m < r ==> !Top(op, ws, i, m)
    decreases j - k
  {
    if k == j || Top(op, ws, i, k) then k else FirstTop(op, ws, i, k + 1, j)
  }

  lemma FirstTopIs(op: Operator, ws: seq<Word>, i: nat, k: nat, r: nat, j: nat)
    requires i <= k <= r <= j <= |ws| && (r < j ==> Top(op, ws, i, r)) && forall m :: k <= m < r ==> !Top(op, ws, i, m)
    ensures FirstTop(op, ws, i, k, j) == r
  {
    var q := FirstTop(op, ws, i, k, j);
  }

  /** Behind an operator, the outermost operators are those that there were, but for a `&` at the beginning. */
  lemma FreeBehind(op: Operator, ws: seq<Word>, i: nat, a: nat, j: nat)
    requires i < a <= j <= |ws| && Free(op, ws, i, j) && Depth(ws, i, a) == 0
    requires op == Background && a < j ==> !Consumed(ws, i, a)
    ensures Free(op, ws, a, j)
  {
    forall k: nat | a <= k < j ensures !Top(op, ws, a, k) {
      DepthSplit(ws, i, a, k);
      assert !Top(op, ws, i, k);
    }
  }

  /** The parentheses that the second pass of `syn3` has met: its depth is not above that of the words; within a
      group that is open, the two agree; and the last group that has been closed is balanced. */
  ghost predicate Grouped(ws: seq<Word>, i: nat, k: nat, m: Fields)
    requires i <= k <= |ws|
  {
    && m.l <= Depth(ws, i, k)
    && (m.l > 0 ==>
      m.lp.Some? && i < m.lp.value <= k && Depth(ws, m.lp.value, k) == m.l - 1 && NoDip(ws, m.lp.value, k))
    && (m.l <= 0 && m.lp.Some? ==>
          m.rp.Some? && i < m.lp.value <= m.rp.value < k && Balanced(ws, m.lp.value, m.rp.value))
  }

  lemma NoDipMore(ws: seq<Word>, i: nat, k: nat)
    requires i <= k < |ws| && NoDip(ws, i, k) && Depth(ws, i, k + 1) >= 0
    ensures NoDip(ws, i, k + 1)
  {
  }

  /** Words that a redirection takes can only lower the depth of the second pass, while that is zero. */
  lemma RedirectionDepth(ws: seq<Word>, i: nat, k: nat, j: nat, fl: set<Where>, m: Fields)
    requires i <= k < j <= |ws| && NoDip(ws, i, j) && m.l == 0 <= Depth(ws, i, k) && Angle(Char(ws[k], 0))
    ensures Depth(ws, i, Output(ws, k, j, fl, m).1) >= 0 && Depth(ws, i, Input(ws, k, j, fl, m).1) >= 0
  {
  }

  lemma GroupedOpen(ws: seq<Word>, i: nat, k: nat, m: Fields)
    requires i <= k < |ws| && Grouped(ws, i, k, m) && Char(ws[k], 0) == LPAR
    ensures var m1 := if m.l == 0 then m.(lp := Some(k + 1)) else m; Grouped(ws, i, k + 1, m1.(l := m.l + 1))
  {
    if m.l > 0 {
      NoDipMore(ws, m.lp.value, k);
    }
  }

  lemma GroupedClose(ws: seq<Word>, i: nat, k: nat, m: Fields)
    requires i <= k < |ws| && Grouped(ws, i, k, m) && Char(ws[k], 0) == RPAR
    ensures Grouped(ws, i, k + 1, m.(l := m.l - 1, rp := if m.l - 1 == 0 then Some(k) else m.rp))
  {
    if m.l > 1 {
      NoDipMore(ws, m.lp.value, k);
    }
  }

  lemma GroupedOther(ws: seq<Word>, i: nat, k: nat, m: Fields)
    requires i <= k < |ws| && Grouped(ws, i, k, m) && Char(ws[k], 0) != LPAR && Char(ws[k], 0) != RPAR
    ensures Grouped(ws, i, k + 1, m)
  {
    if m.l > 0 {
      NoDipMore(ws, m.lp.value, k);
    }
  }

  lemma GroupedTurn(ws: seq<Word>, i: nat, k: nat, j: nat, specp: bool, fl: set<Where>, m: Fields)
    requires i <= k < j <= |ws| && NoDip(ws, i, j) && Grouped(ws, i, k, m)
    ensures var t := Turn(ws, k, j, specp, fl, m); Grouped(ws, i, t.1, t.0)
  {
    hide Depth, NoDip, Balanced, Grouped;
    var c := Char(ws[k], 0);
    if c == LPAR {
      GroupedOpen(ws, i, k, m);
      GroupedErr(ws, i, k + 1, (if m.l == 0 then m.(lp := Some(k + 1)) else m).(l := m.l + 1), Turn(ws, k, j, specp,
        fl, m).0);
    } else if c == RPAR {
      GroupedClose(ws, i, k, m);
    } else if Angle(c) && m.l == 0 {
      GroupedRedirection(ws, i, k, j, specp, fl, m);
    } else {
      GroupedOther(ws, i, k, m);
    }
  }

  /** Nothing else of the state matters for the groups. */
  lemma GroupedErr(ws: seq<Word>, i: nat, k: nat, m: Fields, m': Fields)
    requires i <= k <= |ws| && Grouped(ws, i, k, m) && m'.l == m.l && m'.lp == m.lp && m'.rp == m.rp
    ensures Grouped(ws, i, k, m')
  {
  }

  lemma GroupedRedirection(ws: seq<Word>, i: nat, k: nat, j: nat, specp: bool, fl: set<Where>, m: Fields)
    requires i <= k < j <= |ws| && NoDip(ws, i, j) && Grouped(ws, i, k, m) && m.l == 0 && Angle(Char(ws[k], 0))
    ensures var t := Turn(ws, k, j, specp, fl, m); Grouped(ws, i, t.1, t.0)
  {
    RedirectionDepth(ws, i, k, j, fl, m);
  }

  lemma {:induction false} GroupedFill(ws: seq<Word>, i: nat, k: nat, j: nat, specp: bool, fl: set<Where>, m: Fields)
    requires i <= k <= j <= |ws| && NoDip(ws, i, j) && Grouped(ws, i, k, m)
    ensures Grouped(ws, i, j, Fill(ws, k, j, specp, fl, m).0)
    decreases j - k
  {
    hide Turn, Grouped, NoDip;
    if k < j {
      GroupedTurn(ws, i, k, j, specp, fl, m);
      var t := Turn(ws, k, j, specp, fl, m);
      GroupedFill(ws, i, t.1, j, specp, fl, t.0);
    }
  }

  datatype Tree =
    | Command(words: seq<Word>, lef: Option<Word>, rit: Option<Word>, flags: set<Flag>)
    | Paren(sub: Option<Tree>, lef: Option<Word>, rit: Option<Word>, flags: set<Flag>)
    | PipeNode(l: Tree, r: Tree, flags: set<Flag>)
    | ListNode(car: Option<Tree>, cdr: Option<Tree>)
    | OrNode(l: Tree, r: Tree)
    | AndNode(l: Tree, r: Tree)

  /** A tree, and whether an error has been found on the way. */
  datatype Outcome<T> = Outcome(t: T, err: bool)

  /** What `srchx` says of a word. */
  datatype Keyword = Else | Special | Other

  predicate Separator(c: int) {
    c == SEMI || c == AND || c == NEWLINE
  }

  /** The command begins with a keyword, behind any number of `else`. */
  predicate IsSpecial(ws: seq<Word>, i: nat, j: nat, kind: Word -> Keyword)
    requires i <= j <= |ws|
    decreases j - i
  {
    i < j && (kind(ws[i]) == Special || (kind(ws[i]) == Else && IsSpecial(ws, i + 1, j, kind)))
  }

  /** A tree that is to run in the background. */
  function InBackground(t: Tree): Tree {
    match t
    case Command(w, lef, rit, f) => Command(w, lef, rit, f + {Amp, NoInterrupt})
    case Paren(sub, lef, rit, f) => Paren(sub, lef, rit, f + {Amp, NoInterrupt})
    case PipeNode(l, r, f) => PipeNode(l, r, f + {Amp, NoInterrupt})
    case _ => Paren(Some(t), None, None, {Amp, NoInterrupt})
  }

  /** What the second pass of a simple command starts from. */
  function Start(ws: seq<Word>, j: nat): Fields {
    Fields(None, None, 0, None, None, if j < |ws| && Char(ws[j], 0) == RPAR then {NoFork} else {}, false)
  }

  lemma SimpleGroup(ws: seq<Word>, i: nat, j: nat, specp: bool, fl: set<Where>)
    requires i <= j <= |ws| && Balanced(ws, i, j)
    ensures var m := Fill(ws, i, j, specp, fl, Start(ws, j)).0;
      m.lp.Some? ==> m.rp.Some? && i < m.lp.value <= m.rp.value < j && Balanced(ws, m.lp.value, m.rp.value)
  {
    hide Fill;
    GroupedFill(ws, i, i, j, specp, fl, Start(ws, j));
  }

  /** The operators of these levels do not occur outside of parentheses. */
  ghost predicate FreeUpTo(level: nat, ws: seq<Word>, i: nat, j: nat)
    requires i <= j <= |ws|
  {
    && (level > 0 ==> Free(Background, ws, i, j)) && (level > 1 ==> Free(Sequence, ws, i, j))
    && (level > 2 ==> Free(Or, ws, i, j)) && (level > 3 ==> Free(And, ws, i, j)) && (level > 4 ==> Free(Pipe, ws, i, j))
  }

  /** The operator of a level. */
  function OpOf(level: nat): Operator {
    if level == 0 then Background else if level == 1 then Sequence else if level == 2 then Or
    else if level == 3 then And else Pipe
  }

  /** What is in front of the first operator of a level has none of its own. */
  lemma LeftPart(level: nat, ws: seq<Word>, i: nat, j: nat)
    requires i <= j <= |ws| && NoDip(ws, i, j) && FreeUpTo(level, ws, i, j) && level <= 4
    ensures var k := FirstTop(OpOf(level), ws, i, i, j);
      FreeUpTo(level + 1, ws, i, k) && (k < j || Depth(ws, i, j) == 0 ==> Balanced(ws, i, k))
  {
  }

  /** What is behind it is balanced too, and has no stronger claim to be split. */
  lemma RightPart(level: nat, ws: seq<Word>, i: nat, a: nat, j: nat)
    requires i < a <= j <= |ws| && Balanced(ws, i, j) && FreeUpTo(level, ws, i, j) && level <= 4
    requires Depth(ws, i, a) == 0 && (a < j ==> !Consumed(ws, i, a))
    ensures Balanced(ws, a, j) && FreeUpTo(level, ws, a, j)
  {
    hide Free, Consumed;
    BalancedPart(ws, i, a, j, j);
    DepthSplit(ws, i, a, j);
    if level > 0 { FreeBehind(Background, ws, i, a, j); }
    if level > 1 { FreeBehind(Sequence, ws, i, a, j); }
    if level > 2 { FreeBehind(Or, ws, i, a, j); }
    if level > 3 { FreeBehind(And, ws, i, a, j); }
  }

  /** What the levels of the parser make of the words from i to j. The preconditions say which ranges are handed
      down: balanced ones, in which no operator of an earlier level is left outside of parentheses. */
  function Text(ws: seq<Word>, i: nat, j: nat, fl: set<Where>, kind: Word -> Keyword): Outcome<Option<Tree>>
    requires i <= j <= |ws| && NoDip(ws, i, j)
    decreases j - i, 8
  {
    if i == j then Outcome(None, false)
    else if Separator(Char(ws[i], 0)) then
      BalancedPart(ws, i, i + 1, j, j);
      Text(ws, i + 1, j, fl, kind)
    else Line(ws, i, j, fl, kind)
  }

  function Line(ws: seq<Word>, i: nat, j: nat, fl: set<Where>, kind: Word -> Keyword): Outcome<Option<Tree>>
    requires i <= j <= |ws| && NoDip(ws, i, j)
    decreases j - i, if i < j && Separator(Char(ws[i], 0)) then 9 else 7
  {
    LeftPart(0, ws, i, j);
    var k := FirstTop(Background, ws, i, i, j);
    if k < j then
      BalancedPart(ws, i, k, j, j);
      var a, b := Jobs(ws, i, k, fl, kind), Text(ws, k, j, fl, kind);
      Outcome(Some(ListNode(Some(InBackground(a.t)), b.t)), a.err || b.err)
    else if Depth(ws, i, j) == 0 then
      var a := Jobs(ws, i, j, fl, kind);
      Outcome(Some(a.t), a.err)
    else Outcome(None, true)
  }

  function Jobs(ws: seq<Word>, i: nat, j: nat, fl: set<Where>, kind: Word -> Keyword): Outcome<Tree>
    requires i <= j <= |ws| && Balanced(ws, i, j) && FreeUpTo(1, ws, i, j)
    decreases j - i, 6
  {
    LeftPart(1, ws, i, j);
    var k := FirstTop(Sequence, ws, i, i, j);
    if k == j then Ors(ws, i, j, fl, kind)
    else
      RightPart(1, ws, i, k + 1, j);
      var a, b := Ors(ws, i, k, fl, kind), Text(ws, k + 1, j, fl, kind);
      Outcome(if b.t == None then ListNode(None, Some(a.t)) else ListNode(Some(a.t), b.t), a.err || b.err)
  }

  function Ors(ws: seq<Word>, i: nat, j: nat, fl: set<Where>, kind: Word -> Keyword): Outcome<Tree>
    requires i <= j <= |ws| && Balanced(ws, i, j) && FreeUpTo(2, ws, i, j)
    decreases j - i, 5
  {
    LeftPart(2, ws, i, j);
    var k := FirstTop(Or, ws, i, i, j);
    if k == j then Ands(ws, i, j, fl, kind)
    else
      RightPart(2, ws, i, k + 1, j);
      var a, b := Ands(ws, i, k, fl, kind), Ors(ws, k + 1, j, fl, kind);
      Outcome(OrNode(a.t, b.t), a.err || b.err)
  }

  function Ands(ws: seq<Word>, i: nat, j: nat, fl: set<Where>, kind: Word -> Keyword): Outcome<Tree>
    requires i <= j <= |ws| && Balanced(ws, i, j) && FreeUpTo(3, ws, i, j)
    decreases j - i, 4
  {
    LeftPart(3, ws, i, j);
    var k := FirstTop(And, ws, i, i, j);
    if k == j then Pipes(ws, i, j, fl, kind)
    else
      RightPart(3, ws, i, k + 1, j);
      var a, b := Pipes(ws, i, k, fl, kind), Ands(ws, k + 1, j, fl, kind);
      Outcome(AndNode(a.t, b.t), a.err || b.err)
  }

  /** The operator of a pipe is followed by `&` if the diagnostic output goes the same way. */
  predicate Both(ws: seq<Word>, k: nat, j: nat)
    requires k < j <= |ws|
  {
    k + 1 < j && Char(ws[k + 1], 0) == AND
  }

  lemma PipeRight(ws: seq<Word>, i: nat, j: nat)
    requires i <= j <= |ws| && Balanced(ws, i, j) && FreeUpTo(4, ws, i, j) && FirstTop(Pipe, ws, i, i, j) < j
    ensures var k := FirstTop(Pipe, ws, i, i, j); var a := if Both(ws, k, j) then k + 2 else k + 1;
      a <= j && Balanced(ws, a, j) && FreeUpTo(4, ws, a, j)
  {
    var k := FirstTop(Pipe, ws, i, i, j);
    RightPart(4, ws, i, if Both(ws, k, j) then k + 2 else k + 1, j);
  }

  function Pipes(ws: seq<Word>, i: nat, j: nat, fl: set<Where>, kind: Word -> Keyword): Outcome<Tree>
    requires i <= j <= |ws| && Balanced(ws, i, j) && FreeUpTo(4, ws, i, j)
    decreases j - i, 3
  {
    LeftPart(4, ws, i, j);
    var k := FirstTop(Pipe, ws, i, i, j);
    if k == j then Simple(ws, i, j, fl, kind)
    else
      PipeRight(ws, i, j);
      var both := Both(ws, k, j);
      var a := Simple(ws, i, k, fl + (if both then {Out, Err} else {Out}), kind);
      var b := Pipes(ws, if both then k + 2 else k + 1, j, fl + {In}, kind);
      Outcome(PipeNode(a.t, b.t, if both then {StdErr} else {}), a.err || b.err)
  }

  function Simple(ws: seq<Word>, i: nat, j: nat, fl: set<Where>, kind: Word -> Keyword): Outcome<Tree>
    requires i <= j <= |ws| && Balanced(ws, i, j) && FreeUpTo(5, ws, i, j)
    decreases j - i, 2
  {
    var specp := IsSpecial(ws, i, j, kind);
    SimpleGroup(ws, i, j, specp, fl);
    var r := Fill(ws, i, j, specp, fl, Start(ws, j));
    var m := r.0;
    if m.lp.Some? && !specp then
      var sub := Line(ws, m.lp.value, m.rp.value, {Here}, kind);
      Outcome(Paren(sub.t, m.lef, m.rit, m.flags), m.err || r.1 != [] || sub.err)
    else Outcome(Command(r.1, m.lef, m.rit, m.flags), m.err || r.1 == [])
  }

  /** A word that is no operator, parenthesis or redirection. */
  predicate Plain(w: Word) {
    var c := Char(w, 0);
    !RelPar(c) && !Separator(c) && c != BAR
  }

  /** At the start of a turn without an error so far, the depth is that of the words, and no redirection is
      pending. */
  ghost predicate Aligned(ws: seq<Word>, i: nat, k: nat, m: Fields)
    requires i <= k <= |ws|
  {
    m.l == Depth(ws, i, k) && (m.l == 0 && k > i ==> Char(ws[k - 1], 0) != GREATER)
  }

  lemma AlignedTurn(ws: seq<Word>, i: nat, k: nat, j: nat, specp: bool, fl: set<Where>, m: Fields)
    requires i <= k < j <= |ws| && Aligned(ws, i, k, m) && !Turn(ws, k, j, specp, fl, m).0.err
    ensures var t := Turn(ws, k, j, specp, fl, m); Aligned(ws, i, t.1, t.0)
  {
    if Char(ws[k], 0) == GREATER && m.l == 0 {
      OutputAligned(ws, i, k, j, fl, m);
    }
  }

  lemma OutputAligned(ws: seq<Word>, i: nat, k: nat, j: nat, fl: set<Where>, m: Fields)
    requires i <= k < j <= |ws| && Depth(ws, i, k) == 0 == m.l && Char(ws[k], 0) == GREATER && !Output(ws, k, j, fl,
      m).0.err
    ensures var n := Output(ws, k, j, fl, m).1; Depth(ws, i, n) == 0 && Char(ws[n - 1], 0) != GREATER
  {
    var amp := k + 1 < j && ws[k + 1] == AMPERSAND;
    var p := if amp then k + 1 else k;
    assert Depth(ws, i, p + 1) == 0;
    var q := if p + 1 < j && ws[p + 1] == BANG then p + 1 else p;
    assert Depth(ws, i, q + 1) == 0;
  }

  /** A word that is stored from outside of parentheses is plain. */
  lemma StoredIsPlain(ws: seq<Word>, i: nat, k: nat, j: nat, fl: set<Where>, m: Fields)
    requires i <= k < j <= |ws| && Aligned(ws, i, k, m) && FreeUpTo(5, ws, i, j) && Turn(ws, k, j, false, fl, m).2
    ensures Plain(ws[k])
  {
    assert !Top(Background, ws, i, k) && !Top(Sequence, ws, i, k) && !Top(And, ws, i, k) && !Top(Pipe, ws, i, k);
    if k > i {
      assert !Top(Pipe, ws, i, k - 1);
    }
  }

  /** In a command that begins with no keyword, and is read without an error, all words are plain. */
  lemma {:induction false} WordsArePlain(ws: seq<Word>, i: nat, k: nat, j: nat, fl: set<Where>, m: Fields)
    requires i <= k <= j <= |ws| && Aligned(ws, i, k, m) && FreeUpTo(5, ws, i, j) && !Fill(ws, k, j, false, fl, m).0.err
    ensures forall w <- Fill(ws, k, j, false, fl, m).1 :: Plain(w)
    decreases j - k
  {
    hide FreeUpTo, Aligned, Turn, Plain;
    if k < j {
      var t := Turn(ws, k, j, false, fl, m);
      if t.2 {
        StoredIsPlain(ws, i, k, j, fl, m);
      }
      AlignedTurn(ws, i, k, j, false, fl, m);
      WordsArePlain(ws, i, t.1, j, fl, t.0);
    }
  }

  /** So are the words of such a command, and there is at least one. */
  lemma SimpleIsPlain(ws: seq<Word>, i: nat, j: nat, fl: set<Where>, kind: Word -> Keyword)
    requires i <= j <= |ws| && Balanced(ws, i, j) && FreeUpTo(5, ws, i, j) && !IsSpecial(ws, i, j, kind)
    requires !Simple(ws, i, j, fl, kind).err && Simple(ws, i, j, fl, kind).t.Command?
    ensures Simple(ws, i, j, fl, kind).t.words != [] && forall w <- Simple(ws, i, j, fl, kind).t.words :: Plain(w)
  {
    hide Fill, Plain, FreeUpTo;
    WordsArePlain(ws, i, i, j, fl, Start(ws, j));
  }

  /** The words `> ) ( a`, in which a parenthesis is closed that has not been opened, leave the second pass with a
      group that never ends: the parser would go on for ever if `alias` did not stop such a text before. */
  lemma GroupWithoutEnd()
    ensures var ws: seq<Word> := [[GREATER], [RPAR], [LPAR], [97]];
      && Depth(ws, 0, 4) == 0 && Depth(ws, 0, 2) < 0
      && Fill(ws, 0, 4, false, {}, Start(ws, 4)).0.lp == Some(3) && Fill(ws, 0, 4, false, {}, Start(ws, 4)).0.rp == None
  {
    var ws: seq<Word> := [[GREATER], [RPAR], [LPAR], [97]];
    assert Depth(ws, 0, 1) == 0;
    assert Depth(ws, 0, 2) == -1;
    assert Depth(ws, 0, 3) == 0;
    var m0 := Start(ws, 4);
    var t := Turn(ws, 0, 4, false, {}, m0);
    assert t.1 == 2 && t.0.l == 0 && t.0.lp == None && t.0.rp == None;
    var u := Turn(ws, 2, 4, false, {}, t.0);
    assert u.1 == 3 && u.0.l == 1 && u.0.lp == Some(3) && u.0.rp == None;
    var v := Turn(ws, 3, 4, false, {}, u.0);
    assert v.1 == 4 && v.0 == u.0;
    assert Fill(ws, 3, 4, false, {}, u.0).0 == v.0;
    assert Fill(ws, 2, 4, false, {}, t.0).0 == v.0;
  }

  /** A tree has been read: an error has been noted, and unless there is one, now or from before, the tree is the
      right one. */
  predicate Agrees<T(==)>(err0: bool, err: bool, t: T, r: Outcome<T>) {
    err == (err0 || r.err) && (!err ==> t == r.t)
  }

  /** The parser, which remembers whether it has found an error. The table of keywords is a parameter. */
  class Parser {
    const kind: Word -> Keyword
    var seterr: bool

    constructor (kind: Word -> Keyword)
      ensures this.kind == kind && !seterr
    {
      this.kind, seterr := kind, false;
    }

    /** The loop of `syn1`, `syn1a`, `syn1b` and `syn2` over the words, up to an operator outside of
        parentheses. */
    method Scan(op: Operator, ws: seq<Word>, i: nat, j: nat) returns (p: nat)
      requires i <= j <= |ws| && op != Background
      ensures p == FirstTop(op, ws, i, i, j)
    {
      p := i;
      var l := 0;
      while p != j
        invariant i <= p <= j && l == Depth(ws, i, p) && forall m :: i <= m < p ==> !Top(op, ws, i, m)
        decreases j - p
      {
        var c := Char(ws[p], 0);
        if c == LPAR {
          l := l + 1;
        } else if c == RPAR {
          l := l - 1;
        } else if l == 0 && Is(op, ws, i, p) {
          FirstTopIs(op, ws, i, i, p, j);
          return;
        }
        p := p + 1;
      }
      FirstTopIs(op, ws, i, i, p, j);
    }

    /** The loop of `syn0`, which passes over the `&` of `>&` and `|&`. (Its test for a parenthesis closed too
        often cannot succeed: `alias` has stopped such a text.) */
    method ScanLine(ws: seq<Word>, i: nat, j: nat) returns (p: nat, l: int)
      requires i <= j <= |ws| && NoDip(ws, i, j)
      ensures p == FirstTop(Background, ws, i, i, j) && l == Depth(ws, i, p)
    {
      p, l := i, 0;
      while p != j
        invariant i <= p <= j && l == Depth(ws, i, p) && forall m :: i <= m < p ==> !Top(Background, ws, i, m)
        invariant p < j ==> !Consumed(ws, i, p)
        decreases j - p
      {
        var c := Char(ws[p], 0);
        if c == LPAR {
          l := l + 1;
        } else if c == RPAR {
          l := l - 1;
        } else if c == GREATER || (c == BAR && Char(ws[p], 1) != BAR) {
          if p + 1 != j && ws[p + 1] == AMPERSAND {
            assert Consumed(ws, i, p + 1);
            p := p + 1;
          }
        } else if c == AND && l == 0 && Char(ws[p], 1) != AND {
          FirstTopIs(Background, ws, i, i, p, j);
          return;
        }
        p := p + 1;
      }
      FirstTopIs(Background, ws, i, i, p, j);
    }

    method Syntax(ws: seq<Word>, i0: nat, j: nat, fl: set<Where>) returns (t: Option<Tree>)
      requires i0 <= j <= |ws| && NoDip(ws, i0, j)
      modifies this
      ensures Agrees(old(seterr), seterr, t, Text(ws, i0, j, fl, kind))
      decreases j - i0, 8
    {
      var i := i0;
      while i != j
        invariant i0 <= i <= j && NoDip(ws, i, j) && Text(ws, i, j, fl, kind) == Text(ws, i0, j, fl, kind)
        invariant seterr == old(seterr)
        decreases j - i
      {
        if !Separator(Char(ws[i], 0)) {
          t := Syn0(ws, i, j, fl);
          return;
        }
        BalancedPart(ws, i, i + 1, j, j);
        i := i + 1;
      }
      t := None;
    }

    method Syn0(ws: seq<Word>, i: nat, j: nat, fl: set<Where>) returns (t: Option<Tree>)
      requires i <= j <= |ws| && NoDip(ws, i, j)
      modifies this
      ensures Agrees(old(seterr), seterr, t, Line(ws, i, j, fl, kind))
      decreases j - i, if i < j && Separator(Char(ws[i], 0)) then 9 else 7
    {
      LeftPart(0, ws, i, j);
      var p, l := ScanLine(ws, i, j);
      if p != j {
        BalancedPart(ws, i, p, j, j);
        var t1 := Syn1(ws, i, p, fl);
        var t2 := Syntax(ws, p, j, fl);
        t := Some(ListNode(Some(InBackground(t1)), t2));
      } else if l == 0 {
        var t1 := Syn1(ws, i, j, fl);
        t := Some(t1);
      } else {
        seterr := true;
        t := None;
      }
    }

    method Syn1(ws: seq<Word>, i: nat, j: nat, fl: set<Where>) returns (t: Tree)
      requires i <= j <= |ws| && Balanced(ws, i, j) && FreeUpTo(1, ws, i, j)
      modifies this
      ensures Agrees(old(seterr), seterr, t, Jobs(ws, i, j, fl, kind))
      decreases j - i, 6
    {
      LeftPart(1, ws, i, j);
      var p := Scan(Sequence, ws, i, j);
      if p == j {
        t := Syn1a(ws, i, j, fl);
      } else {
        RightPart(1, ws, i, p + 1, j);
        var car := Syn1a(ws, i, p, fl);
        var cdr := Syntax(ws, p + 1, j, fl);
        t := if cdr == None then ListNode(None, Some(car)) else ListNode(Some(car), cdr);
      }
    }

    method Syn1a(ws: seq<Word>, i: nat, j: nat, fl: set<Where>) returns (t: Tree)
      requires i <= j <= |ws| && Balanced(ws, i, j) && FreeUpTo(2, ws, i, j)
      modifies this
      ensures Agrees(old(seterr), seterr, t, Ors(ws, i, j, fl, kind))
      decreases j - i, 5
    {
      LeftPart(2, ws, i, j);
      var p := Scan(Or, ws, i, j);
      if p == j {
        t := Syn1b(ws, i, j, fl);
      } else {
        RightPart(2, ws, i, p + 1, j);
        var car := Syn1b(ws, i, p, fl);
        var cdr := Syn1a(ws, p + 1, j, fl);
        t := OrNode(car, cdr);
      }
    }

    method Syn1b(ws: seq<Word>, i: nat, j: nat, fl: set<Where>) returns (t: Tree)
      requires i <= j <= |ws| && Balanced(ws, i, j) && FreeUpTo(3, ws, i, j)
      modifies this
      ensures Agrees(old(seterr), seterr, t, Ands(ws, i, j, fl, kind))
      decreases j - i, 4
    {
      LeftPart(3, ws, i, j);
      var p := Scan(And, ws, i, j);
      if p == j {
        t := Syn2(ws, i, j, fl);
      } else {
        RightPart(3, ws, i, p + 1, j);
        var car := Syn2(ws, i, p, fl);
        var cdr := Syn1b(ws, p + 1, j, fl);
        t := AndNode(car, cdr);
      }
    }

    method Syn2(ws: seq<Word>, i: nat, j: nat, fl: set<Where>) returns (t: Tree)
      requires i <= j <= |ws| && Balanced(ws, i, j) && FreeUpTo(4, ws, i, j)
      modifies this
      ensures Agrees(old(seterr), seterr, t, Pipes(ws, i, j, fl, kind))
      decreases j - i, 3
    {
      LeftPart(4, ws, i, j);
      var p := Scan(Pipe, ws, i, j);
      if p == j {
        t := Syn3(ws, i, j, fl);
      } else {
        PipeRight(ws, i, j);
        var both := Both(ws, p, j);
        var f := fl + if both then {Out, Err} else {Out};
        var car := Syn3(ws, i, p, f);
        var cdr := Syn2(ws, if both then p + 2 else p + 1, j, fl + {In});
        t := PipeNode(car, cdr, if both then {StdErr} else {});
      }
    }

    /** The keywords at the beginning of a command. */
    method Keywords(ws: seq<Word>, i: nat, j: nat) returns (specp: bool)
      requires i <= j <= |ws|
      ensures specp == IsSpecial(ws, i, j, kind)
    {
      var p := i;
      while p != j
        invariant i <= p <= j && IsSpecial(ws, p, j, kind) == IsSpecial(ws, i, j, kind)
        decreases j - p
      {
        if kind(ws[p]) != Else {
          return kind(ws[p]) == Special;
        }
        p := p + 1;
      }
      specp := false;
    }

    /** `syn3`: the words that the two passes find, with their redirections; or the command in parentheses. */
    method Syn3(ws: seq<Word>, i: nat, j: nat, fl: set<Where>) returns (t: Tree)
      requires i <= j <= |ws| && Balanced(ws, i, j) && FreeUpTo(5, ws, i, j)
      modifies this
      ensures Agrees(old(seterr), seterr, t, Simple(ws, i, j, fl, kind))
      decreases j - i, 2
    {
      var specp := Keywords(ws, i, j);
      SimpleGroup(ws, i, j, specp, fl);
      var m, n, av := FillPass(ws, i, j, specp, fl, Start(ws, j), seterr);
      seterr := seterr || m.err;
      if m.lp.Some? && !specp {
        seterr := seterr || n != 0;
        var sub := Syn0(ws, m.lp.value, m.rp.value, {Here});
        t := Paren(sub, m.lef, m.rit, m.flags);
      } else {
        var words := Words(av, n, seterr, Fill(ws, i, j, specp, fl, Start(ws, j)).1);
        seterr := seterr || n == 0;
        t := Command(words, m.lef, m.rit, m.flags);
      }
    }

    /** The words in the argument vector, up to its end. */
    method Words(av: array<Option<Word>>, n: nat, err: bool, ghost w: seq<Word>) returns (words: seq<Word>)
      requires !err ==> n == |w| && Stored(av[..], w)
      ensures !err ==> words == w
    {
      words := [];
      var i := 0;
      while !err && av[i].Some?
        invariant !err ==> i <= |w| && words == w[..i]
        decreases |w| - i
      {
        words := words + [av[i].value];
        i := i + 1;
      }
    }
  }
}
