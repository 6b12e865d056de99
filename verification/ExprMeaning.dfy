/** What the evaluator of csh promises: operands that are not wanted change nothing but the place, and the value
    is that of the tree (bin/csh/exp.c). */
module ExprMeaning {
  import opened Basics
  import opened ExprNumber
  import opened ExprSpec
  import opened ExprEval

  predicate IsNumber(w: Word) {
    Egetn(w).Some?
  }

  lemma PutnNumber(n: Int32)
    ensures IsNumber(Putn(n))
  {
    PutnEgetn(n);
  }

  lemma BothNumbers(v: Word, w: Word)
    ensures Both(v, w).Some? <==> IsNumber(v) && IsNumber(w)
  {
  }

  /** Operations on words that succeed also succeed when their value is to be ignored, or on other words that
      are numbers if these are; and what they give then is a number. */
  lemma ShiftIgnored(e: Env, left: bool, v: Word, w: Word, v': Word, w': Word)
    requires DoShift(e, left, v, w).Some? && (IsNumber(v) ==> IsNumber(v')) && (IsNumber(w) ==> IsNumber(w'))
    ensures var r := DoShift(e, left, v', w'); r.Some? && IsNumber(r.value)
  {
    BothNumbers(v, w);
    BothNumbers(v', w');
    var ab := Both(v', w').value;
    PutnNumber(e.shift(left, ab.0, ab.1));
  }

  lemma UnaryIgnored(v: Word, v': Word)
    requires IsNumber(v) ==> IsNumber(v')
    ensures DoNot(v).Some? ==> DoNot(v').Some? && IsNumber(DoNot(v').value)
    ensures DoCompl(v).Some? ==> DoCompl(v').Some? && IsNumber(DoCompl(v').value)
  {
    if IsNumber(v') {
      var n := Egetn(v').value;
      PutnNumber(Bool(n == 0));
      PutnNumber(-1 - n);
    }
  }

  lemma MatchIgnored(e: Env, op: int, m: Mode, v: Word, w: Word)
    requires m.ignore
    ensures DoMatch(e, op, m, v, w).Some?
  {
  }

  lemma SumIgnored(c: int, m: Mode, v: Word, w: Word)
    requires m.ignore
    ensures DoSum(c, m, v, w).Some? && IsNumber(DoSum(c, m, v, w).value)
    ensures DoTerm(c, m, v, w).Some? && IsNumber(DoTerm(c, m, v, w).value)
    ensures DoRel(c, m, v, w).Some? && IsNumber(DoRel(c, m, v, w).value)
  {
    PutnNumber(0);
    PutnNumber(Wrap(c));
  }

  lemma LastIgnored(e: Env, m: Mode, c: int, name: Word, ws: seq<Word>)
    requires m.ignore
    ensures IsNumber(DoCommand(e, m, ws)) && DoInquiry(e, m, c, name) == Some([]) && IsNumber([])
  {
  }

  /** An expression that can be evaluated can also be evaluated with its value ignored. */
  lemma {:induction false} IgnoreInt(e: Env, t: IntExpr, m: Mode)
    requires EvalInt(e, t, m).Some?
    ensures EvalInt(e, t, m.(ignore := true)).Some?
    decreases t
  {
    hide DoMatch, Egetn;
    var n := m.(ignore := true);
    match t
    case Or(a, b) =>
      IgnoreInt(e, a, m);
      IgnoreInt(e, b, Mode(m.ignore || EvalInt(e, a, m).value != 0, false));
    case And(a, b) =>
      IgnoreInt(e, a, m);
      IgnoreInt(e, b, Mode(m.ignore || EvalInt(e, a, m).value == 0, false));
    case Bit(_, a, b) =>
      IgnoreInt(e, a, m);
      IgnoreInt(e, b, m);
    case Match(op, s, u) =>
      IgnoreStr(e, s, m);
      IgnoreStr(e, u, SecondMode(op, m));
      MatchIgnored(e, op, n, EvalStr(e, s, n).value, EvalStr(e, u, SecondMode(op, n)).value);
    case Number(s) =>
      IgnoreStr(e, s, m);
  }

  lemma {:induction false} IgnoreStr(e: Env, t: StrExpr, m: Mode)
    requires EvalStr(e, t, m).Some?
    ensures EvalStr(e, t, m.(ignore := true)).Some?
    ensures IsNumber(EvalStr(e, t, m).value) ==> IsNumber(EvalStr(e, t, m.(ignore := true)).value)
    decreases t
  {
    hide DoRel, DoShift, DoSum, DoTerm, DoNot, DoCompl, DoInquiry, DoCommand, IsNumber;
    var n := m.(ignore := true);
    match t
    case Rel(op, s, u) =>
      IgnoreStr(e, s, m);
      IgnoreStr(e, u, m);
      SumIgnored(op, n, EvalStr(e, s, n).value, EvalStr(e, u, n).value);
    case Shift(left, s, u) =>
      IgnoreStr(e, s, m);
      IgnoreStr(e, u, m);
      ShiftIgnored(e, left, EvalStr(e, s, m).value, EvalStr(e, u, m).value, EvalStr(e, s, n).value, EvalStr(e, u,
        n).value);
    case Sum(c, s, u) =>
      IgnoreStr(e, s, m);
      IgnoreStr(e, u, m);
      SumIgnored(c, n, EvalStr(e, s, n).value, EvalStr(e, u, n).value);
    case Term(c, s, u) =>
      IgnoreStr(e, s, m);
      IgnoreStr(e, u, m);
      SumIgnored(c, n, EvalStr(e, s, n).value, EvalStr(e, u, n).value);
    case Not(s) =>
      IgnoreStr(e, s, m);
      UnaryIgnored(EvalStr(e, s, m).value, EvalStr(e, s, n).value);
    case Compl(s) =>
      IgnoreStr(e, s, m);
      UnaryIgnored(EvalStr(e, s, m).value, EvalStr(e, s, n).value);
    case Paren(a) =>
      IgnoreInt(e, a, m);
      PutnNumber(EvalInt(e, a, n).value);
    case Command(ws) =>
      LastIgnored(e, n, 0, [], ws);
    case Inquiry(c, name) =>
      LastIgnored(e, n, c, name, []);
    case _ =>
  }

  /** With its value ignored, an expression that evaluates without an error still does so, and stops at the same
      word. */
  lemma IgnoreSamePlace(e: Env, ws: seq<Word>, i: nat, m: Mode)
    requires i <= |ws| && Exp0(e, ws, i, m).Value?
    ensures var r := Exp0(e, ws, i, m.(ignore := true)); r.Value? && r.pos == Exp0(e, ws, i, m).pos
  {
    hide Exp0, Parse0;
    Reads0(e, ws, i, m);
    Reads0(e, ws, i, m.(ignore := true));
    IgnoreInt(e, Parse0(e, ws, i).tree, m);
  }

  /** The value of a tree: the second operand of `||` and `&&` counts only if the first does not decide. */
  function ValueInt(e: Env, t: IntExpr, noglob: bool): Option<Int32>
    decreases t
  {
    match t
    case Or(a, b) =>
      var p := ValueInt(e, a, noglob);
      if p.None? then None
      else if p.value != 0 then Some(1)
      else
        var q := ValueInt(e, b, false);
        if q.None? then None else Some(Bool(q.value != 0))
    case And(a, b) =>
      var p := ValueInt(e, a, noglob);
      if p.None? then None
      else if p.value == 0 then Some(0)
      else
        var q := ValueInt(e, b, false);
        if q.None? then None else Some(Bool(q.value != 0))
    case Bit(op, a, b) =>
      var p, q := ValueInt(e, a, noglob), ValueInt(e, b, noglob);
      if p.None? || q.None? then None else Some(e.bits(op, p.value, q.value))
    case Match(op, s, u) =>
      var p, q := ValueStr(e, s, noglob), ValueStr(e, u, noglob || op == EQMATCH || op == NOTEQMATCH);
      if p.None? || q.None? then None else Compare(e, op, p.value, q.value)
    case Number(s) =>
      var p := ValueStr(e, s, noglob);
      if p.None? then None else Egetn(p.value)
  }

  function ValueStr(e: Env, t: StrExpr, noglob: bool): Option<Word>
    decreases t
  {
    var m := Mode(false, noglob);
    match t
    case Rel(op, s, u) =>
      var p, q := ValueStr(e, s, noglob), ValueStr(e, u, noglob);
      if p.None? || q.None? then None else DoRel(op, m, p.value, q.value)
    case Shift(left, s, u) =>
      var p, q := ValueStr(e, s, noglob), ValueStr(e, u, noglob);
      if p.None? || q.None? then None else DoShift(e, left, p.value, q.value)
    case Sum(c, s, u) =>
      var p, q := ValueStr(e, s, noglob), ValueStr(e, u, noglob);
      if p.None? || q.None? then None else DoSum(c, m, p.value, q.value)
    case Term(c, s, u) =>
      var p, q := ValueStr(e, s, noglob), ValueStr(e, u, noglob);
      if p.None? || q.None? then None else DoTerm(c, m, p.value, q.value)
    case Not(s) =>
      var p := ValueStr(e, s, noglob);
      if p.None? then None else DoNot(p.value)
    case Compl(s) =>
      var p := ValueStr(e, s, noglob);
      if p.None? then None else DoCompl(p.value)
    case Paren(n) =>
      var p := ValueInt(e, n, noglob);
      if p.None? then None else Some(Putn(p.value))
    case Command(ws) => Some(DoCommand(e, m, ws))
    case Nothing => Some([])
    case Inquiry(c, name) => DoInquiry(e, m, c, name)
    case Leaf(w) => DoLeaf(e, m, w)
  }

  /** What an operand has to be when its value is ignored: all its words can be expanded, and those that stand by
      themselves, or directly in a shift, `!` or `~`, are numbers. */
  predicate SpareInt(e: Env, t: IntExpr, noglob: bool)
    decreases t
  {
    match t
    case Or(a, b) => SpareInt(e, a, noglob) && SpareInt(e, b, false)
    case And(a, b) => SpareInt(e, a, noglob) && SpareInt(e, b, false)
    case Bit(_, a, b) => SpareInt(e, a, noglob) && SpareInt(e, b, noglob)
    case Match(op, s, u) => SpareStr(e, s, noglob) && SpareStr(e, u, noglob || op == EQMATCH || op == NOTEQMATCH)
    case Number(s) => SpareStr(e, s, noglob) && SpareNumber(e, s, noglob)
  }

  predicate SpareStr(e: Env, t: StrExpr, noglob: bool)
    decreases t
  {
    match t
    case Rel(_, s, u) => SpareStr(e, s, noglob) && SpareStr(e, u, noglob)
    case Shift(_, s, u) =>
      SpareStr(e, s, noglob) && SpareStr(e, u, noglob) && SpareNumber(e, s, noglob) && SpareNumber(e, u, noglob)
    case Sum(_, s, u) => SpareStr(e, s, noglob) && SpareStr(e, u, noglob)
    case Term(_, s, u) => SpareStr(e, s, noglob) && SpareStr(e, u, noglob)
    case Not(s) => SpareStr(e, s, noglob) && SpareNumber(e, s, noglob)
    case Compl(s) => SpareStr(e, s, noglob) && SpareNumber(e, s, noglob)
    case Paren(n) => SpareInt(e, n, noglob)
    case Leaf(w) => noglob || e.glob(w).Some?
    case _ => true
  }

  /** A word, unless it is made by an operation, is a number once it has been expanded. */
  predicate SpareNumber(e: Env, t: StrExpr, noglob: bool) {
    t.Leaf? ==> if noglob then IsNumber(t.w) else e.glob(t.w).Some? && IsNumber(e.glob(t.w).value)
  }

  /** Exactly then an expression can be evaluated with its value ignored. */
  lemma {:induction false} SpareExactly(e: Env, t: IntExpr, noglob: bool)
    ensures EvalInt(e, t, Mode(true, noglob)).Some? <==> SpareInt(e, t, noglob)
    decreases t
  {
    hide Egetn, Compare;
    match t
    case Or(a, b) =>
      SpareExactly(e, a, noglob);
      SpareExactly(e, b, false);
    case And(a, b) =>
      SpareExactly(e, a, noglob);
      SpareExactly(e, b, false);
    case Bit(_, a, b) =>
      SpareExactly(e, a, noglob);
      SpareExactly(e, b, noglob);
    case Match(op, s, u) =>
      SpareExactlyStr(e, s, noglob);
      SpareExactlyStr(e, u, noglob || op == EQMATCH || op == NOTEQMATCH);
    case Number(s) =>
      SpareExactlyStr(e, s, noglob);
  }

  lemma {:induction false} SpareExactlyStr(e: Env, t: StrExpr, noglob: bool)
    ensures EvalStr(e, t, Mode(true, noglob)).Some? <==> SpareStr(e, t, noglob)
    ensures SpareStr(e, t, noglob) ==>
      (IsNumber(EvalStr(e, t, Mode(true, noglob)).value) <==> SpareNumber(e, t, noglob))
    decreases t
  {
    hide DoRel, DoSum, DoTerm, DoShift, DoNot, DoCompl, DoInquiry, DoCommand, IsNumber, Putn;
    var m := Mode(true, noglob);
    match t
    case Rel(op, s, u) =>
      SpareExactlyStr(e, s, noglob);
      SpareExactlyStr(e, u, noglob);
      if EvalStr(e, s, m).Some? && EvalStr(e, u, m).Some? {
        SumIgnored(op, m, EvalStr(e, s, m).value, EvalStr(e, u, m).value);
      }
    case Shift(left, s, u) =>
      SpareExactlyStr(e, s, noglob);
      SpareExactlyStr(e, u, noglob);
      if EvalStr(e, s, m).Some? && EvalStr(e, u, m).Some? {
        ShiftOfNumbers(e, left, EvalStr(e, s, m).value, EvalStr(e, u, m).value);
      }
    case Sum(c, s, u) =>
      SpareExactlyStr(e, s, noglob);
      SpareExactlyStr(e, u, noglob);
      if EvalStr(e, s, m).Some? && EvalStr(e, u, m).Some? {
        SumIgnored(c, m, EvalStr(e, s, m).value, EvalStr(e, u, m).value);
      }
    case Term(c, s, u) =>
      SpareExactlyStr(e, s, noglob);
      SpareExactlyStr(e, u, noglob);
      if EvalStr(e, s, m).Some? && EvalStr(e, u, m).Some? {
        SumIgnored(c, m, EvalStr(e, s, m).value, EvalStr(e, u, m).value);
      }
    case Not(s) =>
      SpareExactlyStr(e, s, noglob);
      if EvalStr(e, s, m).Some? {
        UnaryOfNumber(EvalStr(e, s, m).value);
      }
    case Compl(s) =>
      SpareExactlyStr(e, s, noglob);
      if EvalStr(e, s, m).Some? {
        UnaryOfNumber(EvalStr(e, s, m).value);
      }
    case Paren(a) =>
      SpareExactly(e, a, noglob);
      if EvalInt(e, a, m).Some? {
        PutnNumber(EvalInt(e, a, m).value);
      }
    case Command(ws) =>
      LastIgnored(e, m, 0, [], ws);
    case Nothing =>
      LastIgnored(e, m, 0, [], []);
    case Inquiry(c, name) =>
      LastIgnored(e, m, c, name, []);
    case Leaf(w) =>
  }

  lemma ShiftOfNumbers(e: Env, left: bool, v: Word, w: Word)
    ensures DoShift(e, left, v, w).Some? <==> IsNumber(v) && IsNumber(w)
    ensures DoShift(e, left, v, w).Some? ==> IsNumber(DoShift(e, left, v, w).value)
  {
    BothNumbers(v, w);
    if IsNumber(v) && IsNumber(w) {
      ShiftIgnored(e, left, v, w, v, w);
    }
  }

  lemma UnaryOfNumber(v: Word)
    ensures DoNot(v).Some? == DoCompl(v).Some? == IsNumber(v)
    ensures IsNumber(v) ==> IsNumber(DoNot(v).value) && IsNumber(DoCompl(v).value)
  {
    UnaryIgnored(v, v);
  }

  /** Every operand that does not count is such an operand. */
  predicate SkipsInt(e: Env, t: IntExpr, noglob: bool)
    decreases t, 0
  {
    match t
    case Or(a, b) =>
      var p := ValueInt(e, a, noglob);
      SkipsInt(e, a, noglob) && (p.Some? ==> SkipsSecond(e, b, p.value != 0))
    case And(a, b) =>
      var p := ValueInt(e, a, noglob);
      SkipsInt(e, a, noglob) && (p.Some? ==> SkipsSecond(e, b, p.value == 0))
    case Bit(_, a, b) => SkipsInt(e, a, noglob) && SkipsInt(e, b, noglob)
    case Match(op, s, u) => SkipsStr(e, s, noglob) && SkipsStr(e, u, noglob || op == EQMATCH || op == NOTEQMATCH)
    case Number(s) => SkipsStr(e, s, noglob)
  }

  predicate SkipsSecond(e: Env, b: IntExpr, skipped: bool)
    decreases b, 1
  {
    if skipped then SpareInt(e, b, false) else SkipsInt(e, b, false)
  }

  predicate SkipsStr(e: Env, t: StrExpr, noglob: bool)
    decreases t, 0
  {
    match t
    case Rel(_, s, u) => SkipsStr(e, s, noglob) && SkipsStr(e, u, noglob)
    case Shift(_, s, u) => SkipsStr(e, s, noglob) && SkipsStr(e, u, noglob)
    case Sum(_, s, u) => SkipsStr(e, s, noglob) && SkipsStr(e, u, noglob)
    case Term(_, s, u) => SkipsStr(e, s, noglob) && SkipsStr(e, u, noglob)
    case Not(s) => SkipsStr(e, s, noglob)
    case Compl(s) => SkipsStr(e, s, noglob)
    case Paren(n) => SkipsInt(e, n, noglob)
    case _ => true
  }

  /** Evaluation gives the value of the tree, or fails because of an operand that does not count. */
  lemma {:induction false} EvalIsValue(e: Env, t: IntExpr, noglob: bool)
    ensures EvalInt(e, t, Mode(false, noglob)) == if SkipsInt(e, t, noglob) then ValueInt(e, t, noglob) else None
    decreases t
  {
    hide Egetn, Compare, SpareInt;
    match t
    case Or(a, b) =>
      EvalIsValue(e, a, noglob);
      EvalIsValue(e, b, false);
      SpareExactly(e, b, false);
    case And(a, b) =>
      EvalIsValue(e, a, noglob);
      EvalIsValue(e, b, false);
      SpareExactly(e, b, false);
    case Bit(_, a, b) =>
      EvalIsValue(e, a, noglob);
      EvalIsValue(e, b, noglob);
    case Match(op, s, u) =>
      EvalIsValueStr(e, s, noglob);
      EvalIsValueStr(e, u, noglob || op == EQMATCH || op == NOTEQMATCH);
    case Number(s) =>
      EvalIsValueStr(e, s, noglob);
  }

  lemma {:induction false} EvalIsValueStr(e: Env, t: StrExpr, noglob: bool)
    ensures EvalStr(e, t, Mode(false, noglob)) == if SkipsStr(e, t, noglob) then ValueStr(e, t, noglob) else None
    decreases t
  {
    hide DoRel, DoShift, DoSum, DoTerm, DoNot, DoCompl, DoInquiry, DoCommand, DoLeaf, Putn;
    match t
    case Rel(_, s, u) =>
      EvalIsValueStr(e, s, noglob);
      EvalIsValueStr(e, u, noglob);
    case Shift(_, s, u) =>
      EvalIsValueStr(e, s, noglob);
      EvalIsValueStr(e, u, noglob);
    case Sum(_, s, u) =>
      EvalIsValueStr(e, s, noglob);
      EvalIsValueStr(e, u, noglob);
    case Term(_, s, u) =>
      EvalIsValueStr(e, s, noglob);
      EvalIsValueStr(e, u, noglob);
    case Not(s) =>
      EvalIsValueStr(e, s, noglob);
    case Compl(s) =>
      EvalIsValueStr(e, s, noglob);
    case Paren(n) =>
      EvalIsValue(e, n, noglob);
    case _ =>
  }

  /** `expr`: it succeeds exactly if the words read as a tree that has a value, and of every operand that does not
      count all words can be expanded, and those that stand by themselves, or directly in a shift, `!` or `~`, are
      numbers; the result is the value of the tree. */
  lemma ExprMeans(e: Env, ws: seq<Word>, i: nat)
    requires i <= |ws|
    ensures var p := Parse0(e, ws, i);
      Exp0(e, ws, i, Mode(false, false)) ==
        if p.Parsed? && SkipsInt(e, p.tree, false) then Of(ValueInt(e, p.tree, false), p.pos) else Error
  {
    hide Exp0, Parse0;
    Reads0(e, ws, i, Mode(false, false));
    if Parse0(e, ws, i).Parsed? {
      EvalIsValue(e, Parse0(e, ws, i).tree, false);
    }
  }

  /** A term that no operator follows but `||`. */
  lemma Climb(e: Env, ws: seq<Word>, i: nat)
    requires i <= |ws| && Parse6(e, ws, i).Parsed?
    requires var cp := Tok(ws, Parse6(e, ws, i).pos); cp == None || cp == Some(OR2)
    ensures Parse1(e, ws, i) == Parsed(Number(Parse6(e, ws, i).tree), Parse6(e, ws, i).pos)
  {
    hide Parse6;
    var p := Parse6(e, ws, i);
    var cp := Tok(ws, p.pos);
    assert Op(cp, MULOP) == 0 && Op(cp, ADDOP) == 0 && Op(cp, RELOP) == 0 && Op(cp, EQOP) == 0 && !IsShift(cp);
    hide Op, IsShift;
    assert Parse4(e, ws, i) == p;
    assert Parse3(e, ws, i) == p;
    assert cp != Some(AND) && cp != Some(CARET) && cp != Some(OR) && cp != Some(AND2);
    assert Parse2b(e, ws, i) == Parsed(Number(p.tree), p.pos);
    assert Parse2(e, ws, i) == Parsed(Number(p.tree), p.pos);
  }

  /** How the words `1 || ! x` read. */
  lemma ExampleReads(e: Env, ws: seq<Word>)
    requires ws == [[49], OR2, BANG, [120]]
    ensures Parse0(e, ws, 0) == Parsed(Or(Number(Leaf([49])), Number(Not(Leaf([120])))), 4)
  {
    assert Parse6(e, ws, 0) == Parsed(Leaf([49]), 1);
    assert Parse6(e, ws, 3) == Parsed(Leaf([120]), 4);
    assert Parse6(e, ws, 2) == Parsed(Not(Leaf([120])), 4);
    hide Parse6;
    Climb(e, ws, 0);
    Climb(e, ws, 2);
    hide Parse1;
    assert Parse0(e, ws, 2) == Parsed(Number(Not(Leaf([120]))), 4);
  }

  /** The expression `1 || ! x` has the value one, but the evaluator fails on it: it takes the negation although
      the operand does not count. */
  lemma SkippedOperandFails(e: Env)
    requires e.glob([49]) == Some([49]) && e.glob([120]) == Some([120])
    ensures var ws := [[49], OR2, BANG, [120]]; var p := Parse0(e, ws, 0);
      p.Parsed? && p.pos == 4 && ValueInt(e, p.tree, false) == Some(1) && Exp0(e, ws, 0, Mode(false, false)) == Error
  {
    hide Parse0, Exp0;
    var ws: seq<Word> := [[49], OR2, BANG, [120]];
    ExampleReads(e, ws);
    assert Egetn([49]) == Some(1) && Egetn([120]) == None;
    var t := Parse0(e, ws, 0).tree;
    assert EvalInt(e, t.a, Mode(false, false)) == Some(1) && EvalInt(e, t.b, Mode(true, false)) == None;
    Reads0(e, ws, 0, Mode(false, false));
  }

  /** How the words `1 || x` read. */
  lemma WordReads(e: Env, ws: seq<Word>)
    requires ws == [[49], OR2, [120]]
    ensures Parse0(e, ws, 0) == Parsed(Or(Number(Leaf([49])), Number(Leaf([120]))), 3)
  {
    assert Parse6(e, ws, 0) == Parsed(Leaf([49]), 1) && Parse6(e, ws, 2) == Parsed(Leaf([120]), 3);
    hide Parse6;
    Climb(e, ws, 0);
    Climb(e, ws, 2);
    hide Parse1;
    assert Parse0(e, ws, 2) == Parsed(Number(Leaf([120])), 3);
  }

  /** So it does on `1 || x`: a word that is not wanted still has to be a number. */
  lemma SkippedWordFails(e: Env)
    requires e.glob([49]) == Some([49]) && e.glob([120]) == Some([120])
    ensures var ws := [[49], OR2, [120]]; var p := Parse0(e, ws, 0);
      p.Parsed? && p.pos == 3 && ValueInt(e, p.tree, false) == Some(1) && Exp0(e, ws, 0, Mode(false, false)) == Error
  {
    hide Parse0, Exp0;
    var ws: seq<Word> := [[49], OR2, [120]];
    WordReads(e, ws);
    assert Egetn([49]) == Some(1) && Egetn([120]) == None;
    var t := Parse0(e, ws, 0).tree;
    assert EvalInt(e, t.a, Mode(false, false)) == Some(1) && EvalInt(e, t.b, Mode(true, false)) == None;
    Reads0(e, ws, 0, Mode(false, false));
  }
}
