/** The expression evaluator of csh, which evaluates while it reads (bin/csh/exp.c). */
module ExprEval {
  import opened Basics
  import opened ExprNumber
  import opened ExprSpec

  /** A value, and the place behind the words that have been read. */
  datatype Result<+T> = Error | Value(v: T, pos: nat)

  function Of<T>(v: Option<T>, pos: nat): Result<T> {
    if v.None? then Error else Value(v.value, pos)
  }

  function Exp0(e: Env, ws: seq<Word>, i: nat, m: Mode): (r: Result<Int32>)
    requires i <= |ws|
    ensures r.Value? ==> i <= r.pos <= |ws|
    decreases |ws| - i, 10
  {
    var p := Exp1(e, ws, i, m);
    if p.Error? || Tok(ws, p.pos) != Some(OR2) then p
    else
      var q := Exp0(e, ws, p.pos + 1, Mode(m.ignore || p.v != 0, false));
      if q.Error? then q else Value(Bool(p.v != 0 || q.v != 0), q.pos)
  }

  function Exp1(e: Env, ws: seq<Word>, i: nat, m: Mode): (r: Result<Int32>)
    requires i <= |ws|
    ensures r.Value? ==> i <= r.pos <= |ws|
    decreases |ws| - i, 9
  {
    var p := Exp2(e, ws, i, m);
    if p.Error? || Tok(ws, p.pos) != Some(AND2) then p
    else
      var q := Exp1(e, ws, p.pos + 1, Mode(m.ignore || p.v == 0, false));
      if q.Error? then q else Value(Bool(p.v != 0 && q.v != 0), q.pos)
  }

  function Exp2(e: Env, ws: seq<Word>, i: nat, m: Mode): (r: Result<Int32>)
    requires i <= |ws|
    ensures r.Value? ==> i <= r.pos <= |ws|
    decreases |ws| - i, 8
  {
    var p := Exp2a(e, ws, i, m);
    if p.Error? || Tok(ws, p.pos) != Some(OR) then p
    else
      var q := Exp2(e, ws, p.pos + 1, m);
      if q.Error? then q else Value(e.bits(OR, p.v, q.v), q.pos)
  }

  function Exp2a(e: Env, ws: seq<Word>, i: nat, m: Mode): (r: Result<Int32>)
    requires i <= |ws|
    ensures r.Value? ==> i <= r.pos <= |ws|
    decreases |ws| - i, 7
  {
    var p := Exp2b(e, ws, i, m);
    if p.Error? || Tok(ws, p.pos) != Some(CARET) then p
    else
      var q := Exp2a(e, ws, p.pos + 1, m);
      if q.Error? then q else Value(e.bits(CARET, p.v, q.v), q.pos)
  }

  function Exp2b(e: Env, ws: seq<Word>, i: nat, m: Mode): (r: Result<Int32>)
    requires i <= |ws|
    ensures r.Value? ==> i <= r.pos <= |ws|
    decreases |ws| - i, 6
  {
    var p := Exp2c(e, ws, i, m);
    if p.Error? || Tok(ws, p.pos) != Some(AND) then p
    else
      var q := Exp2b(e, ws, p.pos + 1, m);
      if q.Error? then q else Value(e.bits(AND, p.v, q.v), q.pos)
  }

  function Exp2c(e: Env, ws: seq<Word>, i: nat, m: Mode): (r: Result<Int32>)
    requires i <= |ws|
    ensures r.Value? ==> i <= r.pos <= |ws|
    decreases |ws| - i, 5
  {
    var p := Exp3(e, ws, i, m);
    if p.Error? then Error
    else
      var op := Op(Tok(ws, p.pos), EQOP);
      if op == 0 then
        Of(Egetn(p.v), p.pos)
      else
        var q := Exp3(e, ws, p.pos + 1, SecondMode(op, m));
        if q.Error? then Error else Of(DoMatch(e, op, m, p.v, q.v), q.pos)
  }

  function Exp3(e: Env, ws: seq<Word>, i: nat, m: Mode): (r: Result<Word>)
    requires i <= |ws|
    ensures r.Value? ==> i <= r.pos <= |ws|
    decreases |ws| - i, 4
  {
    var p := Exp3a(e, ws, i, m);
    if p.Error? then p
    else
      var op := Op(Tok(ws, p.pos), RELOP);
      if op == 0 then p
      else
        var equal := Tok(ws, p.pos + 1) == Some(EQUAL);
        var q := Exp3(e, ws, if equal then p.pos + 2 else p.pos + 1, m);
        if q.Error? then q else Of(DoRel(if equal then op + 1 else op, m, p.v, q.v), q.pos)
  }

  /** The shifts, which are computed even if the value is to be ignored. */
  function Exp3a(e: Env, ws: seq<Word>, i: nat, m: Mode): (r: Result<Word>)
    requires i <= |ws|
    ensures r.Value? ==> i <= r.pos <= |ws|
    decreases |ws| - i, 3
  {
    var p := Exp4(e, ws, i, m);
    if p.Error? || !IsShift(Tok(ws, p.pos)) then p
    else
      var q := Exp3a(e, ws, p.pos + 1, m);
      if q.Error? then q else Of(DoShift(e, At(ws[p.pos], 0) == LESS, p.v, q.v), q.pos)
  }

  function Exp4(e: Env, ws: seq<Word>, i: nat, m: Mode): (r: Result<Word>)
    requires i <= |ws|
    ensures r.Value? ==> i <= r.pos <= |ws|
    decreases |ws| - i, 2
  {
    var p := Exp5(e, ws, i, m);
    if p.Error? || Op(Tok(ws, p.pos), ADDOP) == 0 then p
    else
      var q := Exp4(e, ws, p.pos + 1, m);
      if q.Error? then q else Of(DoSum(At(ws[p.pos], 0), m, p.v, q.v), q.pos)
  }

  function Exp5(e: Env, ws: seq<Word>, i: nat, m: Mode): (r: Result<Word>)
    requires i <= |ws|
    ensures r.Value? ==> i <= r.pos <= |ws|
    decreases |ws| - i, 1
  {
    var p := Exp6(e, ws, i, m);
    if p.Error? || Op(Tok(ws, p.pos), MULOP) == 0 then p
    else
      var q := Exp5(e, ws, p.pos + 1, m);
      if q.Error? then q else Of(DoTerm(At(ws[p.pos], 0), m, p.v, q.v), q.pos)
  }

  function Exp6(e: Env, ws: seq<Word>, i: nat, m: Mode): (r: Result<Word>)
    requires i <= |ws|
    ensures r.Value? ==> i <= r.pos <= |ws|
    decreases |ws| - i, 0
  {
    if i == |ws| then Error
    else
      var w := ws[i];
      if w == BANG || w == TILDE then
        var p := Exp6(e, ws, i + 1, m);
        if p.Error? then Error else Of(if w == BANG then DoNot(p.v) else DoCompl(p.v), p.pos)
      else if w == LPAREN then
        var p := Exp0(e, ws, i + 1, m);
        if p.Error? || p.pos == |ws| || At(ws[p.pos], 0) != RPAREN then Error else Value(Putn(p.v), p.pos + 1)
      else if w == LBRACE then
        var j := CommandEnd(ws, i + 1);
        if j.None? then Error
        else Value(DoCommand(e, m, ws[i + 1..j.value - 1]), j.value)
      else if Isa(Some(w), ANYOP) != 0 then Value([], i)
      else if IsInquiry(w) then
        if At(w, 2) != 0 || NoName(e, Tok(ws, i + 1)) then Error
        else Of(DoInquiry(e, m, w[1], ws[i + 1]), i + 2)
      else Of(DoLeaf(e, m, w), i + 1)
  }

  /** What reading a tree first and evaluating it then comes to. */
  function IntResult(e: Env, p: Parsed<IntExpr>, m: Mode): Result<Int32> {
    if p.Failed? then Error else Of(EvalInt(e, p.tree, m), p.pos)
  }

  function StrResult(e: Env, p: Parsed<StrExpr>, m: Mode): Result<Word> {
    if p.Failed? then Error else Of(EvalStr(e, p.tree, m), p.pos)
  }

  lemma {:induction false} Reads0(e: Env, ws: seq<Word>, i: nat, m: Mode)
    requires i <= |ws|
    ensures Exp0(e, ws, i, m) == IntResult(e, Parse0(e, ws, i), m)
    decreases |ws| - i, 10
  {
    hide Exp1, Parse1;
    Reads1(e, ws, i, m);
    var p := Exp1(e, ws, i, m);
    if p.Value? && Tok(ws, p.pos) == Some(OR2) {
      Reads0(e, ws, p.pos + 1, Mode(m.ignore || p.v != 0, false));
      var t, u := Parse1(e, ws, i), Parse0(e, ws, p.pos + 1);
      assert u.Parsed? ==> Parse0(e, ws, i) == Parsed(Or(t.tree, u.tree), u.pos);
    }
  }

  lemma {:induction false} Reads1(e: Env, ws: seq<Word>, i: nat, m: Mode)
    requires i <= |ws|
    ensures Exp1(e, ws, i, m) == IntResult(e, Parse1(e, ws, i), m)
    decreases |ws| - i, 9
  {
    hide Exp2, Parse2;
    Reads2(e, ws, i, m);
    var p := Exp2(e, ws, i, m);
    if p.Value? && Tok(ws, p.pos) == Some(AND2) {
      Reads1(e, ws, p.pos + 1, Mode(m.ignore || p.v == 0, false));
      var t, u := Parse2(e, ws, i), Parse1(e, ws, p.pos + 1);
      assert u.Parsed? ==> Parse1(e, ws, i) == Parsed(And(t.tree, u.tree), u.pos);
    }
  }

  lemma {:induction false} Reads2(e: Env, ws: seq<Word>, i: nat, m: Mode)
    requires i <= |ws|
    ensures Exp2(e, ws, i, m) == IntResult(e, Parse2(e, ws, i), m)
    decreases |ws| - i, 8
  {
    hide Exp2a, Parse2a;
    Reads2a(e, ws, i, m);
    var p := Exp2a(e, ws, i, m);
    if p.Value? && Tok(ws, p.pos) == Some(OR) {
      Reads2(e, ws, p.pos + 1, m);
    }
  }

  lemma {:induction false} Reads2a(e: Env, ws: seq<Word>, i: nat, m: Mode)
    requires i <= |ws|
    ensures Exp2a(e, ws, i, m) == IntResult(e, Parse2a(e, ws, i), m)
    decreases |ws| - i, 7
  {
    hide Exp2b, Parse2b;
    Reads2b(e, ws, i, m);
    var p := Exp2b(e, ws, i, m);
    if p.Value? && Tok(ws, p.pos) == Some(CARET) {
      Reads2a(e, ws, p.pos + 1, m);
    }
  }

  lemma {:induction false} Reads2b(e: Env, ws: seq<Word>, i: nat, m: Mode)
    requires i <= |ws|
    ensures Exp2b(e, ws, i, m) == IntResult(e, Parse2b(e, ws, i), m)
    decreases |ws| - i, 6
  {
    hide Exp2c, Parse2c;
    Reads2c(e, ws, i, m);
    var p := Exp2c(e, ws, i, m);
    if p.Value? && Tok(ws, p.pos) == Some(AND) {
      Reads2b(e, ws, p.pos + 1, m);
    }
  }

  lemma {:induction false} Reads2c(e: Env, ws: seq<Word>, i: nat, m: Mode)
    requires i <= |ws|
    ensures Exp2c(e, ws, i, m) == IntResult(e, Parse2c(e, ws, i), m)
    decreases |ws| - i, 5
  {
    hide Exp3, Parse3, Op, DoMatch, Egetn;
    Reads3(e, ws, i, m);
    var p := Exp3(e, ws, i, m);
    if p.Value? {
      var op := Op(Tok(ws, p.pos), EQOP);
      if op != 0 {
        Reads3(e, ws, p.pos + 1, SecondMode(op, m));
      }
    }
  }

  lemma {:induction false} Reads3(e: Env, ws: seq<Word>, i: nat, m: Mode)
    requires i <= |ws|
    ensures Exp3(e, ws, i, m) == StrResult(e, Parse3(e, ws, i), m)
    decreases |ws| - i, 4
  {
    hide Exp3a, Parse3a, Op, DoRel;
    Reads3a(e, ws, i, m);
    var p := Exp3a(e, ws, i, m);
    if p.Value? {
      var op := Op(Tok(ws, p.pos), RELOP);
      if op != 0 {
        var equal := Tok(ws, p.pos + 1) == Some(EQUAL);
        var k := if equal then p.pos + 2 else p.pos + 1;
        Reads3(e, ws, k, m);
        var t, u := Parse3a(e, ws, i), Parse3(e, ws, k);
        assert u.Parsed? ==> Parse3(e, ws, i) == Parsed(Rel(if equal then op + 1 else op, t.tree, u.tree), u.pos);
      }
    }
  }

  lemma {:induction false} Reads3a(e: Env, ws: seq<Word>, i: nat, m: Mode)
    requires i <= |ws|
    ensures Exp3a(e, ws, i, m) == StrResult(e, Parse3a(e, ws, i), m)
    decreases |ws| - i, 3
  {
    hide Exp4, Parse4, DoShift;
    Reads4(e, ws, i, m);
    var p := Exp4(e, ws, i, m);
    if p.Value? && IsShift(Tok(ws, p.pos)) {
      Reads3a(e, ws, p.pos + 1, m);
    }
  }

  lemma {:induction false} Reads4(e: Env, ws: seq<Word>, i: nat, m: Mode)
    requires i <= |ws|
    ensures Exp4(e, ws, i, m) == StrResult(e, Parse4(e, ws, i), m)
    decreases |ws| - i, 2
  {
    hide Exp5, Parse5, Op, DoSum;
    Reads5(e, ws, i, m);
    var p := Exp5(e, ws, i, m);
    if p.Value? && Op(Tok(ws, p.pos), ADDOP) != 0 {
      Reads4(e, ws, p.pos + 1, m);
    }
  }

  lemma {:induction false} Reads5(e: Env, ws: seq<Word>, i: nat, m: Mode)
    requires i <= |ws|
    ensures Exp5(e, ws, i, m) == StrResult(e, Parse5(e, ws, i), m)
    decreases |ws| - i, 1
  {
    hide Exp6, Parse6, Op, DoTerm;
    Reads6(e, ws, i, m);
    var p := Exp6(e, ws, i, m);
    if p.Value? && Op(Tok(ws, p.pos), MULOP) != 0 {
      Reads5(e, ws, p.pos + 1, m);
    }
  }

  lemma {:induction false} Reads6(e: Env, ws: seq<Word>, i: nat, m: Mode)
    requires i <= |ws|
    ensures Exp6(e, ws, i, m) == StrResult(e, Parse6(e, ws, i), m)
    decreases |ws| - i, 0
  {
    hide Exp0, Parse0, Isa, DoNot, DoCompl, DoCommand, DoInquiry, DoLeaf, NoName;
    if i < |ws| {
      var w := ws[i];
      if w == BANG || w == TILDE {
        Reads6(e, ws, i + 1, m);
      } else if w == LPAREN {
        Reads0(e, ws, i + 1, m);
      }
    }
  }
}
