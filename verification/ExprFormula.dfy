/** What the expressions of csh come to on numbers: formulas with the usual operators, how they are written, and that
    the evaluator computes them (bin/csh/exp.c). */
module ExprFormula {
  import opened Basics
  import opened ExprNumber
  import opened ExprSpec
  import opened ExprEval
  import opened ExprMeaning

  datatype Oper = OrOr | AndAnd | BitOr | BitXor | BitAnd | Eq | Ne | Lt | Gt | Le | Ge | Shl | Shr
                | Plus | Minus | Times | Over | Modulo

  datatype Formula = Num(n: Int32) | Zero(a: Formula) | Compl(a: Formula) | Group(a: Formula)
                   | Bin(op: Oper, l: Formula, r: Formula)

  /** How an operator is written: `||`, `&&`, `|`, `^`, `&`, `==`, `!=`, `<`, `>`, `<` `=`, `>` `=`, `<<`, `>>`, `+`,
      `-`, `*`, `/` and `%`. */
  function Sign(op: Oper): (ws: seq<Word>)
    ensures 1 <= |ws| <= 2
  {
    match op
    case OrOr => [[124, 124]]
    case AndAnd => [[38, 38]]
    case BitOr => [[124]]
    case BitXor => [[94]]
    case BitAnd => [[38]]
    case Eq => [[61, 61]]
    case Ne => [[33, 61]]
    case Lt => [[60]]
    case Gt => [[62]]
    case Le => [[60], [61]]
    case Ge => [[62], [61]]
    case Shl => [[60, 60]]
    case Shr => [[62, 62]]
    case Plus => [[43]]
    case Minus => [[45]]
    case Times => [[42]]
    case Over => [[47]]
    case Modulo => [[37]]
  }

  /** How weakly it binds. */
  function Level(op: Oper): (l: nat)
    ensures 1 <= l <= 10
  {
    match op
    case OrOr => 10
    case AndAnd => 9
    case BitOr => 8
    case BitXor => 7
    case BitAnd => 6
    case Eq => 5
    case Ne => 5
    case Lt => 4
    case Gt => 4
    case Le => 4
    case Ge => 4
    case Shl => 3
    case Shr => 3
    case Plus => 2
    case Minus => 2
    case Times => 1
    case Over => 1
    case Modulo => 1
  }

  function Rank(f: Formula): nat {
    if f.Bin? then Level(f.op) else 0
  }

  /** Parentheses are where they are needed: operators of one level group to the right, and those of equality do not
      stand in a row. */
  predicate Formed(f: Formula) {
    match f
    case Num(_) => true
    case Zero(a) => Formed(a) && Rank(a) == 0
    case Compl(a) => Formed(a) && Rank(a) == 0
    case Group(a) => Formed(a)
    case Bin(op, l, r) =>
      Formed(l) && Formed(r) && Rank(l) < Level(op) && (Rank(r) < Level(op) || (Rank(r) == Level(op) != 5))
  }

  /** How a formula is written, word by word; `!` and `~` stand in front. */
  function Written(f: Formula): (ws: seq<Word>)
    ensures ws != []
  {
    match f
    case Num(n) => [Putn(n)]
    case Zero(a) => [[33]] + Written(a)
    case Compl(a) => [[126]] + Written(a)
    case Group(a) => [[40]] + Written(a) + [[41]]
    case Bin(op, l, r) => Written(l) + Sign(op) + Written(r)
  }

  function Truth(b: bool): Int32 {
    if b then 1 else 0
  }

  /** What an operator other than `||` and `&&` computes; the operations on bits are those of the machine. */
  function Applied(e: Env, op: Oper, a: Int32, b: Int32): Option<Int32>
    requires op != OrOr && op != AndAnd
  {
    match op
    case BitOr => Some(e.bits([124], a, b))
    case BitXor => Some(e.bits([94], a, b))
    case BitAnd => Some(e.bits([38], a, b))
    case Eq => Some(Truth(a == b))
    case Ne => Some(Truth(a != b))
    case Lt => Some(Truth(a < b))
    case Gt => Some(Truth(a > b))
    case Le => Some(Truth(a <= b))
    case Ge => Some(Truth(a >= b))
    case Shl => Some(e.shift(true, a, b))
    case Shr => Some(e.shift(false, a, b))
    case Plus => Some(Wrap(a + b))
    case Minus => Some(Wrap(a - b))
    case Times => Some(Wrap(a * b))
    case Over => if b == 0 then None else Some(Wrap(Quotient(a, b)))
    case Modulo => if b == 0 then None else Some(Wrap(a - b * Quotient(a, b)))
  }

  /** The value of a formula, unless it divides by zero. */
  function Meaning(e: Env, f: Formula): Option<Int32> {
    match f
    case Num(n) => Some(n)
    case Zero(a) => var v := Meaning(e, a); if v.None? then None else Some(Truth(v.value == 0))
    case Compl(a) => var v := Meaning(e, a); if v.None? then None else Some(-1 - v.value)
    case Group(a) => Meaning(e, a)
    case Bin(op, l, r) =>
      var v := Meaning(e, l);
      if v.None? then None
      else if op == OrOr && v.value != 0 then Some(1)
      else if op == AndAnd && v.value == 0 then Some(0)
      else
        var w := Meaning(e, r);
        if w.None? then None
        else if op == OrOr || op == AndAnd then Some(Truth(w.value != 0))
        else Applied(e, op, v.value, w.value)
  }

  /** The value kept in 32 bits differs from the integer by a multiple of 2 to the power of 32. */
  lemma WrapExactly(n: int)
    ensures -0x8000_0000 <= Wrap(n) < 0x8000_0000 && (n - Wrap(n)) % 0x1_0000_0000 == 0
  {
    assert n - Wrap(n) == (n + 0x8000_0000) / 0x1_0000_0000 * 0x1_0000_0000;
  }

  lemma Divided(m: nat, n: nat)
    requires n > 0
    ensures 0 <= m - n * (m / n) < n
  {
    assert m == n * (m / n) + m % n;
  }

  lemma Signs(x: int, y: int)
    ensures -x * y == -(x * y) && x * -y == -(x * y) && -x * -y == x * y
  {
  }

  /** Division goes towards zero: what is left is less than the divisor, and on the side of a. */
  lemma QuotientTruncates(a: int, b: int)
    requires b != 0
    ensures var r := a - b * Quotient(a, b);
      (if b > 0 then -b < r < b else b < r < -b) && (a >= 0 ==> r >= 0) && (a <= 0 ==> r <= 0)
  {
    var m, n := if a < 0 then -a else a, if b < 0 then -b else b;
    var q := m / n;
    var p := n * q;
    Divided(m, n);
    Signs(n, q);
    assert Quotient(a, b) == if (a < 0) == (b < 0) then q else -q;
    hide Quotient;
    Truncated(a, b, p, Quotient(a, b), q);
  }

  lemma Truncated(a: int, b: int, p: int, x: int, q: int)
    requires b != 0 && x == if (a < 0) == (b < 0) then q else -q
    requires var m, n := if a < 0 then -a else a, if b < 0 then -b else b; 0 <= m - p < n && p == n * q
    ensures var r := a - b * x;
      (if b > 0 then -b < r < b else b < r < -b) && (a >= 0 ==> r >= 0) && (a <= 0 ==> r <= 0)
  {
    Signs(b, q);
    Signs(b, x);
    assert b * x == if a < 0 then -p else p;
  }

  /** Numbers are written in decimal. */
  lemma PutnDecimal(n: Int32, d: nat)
    requires d <= 9
    ensures Putn(d) == [48 + d]
    ensures 0 < n && n * 10 + d < 0x8000_0000 ==> Putn(n * 10 + d) == Putn(n) + [48 + d]
    ensures 0 < n ==> Putn(-n) == [45] + Putn(n)
  {
  }

  function Between(op: Oper, s: StrExpr, t: StrExpr): StrExpr {
    if Level(op) == 1 then Term(Sign(op)[0][0], s, t)
    else if Level(op) == 2 then Sum(Sign(op)[0][0], s, t)
    else if Level(op) == 3 then Shift(op == Shl, s, t)
    else Rel(if op == Lt then 4 else if op == Le then 5 else if op == Gt then 2 else 3, s, t)
  }

  /** The trees that formulas read as: one for their value as a word, one for it as a number. */
  function StrTree(f: Formula): StrExpr
    decreases f, 0
  {
    match f
    case Num(n) => Leaf(Putn(n))
    case Zero(a) => StrExpr.Not(StrTree(a))
    case Compl(a) => StrExpr.Compl(StrTree(a))
    case Group(a) => Paren(IntTree(a))
    case Bin(op, l, r) => Between(op, StrTree(l), StrTree(r))
  }

  function IntTree(f: Formula): IntExpr
    decreases f, 1
  {
    if Rank(f) < 5 then Number(StrTree(f))
    else if Rank(f) == 5 then Match(if f.op == Eq then 1 else 6, StrTree(f.l), StrTree(f.r))
    else if f.op == OrOr then IntExpr.Or(IntTree(f.l), IntTree(f.r))
    else if f.op == AndAnd then IntExpr.And(IntTree(f.l), IntTree(f.r))
    else Bit(Sign(f.op)[0], IntTree(f.l), IntTree(f.r))
  }

  /** The parsers by level. */
  function ParseStr(level: nat, e: Env, ws: seq<Word>, i: nat): Parsed<StrExpr>
    requires i <= |ws|
  {
    if level == 0 then Parse6(e, ws, i) else if level == 1 then Parse5(e, ws, i)
    else if level == 2 then Parse4(e, ws, i) else if level == 3 then Parse3a(e, ws, i) else Parse3(e, ws, i)
  }

  function ParseInt(level: nat, e: Env, ws: seq<Word>, i: nat): Parsed<IntExpr>
    requires i <= |ws|
  {
    if level <= 5 then Parse2c(e, ws, i) else if level == 6 then Parse2b(e, ws, i)
    else if level == 7 then Parse2a(e, ws, i) else if level == 8 then Parse2(e, ws, i)
    else if level == 9 then Parse1(e, ws, i) else Parse0(e, ws, i)
  }

  /** A formula ends here, if its operators are of the level or below: there is nothing, a closing parenthesis, or
      an operator that binds less. */
  predicate Stops(level: nat, cp: Option<Word>) {
    cp == None || cp == Some([41]) || exists op: Oper :: Level(op) > level && cp == Some(Sign(op)[0])
  }

  lemma StopsStr(level: nat, e: Env, ws: seq<Word>, i: nat, t: StrExpr, n: nat)
    requires 1 <= level <= 4 && i <= n <= |ws| && ParseStr(level - 1, e, ws, i) == Parsed(t, n)
    requires Stops(level, Tok(ws, n))
    ensures ParseStr(level, e, ws, i) == Parsed(t, n)
  {
    hide Parse6;
  }

  /** A part of the words from i on. */
  predicate Here(ws: seq<Word>, i: nat, a: seq<Word>) {
    i + |a| <= |ws| && ws[i..i + |a|] == a
  }

  lemma HereParts(ws: seq<Word>, i: nat, a: seq<Word>, b: seq<Word>)
    requires Here(ws, i, a + b)
    ensures Here(ws, i, a) && Here(ws, i + |a|, b)
  {
    assert (a + b)[..|a|] == a && (a + b)[|a|..] == b;
    assert ws[i..i + |a + b|][..|a|] == ws[i..i + |a|];
    assert ws[i..i + |a + b|][|a|..] == ws[i + |a|..i + |a| + |b|];
  }

  lemma HereFirst(ws: seq<Word>, i: nat, a: seq<Word>)
    requires Here(ws, i, a) && a != []
    ensures Tok(ws, i) == Some(a[0]) && (|a| > 1 ==> Tok(ws, i + 1) == Some(a[1]))
  {
    assert ws[i..i + |a|][0] == ws[i];
    assert |a| > 1 ==> ws[i..i + |a|][1] == ws[i + 1];
  }

  lemma StopsInt(level: nat, e: Env, ws: seq<Word>, i: nat, t: IntExpr, n: nat)
    requires 6 <= level <= 10 && i <= n <= |ws| && ParseInt(level - 1, e, ws, i) == Parsed(t, n)
    requires Stops(level, Tok(ws, n))
    ensures ParseInt(level, e, ws, i) == Parsed(t, n)
  {
    hide Parse2c;
  }

  lemma StopsNumber(e: Env, ws: seq<Word>, i: nat, f: Formula, n: nat)
    requires i <= n <= |ws| && ParseStr(4, e, ws, i) == Parsed(StrTree(f), n) && Stops(5, Tok(ws, n)) && Rank(f) < 5
    ensures ParseInt(5, e, ws, i) == Parsed(IntTree(f), n)
  {
    hide Parse3;
  }

  /** What begins a formula is no sign of equality. */
  lemma FirstWord(f: Formula)
    ensures var w := Written(f)[0]; w == [33] || w == [126] || w == [40] || exists n: Int32 :: w == Putn(n)
  {
    if f.Bin? {
      FirstWord(f.l);
    }
  }

  lemma NumberWord(n: Int32)
    ensures var w := Putn(n); Isa(Some(w), ANYOP) == 0 && !IsInquiry(w) && w != [61]
    ensures var w := Putn(n); w != BANG && w != TILDE && w != LPAREN && w != LBRACE
  {
    var m: int := n;
    if m < 0 {
      assert Digits(-m)[0] in Digits(-m);
    } else {
      assert Digits(m)[0] in Digits(m);
    }
    hide Digits;
  }

  /** An operator between two trees makes one. */
  lemma OperStr(e: Env, ws: seq<Word>, i: nat, op: Oper, s: StrExpr, t: StrExpr, k: nat, n: nat)
    requires 1 <= Level(op) <= 4 && i <= k && k + |Sign(op)| <= n <= |ws| && OperAt(ws, k, op)
    requires ParseStr(Level(op) - 1, e, ws, i) == Parsed(s, k)
    requires ParseStr(Level(op), e, ws, k + |Sign(op)|) == Parsed(t, n)
    ensures ParseStr(Level(op), e, ws, i) == Parsed(Between(op, s, t), n)
  {
    hide Parse6, Parse5, Parse4, Parse3a, Parse3, Tok, Between, Sign;
    OperFirst(ws, k, op);
    if Level(op) == 1 {
      OperTerm(e, ws, i, op, s, t, k, n);
    } else if Level(op) == 2 {
      OperSum(e, ws, i, op, s, t, k, n);
    } else if Level(op) == 3 {
      OperShift(e, ws, i, op, s, t, k, n);
    } else {
      OperRel(e, ws, i, op, s, t, k, n);
    }
  }

  /** The operator stands at k, all of it. */
  predicate OperAt(ws: seq<Word>, k: nat, op: Oper) {
    && Tok(ws, k) == Some(Sign(op)[0])
    && if |Sign(op)| == 2 then Tok(ws, k + 1) == Some(Sign(op)[1]) else Tok(ws, k + 1) != Some([61])
  }

  lemma OperFirst(ws: seq<Word>, k: nat, op: Oper)
    requires OperAt(ws, k, op)
    ensures Tok(ws, k) == Some(Sign(op)[0]) && (Level(op) != 4 ==> |Sign(op)| == 1)
  {
  }

  lemma OperTerm(e: Env, ws: seq<Word>, i: nat, op: Oper, s: StrExpr, t: StrExpr, k: nat, n: nat)
    requires Level(op) == 1 && i <= k < n <= |ws| && Tok(ws, k) == Some(Sign(op)[0])
    requires Parse6(e, ws, i) == Parsed(s, k) && Parse5(e, ws, k + 1) == Parsed(t, n)
    ensures Parse5(e, ws, i) == Parsed(Between(op, s, t), n)
  {
    hide Parse6;
  }

  lemma OperSum(e: Env, ws: seq<Word>, i: nat, op: Oper, s: StrExpr, t: StrExpr, k: nat, n: nat)
    requires Level(op) == 2 && i <= k < n <= |ws| && Tok(ws, k) == Some(Sign(op)[0])
    requires Parse5(e, ws, i) == Parsed(s, k) && Parse4(e, ws, k + 1) == Parsed(t, n)
    ensures Parse4(e, ws, i) == Parsed(Between(op, s, t), n)
  {
    hide Parse5;
  }

  lemma OperShift(e: Env, ws: seq<Word>, i: nat, op: Oper, s: StrExpr, t: StrExpr, k: nat, n: nat)
    requires Level(op) == 3 && i <= k < n <= |ws| && Tok(ws, k) == Some(Sign(op)[0])
    requires Parse4(e, ws, i) == Parsed(s, k) && Parse3a(e, ws, k + 1) == Parsed(t, n)
    ensures Parse3a(e, ws, i) == Parsed(Between(op, s, t), n)
  {
    hide Parse4;
  }

  lemma OperRel(e: Env, ws: seq<Word>, i: nat, op: Oper, s: StrExpr, t: StrExpr, k: nat, n: nat)
    requires Level(op) == 4 && i <= k && k + |Sign(op)| <= n <= |ws| && OperAt(ws, k, op)
    requires Parse3a(e, ws, i) == Parsed(s, k) && Parse3(e, ws, k + |Sign(op)|) == Parsed(t, n)
    ensures Parse3(e, ws, i) == Parsed(Between(op, s, t), n)
  {
    hide Parse3a;
  }

  lemma OperInt(e: Env, ws: seq<Word>, i: nat, f: Formula, k: nat, n: nat)
    requires f.Bin? && 6 <= Level(f.op) && i <= k && k + 1 <= n <= |ws|
    requires ParseInt(Level(f.op) - 1, e, ws, i) == Parsed(IntTree(f.l), k) && Tok(ws, k) == Some(Sign(f.op)[0])
    requires ParseInt(Level(f.op), e, ws, k + 1) == Parsed(IntTree(f.r), n)
    ensures ParseInt(Level(f.op), e, ws, i) == Parsed(IntTree(f), n)
  {
    hide Tok, Parse2c, StrTree;
    if Level(f.op) == 6 {
      hide Parse2a, Parse2, Parse1, Parse0;
    } else if Level(f.op) == 7 {
      hide Parse2b, Parse2, Parse1, Parse0;
    } else if Level(f.op) == 8 {
      hide Parse2b, Parse2a, Parse1, Parse0;
    } else if Level(f.op) == 9 {
      hide Parse2b, Parse2a, Parse2, Parse0;
    } else {
      hide Parse2b, Parse2a, Parse2, Parse1;
    }
  }

  lemma OperMatch(e: Env, ws: seq<Word>, i: nat, f: Formula, k: nat, n: nat)
    requires f.Bin? && Level(f.op) == 5 && i <= k && k + 1 <= n <= |ws|
    requires ParseStr(4, e, ws, i) == Parsed(StrTree(f.l), k) && Here(ws, k, Sign(f.op))
    requires ParseStr(4, e, ws, k + 1) == Parsed(StrTree(f.r), n)
    ensures ParseInt(5, e, ws, i) == Parsed(IntTree(f), n)
  {
    HereFirst(ws, k, Sign(f.op));
    hide Here, Parse3;
  }

  lemma {:induction false} ReadsStr(e: Env, ws: seq<Word>, i: nat, f: Formula, level: nat)
    requires Formed(f) && Rank(f) <= level <= 4 && Here(ws, i, Written(f)) && Stops(level, Tok(ws, i + |Written(f)|))
    ensures ParseStr(level, e, ws, i) == Parsed(StrTree(f), i + |Written(f)|)
    decreases f, level
  {
    hide ParseStr, Stops, Written, StrTree, Sign, Parse6;
    if Rank(f) < level {
      StopsBelow(level, Tok(ws, i + |Written(f)|));
      ReadsStr(e, ws, i, f, level - 1);
      StopsStr(level, e, ws, i, StrTree(f), i + |Written(f)|);
    } else if f.Bin? {
      var k, n := Parts(ws, i, f);
      StopsAt(f.op);
      ReadsStr(e, ws, i, f.l, level - 1);
      ReadsStr(e, ws, n, f.r, level);
      OperStr(e, ws, i, f.op, StrTree(f.l), StrTree(f.r), k, i + |Written(f)|);
      BinTree(f);
    } else {
      ReadsTerm(e, ws, i, f);
      TermLevel(e, ws, i);
    }
  }

  lemma BinTree(f: Formula)
    requires f.Bin?
    ensures StrTree(f) == Between(f.op, StrTree(f.l), StrTree(f.r))
  {
  }

  lemma TermLevel(e: Env, ws: seq<Word>, i: nat)
    requires i <= |ws|
    ensures ParseStr(0, e, ws, i) == Parse6(e, ws, i)
  {
  }

  lemma StopsBelow(level: nat, cp: Option<Word>)
    requires level > 0 && Stops(level, cp)
    ensures Stops(level - 1, cp)
  {
  }

  lemma StopsAt(op: Oper)
    ensures Stops(Level(op) - 1, Some(Sign(op)[0]))
  {
  }

  lemma Parts(ws: seq<Word>, i: nat, f: Formula) returns (k: nat, n: nat)
    requires f.Bin? && Here(ws, i, Written(f))
    ensures k == i + |Written(f.l)| && n == k + |Sign(f.op)| && n + |Written(f.r)| == i + |Written(f)|
    ensures Here(ws, i, Written(f.l)) && Here(ws, k, Sign(f.op)) && Here(ws, n, Written(f.r))
    ensures OperAt(ws, k, f.op) && Tok(ws, k) == Some(Sign(f.op)[0]) && (Level(f.op) >= 5 ==> n == k + 1)
  {
    k := i + |Written(f.l)|;
    n := k + |Sign(f.op)|;
    HereParts(ws, i, Written(f.l) + Sign(f.op), Written(f.r));
    HereParts(ws, i, Written(f.l), Sign(f.op));
    BeginsNot(ws, n, f.r);
    OperHere(ws, k, f.op);
  }

  lemma OperHere(ws: seq<Word>, k: nat, op: Oper)
    requires Here(ws, k, Sign(op)) && Tok(ws, k + |Sign(op)|) != Some([61])
    ensures OperAt(ws, k, op) && Tok(ws, k) == Some(Sign(op)[0]) && (Level(op) >= 5 ==> |Sign(op)| == 1)
  {
    HereFirst(ws, k, Sign(op));
    hide Here;
  }

  lemma BeginsNot(ws: seq<Word>, n: nat, f: Formula)
    requires Here(ws, n, Written(f))
    ensures Tok(ws, n) != Some([61])
  {
    HereFirst(ws, n, Written(f));
    FirstWord(f);
    forall m: Int32 ensures Putn(m) != [61] {
      NumberWord(m);
    }
  }

  lemma NumReads(e: Env, ws: seq<Word>, i: nat, n: Int32)
    requires Tok(ws, i) == Some(Putn(n))
    ensures Parse6(e, ws, i) == Parsed(Leaf(Putn(n)), i + 1)
  {
    NumberWord(n);
  }

  lemma UnaryReads(e: Env, ws: seq<Word>, i: nat, t: StrExpr, n: nat)
    requires i < |ws| && Parse6(e, ws, i + 1) == Parsed(t, n)
    ensures ws[i] == [33] ==> Parse6(e, ws, i) == Parsed(StrExpr.Not(t), n)
    ensures ws[i] == [126] ==> Parse6(e, ws, i) == Parsed(StrExpr.Compl(t), n)
  {
  }

  lemma GroupReads(e: Env, ws: seq<Word>, i: nat, t: IntExpr, n: nat)
    requires Tok(ws, i) == Some([40]) && Parse0(e, ws, i + 1) == Parsed(t, n) && Tok(ws, n) == Some([41])
    ensures Parse6(e, ws, i) == Parsed(Paren(t), n + 1)
  {
    hide Parse0;
  }

  lemma TermParts(ws: seq<Word>, i: nat, f: Formula)
    requires !f.Bin? && Here(ws, i, Written(f))
    ensures f.Num? ==> Tok(ws, i) == Some(Putn(f.n)) && |Written(f)| == 1
    ensures f.Zero? ==> i < |ws| && ws[i] == [33] && Here(ws, i + 1, Written(f.a)) && |Written(f)| == 1 + |Written(f.a)|
    ensures f.Compl? ==>
      i < |ws| && ws[i] == [126] && Here(ws, i + 1, Written(f.a)) && |Written(f)| == 1 + |Written(f.a)|
    ensures f.Group? ==>
      && Tok(ws, i) == Some([40]) && Here(ws, i + 1, Written(f.a)) && Tok(ws, i + 1 + |Written(f.a)|) == Some([41])
      && |Written(f)| == 2 + |Written(f.a)|
  {
    hide Putn;
    HereFirst(ws, i, Written(f));
    if f.Zero? {
      HereParts(ws, i, [[33]], Written(f.a));
    } else if f.Compl? {
      HereParts(ws, i, [[126]], Written(f.a));
    } else if f.Group? {
      GroupParts(ws, i, Written(f.a));
    }
    hide Here;
  }

  lemma HereFits(ws: seq<Word>, i: nat, a: seq<Word>)
    requires Here(ws, i, a)
    ensures i + |a| <= |ws|
  {
  }

  lemma {:induction false} ReadsTerm(e: Env, ws: seq<Word>, i: nat, f: Formula)
    requires Formed(f) && !f.Bin? && Here(ws, i, Written(f)) && Stops(0, Tok(ws, i + |Written(f)|))
    ensures Parse6(e, ws, i) == Parsed(StrTree(f), i + |Written(f)|)
    decreases f, 0, 0
  {
    hide Here, Stops, Parse0, Parse6, Putn, Written;
    TermParts(ws, i, f);
    HereFits(ws, i, Written(f));
    match f
    case Num(n) =>
      NumReads(e, ws, i, n);
    case Zero(a) =>
      ReadsTerm(e, ws, i + 1, a);
      UnaryReads(e, ws, i, StrTree(a), i + |Written(f)|);
    case Compl(a) =>
      ReadsTerm(e, ws, i + 1, a);
      UnaryReads(e, ws, i, StrTree(a), i + |Written(f)|);
    case Group(a) =>
      StopsClosing(10);
      ReadsInt(e, ws, i + 1, a, 10);
      WholeLevel(e, ws, i + 1);
      GroupReads(e, ws, i, IntTree(a), i + 1 + |Written(a)|);
  }

  lemma GroupParts(ws: seq<Word>, i: nat, a: seq<Word>)
    requires Here(ws, i, [[40]] + a + [[41]])
    ensures Here(ws, i + 1, a) && Tok(ws, i + 1 + |a|) == Some([41]) && i + 2 + |a| <= |ws|
  {
    HereParts(ws, i, [[40]] + a, [[41]]);
    HereParts(ws, i, [[40]], a);
    HereFirst(ws, i + 1 + |a|, [[41]]);
  }

  lemma StopsClosing(level: nat)
    ensures Stops(level, Some([41])) && Stops(level, None)
  {
  }

  lemma WholeLevel(e: Env, ws: seq<Word>, i: nat)
    requires i <= |ws|
    ensures ParseInt(10, e, ws, i) == Parse0(e, ws, i)
  {
  }

  lemma {:induction false} ReadsInt(e: Env, ws: seq<Word>, i: nat, f: Formula, level: nat)
    requires Formed(f) && Rank(f) <= level && 5 <= level <= 10 && Here(ws, i, Written(f))
    requires Stops(level, Tok(ws, i + |Written(f)|))
    ensures ParseInt(level, e, ws, i) == Parsed(IntTree(f), i + |Written(f)|)
    decreases f, level
  {
    hide ParseStr, ParseInt, Stops, Written, StrTree, IntTree, Sign;
    StopsBelow(level, Tok(ws, i + |Written(f)|));
    if level == 5 && Rank(f) < 5 {
      ReadsStr(e, ws, i, f, 4);
      StopsNumber(e, ws, i, f, i + |Written(f)|);
    } else if Rank(f) < level {
      ReadsInt(e, ws, i, f, level - 1);
      StopsInt(level, e, ws, i, IntTree(f), i + |Written(f)|);
    } else {
      var k, n := Parts(ws, i, f);
      StopsAt(f.op);
      if level == 5 {
        ReadsStr(e, ws, i, f.l, 4);
        ReadsStr(e, ws, n, f.r, 4);
        OperMatch(e, ws, i, f, k, i + |Written(f)|);
      } else {
        ReadsInt(e, ws, i, f.l, level - 1);
        ReadsInt(e, ws, n, f.r, level);
        OperInt(e, ws, i, f, k, i + |Written(f)|);
      }
    }
  }

  /** The words that stand for numbers are not changed by file name expansion. */
  ghost predicate PlainNumbers(e: Env) {
    forall n: Int32 :: e.glob(Putn(n)) == Some(Putn(n))
  }

  lemma PutnOnce(a: Int32, b: Int32)
    ensures Putn(a) == Putn(b) <==> a == b
  {
    PutnEgetn(a);
    PutnEgetn(b);
  }

  function Spelt(v: Option<Int32>): Option<Word> {
    if v.None? then None else Some(Putn(v.value))
  }

  /** What the operations make of numbers. */
  lemma Computed(e: Env, op: Oper, a: Int32, b: Int32, noglob: bool)
    requires 1 <= Level(op) <= 4
    ensures var t := Between(op, Leaf(Putn(a)), Leaf(Putn(b))); var m := Mode(false, noglob);
      Spelt(Applied(e, op, a, b)) ==
        if t.Rel? then DoRel(t.op, m, Putn(a), Putn(b)) else if t.Shift? then DoShift(e, t.left, Putn(a), Putn(b))
        else if t.Sum? then DoSum(t.c, m, Putn(a), Putn(b)) else DoTerm(t.c, m, Putn(a), Putn(b))
  {
    PutnEgetn(a);
    PutnEgetn(b);
    hide Putn, Egetn, Wrap, Quotient;
  }

  lemma {:induction false} ValueOfStr(e: Env, f: Formula, noglob: bool)
    requires Formed(f) && Rank(f) < 5 && PlainNumbers(e)
    ensures ValueStr(e, StrTree(f), noglob) == Spelt(Meaning(e, f))
    decreases f, 0
  {
    hide Putn, Applied, DoRel, DoShift, DoSum, DoTerm;
    match f
    case Num(n) =>
    case Zero(a) =>
      ValueOfStr(e, a, noglob);
      Unary(Meaning(e, a));
    case Compl(a) =>
      ValueOfStr(e, a, noglob);
      Unary(Meaning(e, a));
    case Group(a) =>
      ValueOfInt(e, a, noglob);
    case Bin(op, l, r) =>
      ValueOfStr(e, l, noglob);
      ValueOfStr(e, r, noglob);
      ValueOfBin(e, f, noglob);
  }

  lemma ValueOfBin(e: Env, f: Formula, noglob: bool)
    requires f.Bin? && Rank(f) < 5 && ValueStr(e, StrTree(f.l), noglob) == Spelt(Meaning(e, f.l))
    requires ValueStr(e, StrTree(f.r), noglob) == Spelt(Meaning(e, f.r))
    ensures ValueStr(e, StrTree(f), noglob) == Spelt(Meaning(e, f))
  {
    hide Putn, Applied, DoRel, DoShift, DoSum, DoTerm, Sign;
    var v, w := Meaning(e, f.l), Meaning(e, f.r);
    if v.Some? && w.Some? {
      Computed(e, f.op, v.value, w.value, noglob);
    }
  }

  lemma Unary(v: Option<Int32>)
    ensures v.Some? ==> DoNot(Putn(v.value)) == Some(Putn(Truth(v.value == 0)))
    ensures v.Some? ==> DoCompl(Putn(v.value)) == Some(Putn(-1 - v.value))
  {
    if v.Some? {
      PutnEgetn(v.value);
    }
  }

  lemma ValueOfMatch(e: Env, f: Formula, noglob: bool)
    requires f.Bin? && Rank(f) == 5 && ValueStr(e, StrTree(f.l), noglob) == Spelt(Meaning(e, f.l))
    requires ValueStr(e, StrTree(f.r), noglob) == Spelt(Meaning(e, f.r))
    ensures ValueInt(e, IntTree(f), noglob) == Meaning(e, f)
  {
    hide ValueStr, Putn, StrTree;
    var v, w := Meaning(e, f.l), Meaning(e, f.r);
    if v.Some? && w.Some? {
      PutnOnce(v.value, w.value);
    }
  }

  lemma {:induction false} ValueOfInt(e: Env, f: Formula, noglob: bool)
    requires Formed(f) && PlainNumbers(e)
    ensures ValueInt(e, IntTree(f), noglob) == Meaning(e, f)
    decreases f, 1
  {
    hide Putn, Egetn;
    if Rank(f) < 5 {
      ValueOfStr(e, f, noglob);
      if Meaning(e, f).Some? {
        PutnEgetn(Meaning(e, f).value);
      }
    } else if Rank(f) == 5 {
      ValueOfStr(e, f.l, noglob);
      ValueOfStr(e, f.r, noglob);
      ValueOfMatch(e, f, noglob);
    } else {
      ValueOfInt(e, f.l, noglob);
      ValueOfInt(e, f.r, if f.op == OrOr || f.op == AndAnd then false else noglob);
    }
  }

  /** An operand that is a formula can always be skipped. */
  lemma {:induction false} SkipsStrs(e: Env, f: Formula, noglob: bool)
    requires Formed(f) && Rank(f) < 5 && PlainNumbers(e)
    ensures SkipsStr(e, StrTree(f), noglob) && SpareStr(e, StrTree(f), noglob) && SpareNumber(e, StrTree(f), noglob)
    decreases f, 0
  {
    hide Putn, Egetn;
    match f
    case Num(n) =>
      PutnEgetn(n);
    case Zero(a) => SkipsStrs(e, a, noglob);
    case Compl(a) => SkipsStrs(e, a, noglob);
    case Group(a) => SkipsInts(e, a, noglob);
    case Bin(op, l, r) =>
      SkipsStrs(e, l, noglob);
      SkipsStrs(e, r, noglob);
  }

  lemma {:induction false} SkipsInts(e: Env, f: Formula, noglob: bool)
    requires Formed(f) && PlainNumbers(e)
    ensures SkipsInt(e, IntTree(f), noglob) && SpareInt(e, IntTree(f), noglob)
    decreases f, 1
  {
    if Rank(f) < 5 {
      SkipsStrs(e, f, noglob);
    } else if Rank(f) == 5 {
      SkipsStrs(e, f.l, noglob);
      SkipsStrs(e, f.r, noglob);
    } else {
      SkipsInts(e, f.l, noglob);
      SkipsInts(e, f.r, if f.op == OrOr || f.op == AndAnd then false else noglob);
    }
  }

  /** The evaluator gives the value of every formula, or fails if it divides by zero, and stops behind it. */
  lemma FormulaMeans(e: Env, f: Formula)
    requires Formed(f) && PlainNumbers(e)
    ensures Exp0(e, Written(f), 0, Mode(false, false)) == Of(Meaning(e, f), |Written(f)|)
  {
    hide Exp0, Meaning, Written, Formed, PlainNumbers, Parse0, ValueInt, SkipsInt, IntTree;
    var ws := Written(f);
    assert ws[0..|ws|] == ws;
    StopsClosing(10);
    RankBound(f);
    ReadsInt(e, ws, 0, f, 10);
    WholeLevel(e, ws, 0);
    ValueOfInt(e, f, false);
    SkipsInts(e, f, false);
    ExprMeans(e, ws, 0);
  }

  lemma RankBound(f: Formula)
    ensures Rank(f) <= 10
  {
  }

  /** Two numbers with an operator between them that is one word. */
  lemma TwoNumbers(e: Env, op: Oper, a: Int32, b: Int32)
    requires PlainNumbers(e)
    ensures |Sign(op)| == 1 ==>
      Exp0(e, [Putn(a), Sign(op)[0], Putn(b)], 0, Mode(false, false)) == Of(Meaning(e, Bin(op, Num(a), Num(b))), 3)
    ensures |Sign(op)| == 2 ==>
      Exp0(e, [Putn(a), Sign(op)[0], Sign(op)[1], Putn(b)], 0, Mode(false, false)) ==
      Of(Meaning(e, Bin(op, Num(a), Num(b))), 4)
  {
    hide Putn, Exp0, PlainNumbers, Meaning;
    var f := Bin(op, Num(a), Num(b));
    FormulaMeans(e, f);
    assert Written(f) == [Putn(a)] + Sign(op) + [Putn(b)];
    assert |Sign(op)| == 1 ==> Written(f) == [Putn(a), Sign(op)[0], Putn(b)];
    assert |Sign(op)| == 2 ==> Written(f) == [Putn(a), Sign(op)[0], Sign(op)[1], Putn(b)];
  }

  /** The operators `+`, `-` and `*` between two numbers. */
  lemma Arithmetic(e: Env, a: Int32, b: Int32)
    requires PlainNumbers(e)
    ensures Exp0(e, [Putn(a), [43], Putn(b)], 0, Mode(false, false)) == Value(Wrap(a + b), 3)
    ensures Exp0(e, [Putn(a), [45], Putn(b)], 0, Mode(false, false)) == Value(Wrap(a - b), 3)
    ensures Exp0(e, [Putn(a), [42], Putn(b)], 0, Mode(false, false)) == Value(Wrap(a * b), 3)
  {
    hide Putn, Exp0, PlainNumbers, Wrap;
    TwoNumbers(e, Plus, a, b);
    TwoNumbers(e, Minus, a, b);
    TwoNumbers(e, Times, a, b);
  }

  /** The operators `/` and `%`, which fail if b is zero. */
  lemma Division(e: Env, a: Int32, b: Int32)
    requires PlainNumbers(e)
    ensures Exp0(e, [Putn(a), [47], Putn(b)], 0, Mode(false, false)) ==
      if b == 0 then Error else Value(Wrap(Quotient(a, b)), 3)
    ensures Exp0(e, [Putn(a), [37], Putn(b)], 0, Mode(false, false)) ==
      if b == 0 then Error else Value(Wrap(a - b * Quotient(a, b)), 3)
  {
    hide Putn, Exp0, PlainNumbers, Wrap, Quotient;
    TwoNumbers(e, Over, a, b);
    TwoNumbers(e, Modulo, a, b);
  }

  /** The operators `<`, `>`, `<` `=`, `>` `=`, `==` and `!=` between them. */
  lemma Comparisons(e: Env, a: Int32, b: Int32)
    requires PlainNumbers(e)
    ensures Exp0(e, [Putn(a), [60], Putn(b)], 0, Mode(false, false)) == Value(if a < b then 1 else 0, 3)
    ensures Exp0(e, [Putn(a), [62], Putn(b)], 0, Mode(false, false)) == Value(if a > b then 1 else 0, 3)
    ensures Exp0(e, [Putn(a), [60], [61], Putn(b)], 0, Mode(false, false)) == Value(if a <= b then 1 else 0, 4)
    ensures Exp0(e, [Putn(a), [62], [61], Putn(b)], 0, Mode(false, false)) == Value(if a >= b then 1 else 0, 4)
    ensures Exp0(e, [Putn(a), [61, 61], Putn(b)], 0, Mode(false, false)) == Value(if a == b then 1 else 0, 3)
    ensures Exp0(e, [Putn(a), [33, 61], Putn(b)], 0, Mode(false, false)) == Value(if a != b then 1 else 0, 3)
  {
    hide Putn, Exp0, PlainNumbers;
    TwoNumbers(e, Lt, a, b);
    TwoNumbers(e, Gt, a, b);
    TwoNumbers(e, Le, a, b);
    TwoNumbers(e, Ge, a, b);
    TwoNumbers(e, Eq, a, b);
    TwoNumbers(e, Ne, a, b);
  }

  /** The operators `||`, `&&`, `|`, `^`, `&`, `<<` and `>>` between them. */
  lemma Logic(e: Env, a: Int32, b: Int32)
    requires PlainNumbers(e)
    ensures Exp0(e, [Putn(a), [124, 124], Putn(b)], 0, Mode(false, false)) ==
      Value(if a != 0 || b != 0 then 1 else 0, 3)
    ensures Exp0(e, [Putn(a), [38, 38], Putn(b)], 0, Mode(false, false)) == Value(if a != 0 && b != 0 then 1 else 0, 3)
    ensures Exp0(e, [Putn(a), [124], Putn(b)], 0, Mode(false, false)) == Value(e.bits([124], a, b), 3)
    ensures Exp0(e, [Putn(a), [94], Putn(b)], 0, Mode(false, false)) == Value(e.bits([94], a, b), 3)
    ensures Exp0(e, [Putn(a), [38], Putn(b)], 0, Mode(false, false)) == Value(e.bits([38], a, b), 3)
    ensures Exp0(e, [Putn(a), [60, 60], Putn(b)], 0, Mode(false, false)) == Value(e.shift(true, a, b), 3)
    ensures Exp0(e, [Putn(a), [62, 62], Putn(b)], 0, Mode(false, false)) == Value(e.shift(false, a, b), 3)
  {
    hide Putn, Exp0, PlainNumbers;
    TwoNumbers(e, OrOr, a, b);
    TwoNumbers(e, AndAnd, a, b);
    TwoNumbers(e, BitOr, a, b);
    TwoNumbers(e, BitXor, a, b);
    TwoNumbers(e, BitAnd, a, b);
    TwoNumbers(e, Shl, a, b);
    TwoNumbers(e, Shr, a, b);
  }

  /** `!` and `~` in front of a number. */
  lemma Negation(e: Env, a: Int32)
    requires PlainNumbers(e)
    ensures Exp0(e, [[33], Putn(a)], 0, Mode(false, false)) == Value(if a == 0 then 1 else 0, 2)
    ensures Exp0(e, [[126], Putn(a)], 0, Mode(false, false)) == Value(-1 - a, 2)
  {
    hide Putn, Exp0, PlainNumbers;
    FormulaMeans(e, Zero(Num(a)));
    assert Written(Zero(Num(a))) == [[33], Putn(a)];
    FormulaMeans(e, Formula.Compl(Num(a)));
    assert Written(Formula.Compl(Num(a))) == [[126], Putn(a)];
  }

  /** Operators of one level group to the right, and `*` binds before `+`. */
  lemma Grouping(e: Env, a: Int32, b: Int32, c: Int32)
    requires PlainNumbers(e)
    ensures Exp0(e, [Putn(a), [45], Putn(b), [45], Putn(c)], 0, Mode(false, false)) == Value(Wrap(a - Wrap(b - c)), 5)
    ensures Exp0(e, [Putn(a), [43], Putn(b), [42], Putn(c)], 0, Mode(false, false)) == Value(Wrap(a + Wrap(b * c)), 5)
    ensures Exp0(e, [Putn(a), [42], Putn(b), [43], Putn(c)], 0, Mode(false, false)) == Value(Wrap(Wrap(a * b) + c), 5)
  {
    hide Putn, Exp0, PlainNumbers, Wrap;
    RightHand(e, Minus, Minus, a, b, c);
    RightHand(e, Plus, Times, a, b, c);
    LeftHand(e, Times, Plus, a, b, c);
  }

  lemma BinWritten(f: Formula)
    requires f.Bin? && Level(f.op) <= 2
    ensures Written(f) == Written(f.l) + [Sign(f.op)[0]] + Written(f.r)
  {
    assert Sign(f.op) == [Sign(f.op)[0]];
  }

  lemma Pair(e: Env, op: Oper, a: Int32, b: Int32)
    ensures var f := Bin(op, Num(a), Num(b));
      Formed(f) && Rank(f) == Level(op) && (op != OrOr && op != AndAnd ==> Meaning(e, f) == Applied(e, op, a, b))
  {
  }

  lemma RightHand(e: Env, op: Oper, op': Oper, a: Int32, b: Int32, c: Int32)
    requires PlainNumbers(e) && Level(op') <= Level(op) <= 2
    ensures var v := Applied(e, op', b, c);
      Exp0(e, [Putn(a), Sign(op)[0], Putn(b), Sign(op')[0], Putn(c)], 0, Mode(false, false)) ==
      if v.None? then Error else Of(Applied(e, op, a, v.value), 5)
  {
    var f := Bin(op, Num(a), Bin(op', Num(b), Num(c)));
    RightMeans(e, op, op', a, b, c);
    hide Putn, Exp0, PlainNumbers, Applied, Sign, Formed, Meaning, Written;
    FormulaMeans(e, f);
  }

  lemma RightMeans(e: Env, op: Oper, op': Oper, a: Int32, b: Int32, c: Int32)
    requires Level(op') <= Level(op) <= 2
    ensures var f, v := Bin(op, Num(a), Bin(op', Num(b), Num(c))), Applied(e, op', b, c);
      && Formed(f) && Meaning(e, f) == (if v.None? then None else Applied(e, op, a, v.value))
      && Written(f) == [Putn(a), Sign(op)[0], Putn(b), Sign(op')[0], Putn(c)]
  {
    var g := Bin(op', Num(b), Num(c));
    var f := Bin(op, Num(a), g);
    Pair(e, op', b, c);
    assert Formed(f);
    hide Putn, Applied, Sign, Formed;
    BinWritten(f);
    BinWritten(g);
  }

  lemma LeftHand(e: Env, op: Oper, op': Oper, a: Int32, b: Int32, c: Int32)
    requires PlainNumbers(e) && Level(op) < Level(op') <= 2
    ensures var v := Applied(e, op, a, b);
      Exp0(e, [Putn(a), Sign(op)[0], Putn(b), Sign(op')[0], Putn(c)], 0, Mode(false, false)) ==
      if v.None? then Error else Of(Applied(e, op', v.value, c), 5)
  {
    var g := Bin(op, Num(a), Num(b));
    var f := Bin(op', g, Num(c));
    Pair(e, op, a, b);
    assert Formed(f);
    hide Putn, Exp0, PlainNumbers, Applied, Sign, Formed;
    BinWritten(f);
    BinWritten(g);
    FormulaMeans(e, f);
    assert Written(f) == [Putn(a), Sign(op)[0], Putn(b), Sign(op')[0], Putn(c)];
  }

  /** A word that is taken as it is: no operator, no sign of a file inquiry, no brace. */
  predicate PlainWord(w: Word) {
    Isa(Some(w), ANYOP) == 0 && !IsInquiry(w) && w != [33] && w != [126] && w != [40] && w != [123]
  }

  /** The operators `=~` and `!~` match a word against a pattern, which is not expanded. */
  lemma Matching(e: Env, w: Word, p: Word)
    requires PlainWord(w) && PlainWord(p) && e.glob(w).Some?
    ensures var l := e.like(e.glob(w).value, p);
      && Exp0(e, [w, [61, 126], p], 0, Mode(false, false)) ==
           (if l.None? then Error else Value(if l.value then 1 else 0, 3))
      && Exp0(e, [w, [33, 126], p], 0, Mode(false, false)) ==
           (if l.None? then Error else Value(if l.value then 0 else 1, 3))
  {
    MatchReads(e, [w, [61, 126], p], w, 7, p);
    MatchReads(e, [w, [33, 126], p], w, 8, p);
    hide Exp0, Parse0;
    ExprMeans(e, [w, [61, 126], p], 0);
    ExprMeans(e, [w, [33, 126], p], 0);
  }

  lemma MatchReads(e: Env, ws: seq<Word>, w: Word, op: int, p: Word)
    requires PlainWord(w) && PlainWord(p)
    requires (ws == [w, [61, 126], p] && op == 7) || (ws == [w, [33, 126], p] && op == 8)
    ensures Parse0(e, ws, 0) == Parsed(Match(op, Leaf(w), Leaf(p)), 3)
  {
    assert Parse6(e, ws, 0) == Parsed(Leaf(w), 1) && Parse6(e, ws, 2) == Parsed(Leaf(p), 3);
    hide Parse6, PlainWord;
    assert Parse4(e, ws, 0) == Parsed(Leaf(w), 1) && Parse4(e, ws, 2) == Parsed(Leaf(p), 3);
    hide Parse4;
    assert Parse3(e, ws, 0) == Parsed(Leaf(w), 1) && Parse3(e, ws, 2) == Parsed(Leaf(p), 3);
    hide Parse3;
    var r := Parsed(Match(op, Leaf(w), Leaf(p)), 3);
    assert Parse2c(e, ws, 0) == r;
    hide Parse2c;
    assert Parse2a(e, ws, 0) == r;
    hide Parse2a;
    assert Parse1(e, ws, 0) == r;
  }

  /** `-` and a letter ask something about the file that is named: `r`, `w`, `x`, `e`, `o`, `z`, `f`, `d`, `l`, `p` or
      `s`. */
  lemma Inquiring(e: Env, c: int, name: Word)
    requires c in {114, 119, 120, 101, 111, 122, 102, 100, 108, 112, 115} && PlainWord(name)
    ensures Exp0(e, [[45, c], name], 0, Mode(false, false)) ==
      if e.glob(name).None? then Error else Value(if e.inquire(c, e.glob(name).value) then 1 else 0, 2)
  {
    var ws := [[45, c], name];
    assert Parse6(e, ws, 0) == Parsed(Inquiry(c, name), 2);
    hide Parse6;
    Climb(e, ws, 0);
    hide Parse1, Exp0;
    assert Parse0(e, ws, 0) == Parsed(Number(Inquiry(c, name)), 2);
    if e.glob(name).Some? {
      OneValue(e, Inquiry(c, name), e.inquire(c, e.glob(name).value));
    }
    ExprMeans(e, ws, 0);
    hide Parse0, Egetn, Putn;
  }

  /** A command in braces counts as one if it succeeds. */
  lemma Running(e: Env, cmd: seq<Word>)
    requires [125] !in cmd
    ensures Exp0(e, [[123]] + cmd + [[125]], 0, Mode(false, false)) == Value(if e.run(cmd) then 1 else 0, |cmd| + 2)
  {
    var ws := [[123]] + cmd + [[125]];
    RunsAll(e, cmd, ws);
    hide Parse6;
    Climb(e, ws, 0);
    hide Parse1, Exp0;
    assert Parse0(e, ws, 0) == Parsed(Number(Command(cmd)), |cmd| + 2);
    OneValue(e, Command(cmd), e.run(cmd));
    hide *;
    ExprMeans(e, ws, 0);
    assert Of(Some(if e.run(cmd) then 1 else 0), |cmd| + 2) == Value(if e.run(cmd) then 1 else 0, |cmd| + 2) by {
      OfSome<Int32>(if e.run(cmd) then 1 else 0, |cmd| + 2);
    }
  }

  lemma OfSome<T>(v: T, n: nat)
    ensures Of(Some(v), n) == Value(v, n)
  {
  }

  /** The value of a tree that is read from `{` or from a file inquiry. */
  lemma OneValue(e: Env, t: StrExpr, b: bool)
    requires (t.Command? && b == e.run(t.ws))
          || (t.Inquiry? && e.glob(t.name).Some? && b == e.inquire(t.c, e.glob(t.name).value))
    ensures SkipsInt(e, Number(t), false) && ValueInt(e, Number(t), false) == Some(if b then 1 else 0)
  {
    PutnEgetn(0);
    PutnEgetn(1);
    hide Egetn, Putn;
  }

  lemma RunsAll(e: Env, cmd: seq<Word>, ws: seq<Word>)
    requires [125] !in cmd && ws == [[123]] + cmd + [[125]]
    ensures Parse6(e, ws, 0) == Parsed(Command(cmd), |cmd| + 2) && Tok(ws, |cmd| + 2) == None
  {
    EndsBehind(ws, 1, |cmd| + 1);
    assert ws[1..|cmd| + 1] == cmd;
  }

  lemma {:induction false} EndsBehind(ws: seq<Word>, i: nat, k: nat)
    requires i <= k < |ws| && ws[k] == [125] && forall p: nat :: i <= p < k ==> ws[p] != [125]
    ensures CommandEnd(ws, i) == Some(k + 1)
    decreases k - i
  {
    if i < k {
      EndsBehind(ws, i + 1, k);
    }
  }
}
