/** The expressions of csh as trees: how words read as a tree, and what a tree evaluates to (bin/csh/exp.c). */
module ExprSpec {
  import opened Basics
  import opened ExprNumber

  const OR2: Word := [124, 124]
  const AND2: Word := [38, 38]
  const OR: Word := [124]
  const CARET: Word := [94]
  const AND: Word := [38]
  const EQUAL: Word := [61]
  const BANG: Word := [33]
  const TILDE: Word := [126]
  const LPAREN: Word := [40]
  const RPAREN := 41
  const LBRACE: Word := [123]
  const RBRACE: Word := [125]
  const LESS := 60
  const GREATER := 62
  const STAR := 42
  const SLASH := 47
  const PERCENT := 37

  /** Kinds of operators. */
  datatype Kinds = Kinds(add: bool, mul: bool, eq: bool, rel: bool, rest: bool)

  const ADDOP := Kinds(true, false, false, false, false)
  const MULOP := Kinds(false, true, false, false, false)
  const EQOP := Kinds(false, false, true, false, false)
  const RELOP := Kinds(false, false, false, true, false)
  const ANYOP := Kinds(true, true, true, true, true)

  const EQEQ := 1
  const GTR := 2
  const LSS := 4
  const NOTEQ := 6
  const EQMATCH := 7
  const NOTEQMATCH := 8

  /** What expressions ask of the world around them: file name expansion, which may fail; whether a file is
      there, and what is asked about it; whether a command succeeds; pattern matching, which may fail; and the
      operations of the machine on bits. */
  datatype Env = Env(glob: Word -> Option<Word>, exist: Word -> bool, inquire: (int, Word) -> bool,
                     run: seq<Word> -> bool, like: (Word, Word) -> Option<bool>,
                     bits: (Word, Int32, Int32) -> Int32, shift: (bool, Int32, Int32) -> Int32)

  predicate IsSign(c: int) {
    c == PLUS || c == MINUS
  }

  predicate IsFactor(c: int) {
    c == STAR || c == SLASH || c == PERCENT
  }

  predicate IsSingle(c: int) {
    c == 40 || c == 41 || c == 33 || c == 126 || c == 94 || c == 34
  }

  predicate IsDouble(c: int, d: int) {
    (c == 124 && d == 38) || (c == d && (c == LESS || c == GREATER))
  }

  function Equality(c: int, d: int): int {
    if c == 61 && d == 61 then EQEQ else if c == 61 && d == 126 then EQMATCH
    else if c == 33 && d == 61 then NOTEQ else if c == 33 && d == 126 then NOTEQMATCH else 0
  }

  /** `isa`: whether a word, or the end of the words, is one of these operators, and which. */
  function Isa(cp: Option<Word>, what: Kinds): int {
    if cp.None? then if what.rest then 1 else 0
    else
      var w := cp.value;
      var c, d := At(w, 0), At(w, 1);
      var two := d != 0 && At(w, 2) == 0;
      if d == 0 && ((what.add && IsSign(c)) || (what.mul && IsFactor(c)) || (what.rest && IsSingle(c))) then 1
      else if two && what.rest && IsDouble(c, d) then 1
      else if two && what.eq && Equality(c, d) != 0 then Equality(c, d)
      else if what.rel && c == LESS then LSS
      else if what.rel && c == GREATER then GTR
      else 0
  }

  /** The end of the words is no operator of these kinds. */
  function Op(cp: Option<Word>, what: Kinds): (op: int)
    requires !what.rest
    ensures cp.None? ==> op == 0
  {
    Isa(cp, what)
  }

  function Tok(ws: seq<Word>, i: nat): Option<Word> {
    if i < |ws| then Some(ws[i]) else None
  }

  predicate IsShift(cp: Option<Word>) {
    cp.Some? && (At(cp.value, 0) == LESS || At(cp.value, 0) == GREATER) && At(cp.value, 0) == At(cp.value, 1)
  }

  /** The letters of file inquiries. */
  predicate IsInquiry(w: Word) {
    At(w, 0) == MINUS && At(w, 1) in {101, 114, 119, 120, 102, 100, 122, 111, 112, 108, 115}
  }

  /** Trees whose value is a number, and trees whose value is a word. */
  datatype IntExpr = Or(a: IntExpr, b: IntExpr) | And(a: IntExpr, b: IntExpr) | Bit(op: Word, a: IntExpr, b: IntExpr)
                   | Match(eqop: int, s: StrExpr, t: StrExpr) | Number(s: StrExpr)
  datatype StrExpr = Rel(op: int, s: StrExpr, t: StrExpr) | Shift(left: bool, s: StrExpr, t: StrExpr)
                   | Sum(c: int, s: StrExpr, t: StrExpr) | Term(c: int, s: StrExpr, t: StrExpr)
                   | Not(s: StrExpr) | Compl(s: StrExpr) | Paren(n: IntExpr) | Command(ws: seq<Word>)
                   | Nothing | Inquiry(c: int, name: Word) | Leaf(w: Word)

  /** A tree, and the place behind the words that it is read from. */
  datatype Parsed<+T> = Failed | Parsed(tree: T, pos: nat)

  function Parse0(e: Env, ws: seq<Word>, i: nat): (r: Parsed<IntExpr>)
    requires i <= |ws|
    ensures r.Parsed? ==> i <= r.pos <= |ws|
    decreases |ws| - i, 10
  {
    var p := Parse1(e, ws, i);
    if p.Failed? || Tok(ws, p.pos) != Some(OR2) then p
    else
      var q := Parse0(e, ws, p.pos + 1);
      if q.Failed? then q else Parsed(Or(p.tree, q.tree), q.pos)
  }

  function Parse1(e: Env, ws: seq<Word>, i: nat): (r: Parsed<IntExpr>)
    requires i <= |ws|
    ensures r.Parsed? ==> i <= r.pos <= |ws|
    decreases |ws| - i, 9
  {
    var p := Parse2(e, ws, i);
    if p.Failed? || Tok(ws, p.pos) != Some(AND2) then p
    else
      var q := Parse1(e, ws, p.pos + 1);
      if q.Failed? then q else Parsed(And(p.tree, q.tree), q.pos)
  }

  function Parse2(e: Env, ws: seq<Word>, i: nat): (r: Parsed<IntExpr>)
    requires i <= |ws|
    ensures r.Parsed? ==> i <= r.pos <= |ws|
    decreases |ws| - i, 8
  {
    var p := Parse2a(e, ws, i);
    if p.Failed? || Tok(ws, p.pos) != Some(OR) then p
    else
      var q := Parse2(e, ws, p.pos + 1);
      if q.Failed? then q else Parsed(Bit(OR, p.tree, q.tree), q.pos)
  }

  function Parse2a(e: Env, ws: seq<Word>, i: nat): (r: Parsed<IntExpr>)
    requires i <= |ws|
    ensures r.Parsed? ==> i <= r.pos <= |ws|
    decreases |ws| - i, 7
  {
    var p := Parse2b(e, ws, i);
    if p.Failed? || Tok(ws, p.pos) != Some(CARET) then p
    else
      var q := Parse2a(e, ws, p.pos + 1);
      if q.Failed? then q else Parsed(Bit(CARET, p.tree, q.tree), q.pos)
  }

  function Parse2b(e: Env, ws: seq<Word>, i: nat): (r: Parsed<IntExpr>)
    requires i <= |ws|
    ensures r.Parsed? ==> i <= r.pos <= |ws|
    decreases |ws| - i, 6
  {
    var p := Parse2c(e, ws, i);
    if p.Failed? || Tok(ws, p.pos) != Some(AND) then p
    else
      var q := Parse2b(e, ws, p.pos + 1);
      if q.Failed? then q else Parsed(Bit(AND, p.tree, q.tree), q.pos)
  }

  function Parse2c(e: Env, ws: seq<Word>, i: nat): (r: Parsed<IntExpr>)
    requires i <= |ws|
    ensures r.Parsed? ==> i <= r.pos <= |ws|
    decreases |ws| - i, 5
  {
    var p := Parse3(e, ws, i);
    if p.Failed? then Failed
    else
      var op := Op(Tok(ws, p.pos), EQOP);
      if op == 0 then Parsed(Number(p.tree), p.pos)
      else
        var q := Parse3(e, ws, p.pos + 1);
        if q.Failed? then Failed else Parsed(Match(op, p.tree, q.tree), q.pos)
  }

  function Parse3(e: Env, ws: seq<Word>, i: nat): (r: Parsed<StrExpr>)
    requires i <= |ws|
    ensures r.Parsed? ==> i <= r.pos <= |ws|
    decreases |ws| - i, 4
  {
    var p := Parse3a(e, ws, i);
    if p.Failed? then p
    else
      var op := Op(Tok(ws, p.pos), RELOP);
      if op == 0 then p
      else
        var equal := Tok(ws, p.pos + 1) == Some(EQUAL);
        var q := Parse3(e, ws, if equal then p.pos + 2 else p.pos + 1);
        if q.Failed? then q else Parsed(Rel(if equal then op + 1 else op, p.tree, q.tree), q.pos)
  }

  function Parse3a(e: Env, ws: seq<Word>, i: nat): (r: Parsed<StrExpr>)
    requires i <= |ws|
    ensures r.Parsed? ==> i <= r.pos <= |ws|
    decreases |ws| - i, 3
  {
    var p := Parse4(e, ws, i);
    if p.Failed? || !IsShift(Tok(ws, p.pos)) then p
    else
      var q := Parse3a(e, ws, p.pos + 1);
      if q.Failed? then q else Parsed(Shift(At(ws[p.pos], 0) == LESS, p.tree, q.tree), q.pos)
  }

  function Parse4(e: Env, ws: seq<Word>, i: nat): (r: Parsed<StrExpr>)
    requires i <= |ws|
    ensures r.Parsed? ==> i <= r.pos <= |ws|
    decreases |ws| - i, 2
  {
    var p := Parse5(e, ws, i);
    if p.Failed? || Op(Tok(ws, p.pos), ADDOP) == 0 then p
    else
      var q := Parse4(e, ws, p.pos + 1);
      if q.Failed? then q else Parsed(Sum(At(ws[p.pos], 0), p.tree, q.tree), q.pos)
  }

  function Parse5(e: Env, ws: seq<Word>, i: nat): (r: Parsed<StrExpr>)
    requires i <= |ws|
    ensures r.Parsed? ==> i <= r.pos <= |ws|
    decreases |ws| - i, 1
  {
    var p := Parse6(e, ws, i);
    if p.Failed? || Op(Tok(ws, p.pos), MULOP) == 0 then p
    else
      var q := Parse5(e, ws, p.pos + 1);
      if q.Failed? then q else Parsed(Term(At(ws[p.pos], 0), p.tree, q.tree), q.pos)
  }

  /** The place behind the brace that ends a command. */
  function CommandEnd(ws: seq<Word>, i: nat): (r: Option<nat>)
    requires i <= |ws|
    ensures r.Some? ==> i < r.value <= |ws|
    decreases |ws| - i
  {
    if i == |ws| then None else if ws[i] == RBRACE then Some(i + 1) else CommandEnd(ws, i + 1)
  }

  /** An operator in the place of a file name, which is not a file. */
  predicate NoName(e: Env, cp: Option<Word>) {
    cp.None? || (Isa(cp, ANYOP) != 0 && !e.exist(cp.value))
  }

  function Parse6(e: Env, ws: seq<Word>, i: nat): (r: Parsed<StrExpr>)
    requires i <= |ws|
    ensures r.Parsed? ==> i <= r.pos <= |ws|
    decreases |ws| - i, 0
  {
    if i == |ws| then Failed
    else
      var w := ws[i];
      if w == BANG then
        var p := Parse6(e, ws, i + 1);
        if p.Failed? then p else Parsed(Not(p.tree), p.pos)
      else if w == TILDE then
        var p := Parse6(e, ws, i + 1);
        if p.Failed? then p else Parsed(Compl(p.tree), p.pos)
      else if w == LPAREN then
        var p := Parse0(e, ws, i + 1);
        if p.Failed? || p.pos == |ws| || At(ws[p.pos], 0) != RPAREN then Failed else Parsed(Paren(p.tree), p.pos + 1)
      else if w == LBRACE then
        var j := CommandEnd(ws, i + 1);
        if j.None? then Failed else Parsed(Command(ws[i + 1..j.value - 1]), j.value)
      else if Isa(Some(w), ANYOP) != 0 then Parsed(Nothing, i)
      else if IsInquiry(w) then
        if At(w, 2) != 0 || NoName(e, Tok(ws, i + 1)) then Failed else Parsed(Inquiry(w[1], ws[i + 1]), i + 2)
      else Parsed(Leaf(w), i + 1)
  }

  /** How an expression is evaluated: only for its effects on the place, and without file name expansion. */
  datatype Mode = Mode(ignore: bool, noglob: bool)

  function Bool(b: bool): Int32 {
    if b then 1 else 0
  }

  /** Division towards zero. */
  function Quotient(a: int, b: int): int
    requires b != 0
  {
    var m, n := if a < 0 then -a else a, if b < 0 then -b else b;
    if (a < 0) == (b < 0) then m / n else -(m / n)
  }

  function Compare(e: Env, op: int, v: Word, w: Word): Option<Int32> {
    if op == EQEQ then Some(Bool(v == w))
    else if op == NOTEQ then Some(Bool(v != w))
    else
      var l := e.like(v, w);
      if l.None? then None else Some(Bool(l.value == (op == EQMATCH)))
  }

  function Relate(op: int, a: int, b: int): Int32 {
    if op == GTR then Bool(a > b) else if op == GTR + 1 then Bool(a >= b)
    else if op == LSS then Bool(a < b) else Bool(a <= b)
  }

  function Multiply(c: int, a: int, b: int): Option<Int32> {
    if c == STAR then Some(Wrap(a * b))
    else if b == 0 then None
    else if c == SLASH then Some(Wrap(Quotient(a, b)))
    else Some(Wrap(a - b * Quotient(a, b)))
  }

  /** Two numbers, if both words are numbers. */
  function Both(v: Word, w: Word): Option<(Int32, Int32)> {
    var a, b := Egetn(v), Egetn(w);
    if a.None? || b.None? then None else Some((a.value, b.value))
  }

  /** The operations on words. When the value is to be ignored, most of them do not look at the words. */
  function DoMatch(e: Env, op: int, m: Mode, v: Word, w: Word): Option<Int32> {
    if m.ignore then Some(Wrap(op)) else Compare(e, op, v, w)
  }

  function DoRel(op: int, m: Mode, v: Word, w: Word): Option<Word> {
    if m.ignore then Some(Putn(Wrap(op)))
    else
      var ab := Both(v, w);
      if ab.None? then None else Some(Putn(Relate(op, ab.value.0, ab.value.1)))
  }

  function DoShift(e: Env, left: bool, v: Word, w: Word): Option<Word> {
    var ab := Both(v, w);
    if ab.None? then None else Some(Putn(e.shift(left, ab.value.0, ab.value.1)))
  }

  function DoSum(c: int, m: Mode, v: Word, w: Word): Option<Word> {
    if m.ignore then Some(Putn(0))
    else
      var ab := Both(v, w);
      if ab.None? then None
      else Some(Putn(Wrap(if c == PLUS then ab.value.0 + ab.value.1 else ab.value.0 - ab.value.1)))
  }

  function DoTerm(c: int, m: Mode, v: Word, w: Word): Option<Word> {
    if m.ignore then Some(Putn(0))
    else
      var ab := Both(v, w);
      if ab.None? then None
      else
        var r := Multiply(c, ab.value.0, ab.value.1);
        if r.None? then None else Some(Putn(r.value))
  }

  function DoNot(v: Word): Option<Word> {
    var n := Egetn(v);
    if n.None? then None else Some(Putn(Bool(n.value == 0)))
  }

  function DoCompl(v: Word): Option<Word> {
    var n := Egetn(v);
    if n.None? then None else Some(Putn(-1 - n.value))
  }

  function DoCommand(e: Env, m: Mode, ws: seq<Word>): Word {
    if m.ignore then [] else Putn(Bool(e.run(ws)))
  }

  function DoInquiry(e: Env, m: Mode, c: int, name: Word): Option<Word> {
    if m.ignore then Some([])
    else
      var f := e.glob(name);
      if f.None? then None else Some(Putn(Bool(e.inquire(c, f.value))))
  }

  function DoLeaf(e: Env, m: Mode, w: Word): Option<Word> {
    if m.noglob then Some(w) else e.glob(w)
  }

  /** How the second word of a match is evaluated. */
  function SecondMode(op: int, m: Mode): Mode {
    if op == EQMATCH || op == NOTEQMATCH then m.(noglob := true) else m
  }

  function EvalInt(e: Env, t: IntExpr, m: Mode): Option<Int32>
    decreases t
  {
    match t
    case Or(a, b) =>
      var p := EvalInt(e, a, m);
      if p.None? then None
      else
        var q := EvalInt(e, b, Mode(m.ignore || p.value != 0, false));
        if q.None? then None else Some(Bool(p.value != 0 || q.value != 0))
    case And(a, b) =>
      var p := EvalInt(e, a, m);
      if p.None? then None
      else
        var q := EvalInt(e, b, Mode(m.ignore || p.value == 0, false));
        if q.None? then None else Some(Bool(p.value != 0 && q.value != 0))
    case Bit(op, a, b) =>
      var p, q := EvalInt(e, a, m), EvalInt(e, b, m);
      if p.None? || q.None? then None else Some(e.bits(op, p.value, q.value))
    case Match(op, s, u) =>
      var p, q := EvalStr(e, s, m), EvalStr(e, u, SecondMode(op, m));
      if p.None? || q.None? then None else DoMatch(e, op, m, p.value, q.value)
    case Number(s) =>
      var p := EvalStr(e, s, m);
      if p.None? then None else Egetn(p.value)
  }

  function EvalStr(e: Env, t: StrExpr, m: Mode): Option<Word>
    decreases t
  {
    match t
    case Rel(op, s, u) =>
      var p, q := EvalStr(e, s, m), EvalStr(e, u, m);
      if p.None? || q.None? then None else DoRel(op, m, p.value, q.value)
    case Shift(left, s, u) =>
      var p, q := EvalStr(e, s, m), EvalStr(e, u, m);
      if p.None? || q.None? then None else DoShift(e, left, p.value, q.value)
    case Sum(c, s, u) =>
      var p, q := EvalStr(e, s, m), EvalStr(e, u, m);
      if p.None? || q.None? then None else DoSum(c, m, p.value, q.value)
    case Term(c, s, u) =>
      var p, q := EvalStr(e, s, m), EvalStr(e, u, m);
      if p.None? || q.None? then None else DoTerm(c, m, p.value, q.value)
    case Not(s) =>
      var p := EvalStr(e, s, m);
      if p.None? then None else DoNot(p.value)
    case Compl(s) =>
      var p := EvalStr(e, s, m);
      if p.None? then None else DoCompl(p.value)
    case Paren(n) =>
      var p := EvalInt(e, n, m);
      if p.None? then None else Some(Putn(p.value))
    case Command(ws) => Some(DoCommand(e, m, ws))
    case Nothing => Some([])
    case Inquiry(c, name) => DoInquiry(e, m, c, name)
    case Leaf(w) => DoLeaf(e, m, w)
  }
}
