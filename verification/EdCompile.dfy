/** The compiler of ed's regular expressions (bin/ed/ed.c). */
module EdCompile {
  import opened Basics
  import opened EdPattern
  import opened EdRegexec
  import opened EdSyntax

  const ESIZE := 128

  datatype Outcome = Compiled | Failed | Unsupported

  function Size(items: seq<Item>): nat {
    if items == [] then 0 else Size(items[..|items| - 1]) + ItemSize(items[|items| - 1])
  }

  /** The bytes up to Size(items) are the code of the items. */
  ghost predicate Coded(code: seq<int>, items: seq<Item>) {
    items != [] ==>
      var n := |items| - 1;
      Coded(code, items[..n]) && EncodesItem(code, Size(items[..n]), items[n])
  }

  /** Code is not disturbed by what happens behind it. */
  lemma {:induction false} CodedKept(code: seq<int>, code': seq<int>, items: seq<Item>)
    requires Coded(code, items) && |code'| == |code|
    requires Size(items) <= |code| && code'[..Size(items)] == code[..Size(items)]
    ensures Coded(code', items)
  {
    if items != [] {
      var n := |items| - 1;
      var m := Size(items[..n]);
      assert code'[..m] == code'[..Size(items)][..m] == code[..m];
      CodedKept(code, code', items[..n]);
      ItemKept(code, code', m, items[n]);
    }
  }

  lemma ItemKept(code: seq<int>, code': seq<int>, ep: nat, it: Item)
    requires EncodesItem(code, ep, it) && |code'| == |code|
    requires code'[..ep + ItemSize(it)] == code[..ep + ItemSize(it)]
    ensures EncodesItem(code', ep, it)
  {
    var e := ep + ItemSize(it);
    assert forall i :: 0 <= i < e ==> code'[i] == code'[..e][i] == code[i];
    if it.atom.Class? {
      assert code'[ep + 2..e] == code'[..e][ep + 2..e] == code[ep + 2..e];
    }
  }

  lemma SizeMore(items: seq<Item>, it: Item)
    ensures Size(items + [it]) == Size(items) + ItemSize(it) && (items + [it])[..|items|] == items
  {
    assert (items + [it])[..|items|] == items;
  }

  lemma {:induction false} SizeConcat(a: seq<Item>, b: seq<Item>)
    ensures Size(a + b) == Size(a) + Size(b)
  {
    if b == [] {
      assert a + b == a;
    } else {
      var n := |b| - 1;
      assert a + b == (a + b[..n]) + [b[n]];
      SizeMore(a + b[..n], b[n]);
      SizeConcat(a, b[..n]);
    }
  }

  /** Code built from the front is code read from the front. */
  lemma {:induction false} CodedEncodes(code: seq<int>, a: seq<Item>, b: seq<Item>, dollar: bool)
    requires Coded(code, a + b) && EncodesEnd(code, Size(a + b), dollar)
    ensures Encodes(code, Size(a), Pattern(b, dollar))
    decreases |b|
  {
    if b == [] {
      assert a + b == a;
    } else {
      var c := a + [b[0]];
      assert c + b[1..] == a + b;
      SizeMore(a, b[0]);
      CodedEncodes(code, c, b[1..], dollar);
      CodedPrefix(code, c, b[1..]);
    }
  }

  lemma {:induction false} CodedPrefix(code: seq<int>, a: seq<Item>, b: seq<Item>)
    requires Coded(code, a + b)
    ensures Coded(code, a)
    decreases |b|
  {
    if b == [] {
      assert a + b == a;
    } else {
      var n := |b| - 1;
      assert (a + b)[..|a + b| - 1] == a + b[..n];
      CodedPrefix(code, a, b[..n]);
    }
  }

  /** The items with a star put to the last of them. */
  function Starred(items: seq<Item>): seq<Item> {
    if items == [] then [] else items[|items| - 1 := items[|items| - 1].(star := true)]
  }

  /** How a whole text reads, when `acc` has been read and the rest of it reads as r. */
  function Total(acc: seq<Item>, r: Reading): Reading {
    if r.Reading? then Reading(false, (if r.starred then Starred(acc) else acc) + r.items, r.dollar, r.end) else r
  }

  lemma TotalAtom(acc: seq<Item>, a: Atom, r: Reading)
    ensures Total(acc, Before(a, r)) == Total(acc + [Item(a, false)], r)
  {
    if r.Reading? {
      var l := acc + [Item(a, false)];
      assert Starred(l) == acc + [Item(a, true)];
      assert (if r.starred then Starred(l) else l) + r.items == acc + ([Item(a, r.starred)] + r.items);
    }
  }

  lemma TotalStar(acc: seq<Item>, r: Reading)
    requires r.Reading?
    ensures Total(acc, r.(starred := true)) == Total(Starred(acc), r)
  {
    assert Starred(Starred(acc)) == Starred(acc);
  }

  lemma StarredSize(acc: seq<Item>)
    requires acc != []
    ensures Size(Starred(acc)) == Size(acc) && Starred(acc)[..|acc| - 1] == acc[..|acc| - 1]
  {
  }

  /** A character instruction. */
  method EmitChr(expbuf: array<int>, ep: nat, c: int, ghost acc: seq<Item>)
    requires expbuf.Length == ESIZE + 4 && ep < ESIZE && Coded(expbuf[..], acc) && ep == Size(acc) && c != 0
    modifies expbuf
    ensures Coded(expbuf[..], acc + [Item(Chr(c), false)]) && Size(acc + [Item(Chr(c), false)]) == ep + 2
  {
    ghost var was := expbuf[..];
    expbuf[ep] := CCHR;
    expbuf[ep + 1] := c;
    SizeMore(acc, Item(Chr(c), false));
    assert expbuf[..][..ep] == was[..ep];
    CodedKept(was, expbuf[..], acc);
  }

  method EmitDot(expbuf: array<int>, ep: nat, ghost acc: seq<Item>)
    requires expbuf.Length == ESIZE + 4 && ep < ESIZE && Coded(expbuf[..], acc) && ep == Size(acc)
    modifies expbuf
    ensures Coded(expbuf[..], acc + [Item(Dot, false)]) && Size(acc + [Item(Dot, false)]) == ep + 1
  {
    ghost var was := expbuf[..];
    expbuf[ep] := CDOT;
    SizeMore(acc, Item(Dot, false));
    assert expbuf[..][..ep] == was[..ep];
    CodedKept(was, expbuf[..], acc);
  }

  lemma ItemStarred(code: seq<int>, ep: nat, it: Item)
    requires EncodesItem(code, ep, it)
    ensures code[ep] % 2 == StarBit(it)
    ensures EncodesItem(code[ep := code[ep] - StarBit(it) + STAR], ep, it.(star := true))
  {
    var code' := code[ep := code[ep] - StarBit(it) + STAR];
    if it.atom.Class? {
      var e := ep + ItemSize(it);
      assert code'[ep + 2..e] == code[ep + 2..e];
    }
  }

  /** `*lastep |= STAR`. */
  method EmitStar(expbuf: array<int>, lastep: nat, ghost acc: seq<Item>)
    requires expbuf.Length == ESIZE + 4 && Coded(expbuf[..], acc) && acc != []
    requires lastep == Size(acc[..|acc| - 1])
    modifies expbuf
    ensures Coded(expbuf[..], Starred(acc)) && Size(Starred(acc)) == Size(acc)
  {
    ghost var was, n := expbuf[..], |acc| - 1;
    StarredSize(acc);
    ItemStarred(was, lastep, acc[n]);
    if expbuf[lastep] % 2 == 0 {
      expbuf[lastep] := expbuf[lastep] + STAR;
    }
    assert expbuf[..] == was[lastep := was[lastep] - StarBit(acc[n]) + STAR];
    assert expbuf[..][..lastep] == was[..lastep];
    CodedKept(was, expbuf[..], acc[..n]);
  }

  lemma CharPositive(src: seq<int>, pos: nat)
    requires forall c <- src :: c > 0
    ensures At(src, pos) != EOF ==> pos < |src| && At(src, pos) > 0
  {
    if pos < |src| {
      assert src[pos] in src;
    }
  }

  /** What has been stored of a class from ep0 on, when its text goes on at pos. */
  ghost predicate InClass(src: seq<int>, pos: nat, expbuf: array<int>, ep0: nat, ep: nat, k: ClassText)
    reads expbuf
  {
    && expbuf.Length == ESIZE + 4 && 0 < ep0 <= ep && ep0 <= ESIZE + 1 && (ep == ep0 || ep < ESIZE)
    && expbuf[ep0 - 1] == 0 && k == ReadClass(src, pos, expbuf[ep0..ep])
    && forall i :: ep0 <= i < ep ==> expbuf[i] > 0
  }

  /** `*ep++ = c; cclcnt++;` and the test that follows it. */
  method StoreChar(expbuf: array<int>, ep0: nat, ep1: nat, c: int) returns (ok: bool, ep: nat)
    requires expbuf.Length == ESIZE + 4 && ep0 <= ep1 <= ESIZE + 1
    modifies expbuf
    ensures ep == ep1 + 1 && expbuf[..ep1] == old(expbuf[..ep1]) && expbuf[ep1] == c
    ensures expbuf[ep0..ep] == old(expbuf[ep0..ep1]) + [c] && (ok <==> ep < ESIZE)
  {
    expbuf[ep1] := c;
    ep := ep1 + 1;
    ok := ep < ESIZE;
  }

  /** The turn for a hyphen that is not in first place. */
  method HyphenTurn(src: seq<int>, pos0: nat, expbuf: array<int>, ep0: nat, ep1: nat, ghost k: ClassText)
    returns (ok: bool, done: bool, pos: nat, ep: nat)
    requires InClass(src, pos0, expbuf, ep0, ep1, k) && ep0 < ep1 && forall c <- src :: c > 0
    requires At(src, pos0) == HYPHEN
    modifies expbuf
    ensures expbuf[..ep0] == old(expbuf[..ep0])
    ensures ok && done ==> ep0 <= ep <= ESIZE && k == ClassText(expbuf[ep0..ep], pos)
    ensures ok && !done ==> pos0 < pos && ep0 < ep < ESIZE && forall i :: ep0 <= i < ep ==> expbuf[i] > 0
    ensures ok && !done ==> k == NextInClass(src, pos, expbuf[ep0..ep])
    ensures !ok ==> k.BadClass? || ep0 + |k.chars| >= ESIZE
  {
    ghost var chars, head := expbuf[ep0..ep1], expbuf[..ep0];
    var c := At(src, pos0 + 1);
    ok, done, pos, ep := false, false, pos0 + 2, ep1;
    CharPositive(src, pos0 + 1);
    if c == EOF {
      return;
    }
    if c == RBRACKET {
      ok, ep := StoreChar(expbuf, ep0, ep1, HYPHEN);
      assert expbuf[..ep0] == expbuf[..ep1][..ep0];
      ok, done := true, true;
      return;
    }
    assert chars[|chars| - 1] == expbuf[ep1 - 1];
    ok, ep := FillRange(expbuf, ep0, ep1, c);
    assert expbuf[..ep0] == expbuf[..ep1][..ep0];
    if ok {
      ghost var filled := expbuf[ep0..ep];
      ok, ep := StoreChar(expbuf, ep0, ep, c);
      assert expbuf[..ep0] == expbuf[..ep - 1][..ep0];
      assert forall i :: ep0 <= i < ep - 1 ==> expbuf[i] == filled[i - ep0];
      assert forall i :: 0 <= i < |filled| ==> filled[i] > 0;
    }
  }

  /** One turn of the loop over the characters of a class. */
  method ClassTurn(src: seq<int>, pos0: nat, expbuf: array<int>, ep0: nat, ep1: nat, ghost k: ClassText)
    returns (ok: bool, done: bool, pos: nat, ep: nat)
    requires InClass(src, pos0, expbuf, ep0, ep1, k) && forall c <- src :: c > 0
    modifies expbuf
    ensures expbuf[..ep0] == old(expbuf[..ep0])
    ensures ok ==> pos0 < pos && pos0 < |src|
    ensures ok && done ==> ep0 <= ep <= ESIZE && k == ClassText(expbuf[ep0..ep], pos)
    ensures ok && !done ==> InClass(src, pos, expbuf, ep0, ep, k)
    ensures !ok ==> k.BadClass? || ep0 + |k.chars| >= ESIZE
  {
    var c := At(src, pos0);
    ok, done, pos, ep := false, false, pos0 + 1, ep1;
    CharPositive(src, pos0);
    if c == NEWLINE || c == EOF {
      return;
    }
    if c == HYPHEN && expbuf[ep1 - 1] != 0 {
      ok, done, pos, ep := HyphenTurn(src, pos0, expbuf, ep0, ep1, k);
    } else {
      ghost var chars := expbuf[ep0..ep1];
      assert chars == [] || c != HYPHEN;
      assert k == NextInClass(src, pos, chars + [c]);
      ok, ep := StoreChar(expbuf, ep0, ep1, c);
      assert expbuf[..ep0] == expbuf[..ep1][..ep0];
      assert forall i :: ep0 <= i < ep1 ==> expbuf[i] == expbuf[..ep1][i];
    }
    assert expbuf[ep0 - 1] == expbuf[..ep0][ep0 - 1];
    if ok && !done && At(src, pos) == RBRACKET {
      pos, done := pos + 1, true;
    }
  }

  /** The characters of a class, stored from ep0 on. Its length byte is still zero. A class that ends too far
      on is left to the caller; one that goes beyond the buffer has failed. (At the end of the input the
      source goes on storing until the buffer is full; that is a failure too.) */
  method CompileClass(src: seq<int>, pos0: nat, expbuf: array<int>, ep0: nat) returns (ok: bool, pos: nat, ep: nat)
    requires expbuf.Length == ESIZE + 4 && 0 < ep0 <= ESIZE + 1 && expbuf[ep0 - 1] == 0
    requires forall c <- src :: c > 0
    modifies expbuf
    ensures expbuf[..ep0] == old(expbuf[..ep0])
    ensures ok ==> ep0 <= ep <= ESIZE && ReadClass(src, pos0, []) == ClassText(expbuf[ep0..ep], pos)
    ensures !ok ==> var k := ReadClass(src, pos0, []); k.BadClass? || ep0 + |k.chars| >= ESIZE
  {
    ghost var k := ReadClass(src, pos0, []);
    var done := false;
    pos, ep, ok := pos0, ep0, true;
    while ok && !done
      invariant expbuf[..ep0] == old(expbuf[..ep0])
      invariant ok && done ==> ep0 <= ep <= ESIZE && k == ClassText(expbuf[ep0..ep], pos)
      invariant ok && !done ==> InClass(src, pos, expbuf, ep0, ep, k)
      invariant !ok ==> k.BadClass? || ep0 + |k.chars| >= ESIZE
      decreases ok && !done, |src| - pos
    {
      ok, done, pos, ep := ClassTurn(src, pos, expbuf, ep0, ep, k);
    }
  }

  /** The characters after the last one stored, up to c. */
  method FillRange(expbuf: array<int>, ep0: nat, ep1: nat, c: int) returns (ok: bool, ep: nat)
    requires expbuf.Length == ESIZE + 4 && 0 < ep0 < ep1 < ESIZE && forall i :: ep0 <= i < ep1 ==> expbuf[i] > 0
    modifies expbuf
    ensures expbuf[..ep1] == old(expbuf[..ep1])
    ensures ok ==> ep1 <= ep < ESIZE && expbuf[ep0..ep] == old(expbuf[ep0..ep1]) + Range(old(expbuf[ep1 - 1]), c)
    ensures ok ==> forall i :: ep0 <= i < ep ==> expbuf[i] > 0
    ensures !ok ==> ep1 + |Range(old(expbuf[ep1 - 1]), c)| >= ESIZE
  {
    hide Range;
    ep, ok := ep1, false;
    ghost var r := Range(expbuf[ep1 - 1], c);
    RangeStep(expbuf[ep1 - 1], c);
    assert expbuf[ep1..ep] + r == r;
    while expbuf[ep - 1] < c
      invariant ep1 <= ep < ESIZE && expbuf[..ep1] == old(expbuf[..ep1])
      invariant forall i :: ep0 <= i < ep ==> expbuf[i] > 0
      invariant expbuf[ep1..ep] + Range(expbuf[ep - 1], c) == r
      decreases c - expbuf[ep - 1]
    {
      ghost var done, x := expbuf[ep1..ep], expbuf[ep - 1];
      RangeStep(x, c);
      expbuf[ep] := expbuf[ep - 1] + 1;
      ep := ep + 1;
      assert expbuf[ep1..ep] == done + [x + 1];
      assert done + [x + 1] + Range(x + 1, c) == done + ([x + 1] + Range(x + 1, c));
      if ep >= ESIZE {
        return;
      }
    }
    RangeStep(expbuf[ep - 1], c);
    assert expbuf[ep1..ep] + [] == expbuf[ep1..ep];
    assert expbuf[ep0..ep] == expbuf[ep0..ep1] + expbuf[ep1..ep];
    assert expbuf[ep0..ep1] == expbuf[..ep1][ep0..];
    ok := true;
  }

  lemma RangeStep(x: int, c: int)
    ensures Range(x, c) == if x < c then [x + 1] + Range(x + 1, c) else []
  {
  }

  /** Code with a class instruction put behind it. */
  lemma ClassCoded(was: seq<int>, code: seq<int>, acc: seq<Item>, chars: seq<int>, negated: bool)
    requires Coded(was, acc) && |was| == |code| && Size(acc) + 2 + |chars| <= |code|
    requires code[..Size(acc)] == was[..Size(acc)] && code[Size(acc)] == (if negated then NCCL else CCL)
    requires code[Size(acc) + 1] == |chars| + 1 && code[Size(acc) + 2..Size(acc) + 2 + |chars|] == chars
    ensures Coded(code, acc + [Item(Class(chars, negated), false)])
    ensures Size(acc + [Item(Class(chars, negated), false)]) == Size(acc) + 2 + |chars|
  {
    var it := Item(Class(chars, negated), false);
    SizeMore(acc, it);
    CodedKept(was, code, acc);
    CodedMore(code, acc, it);
  }

  lemma CodedMore(code: seq<int>, acc: seq<Item>, it: Item)
    requires Coded(code, acc) && EncodesItem(code, Size(acc), it)
    ensures Coded(code, acc + [it])
  {
    SizeMore(acc, it);
  }

  /** A class instruction, its length byte filled in last. */
  method EmitClass(src: seq<int>, pos0: nat, negated: bool, expbuf: array<int>, ep0: nat, ghost acc: seq<Item>)
    returns (ok: bool, pos: nat, ep: nat, ghost chars: seq<int>)
    requires expbuf.Length == ESIZE + 4 && ep0 < ESIZE && Coded(expbuf[..], acc) && ep0 == Size(acc)
    requires forall c <- src :: c > 0
    modifies expbuf
    ensures ok ==> ReadClass(src, pos0, []) == ClassText(chars, pos)
    ensures ok ==> ep <= ESIZE && ep == Size(acc + [Item(Class(chars, negated), false)])
    ensures ok ==> Coded(expbuf[..], acc + [Item(Class(chars, negated), false)])
    ensures !ok ==> var k := ReadClass(src, pos0, []); k.BadClass? || ep0 + 2 + |k.chars| >= ESIZE
  {
    ghost var was := expbuf[..];
    expbuf[ep0] := if negated then NCCL else CCL;
    expbuf[ep0 + 1] := 0;
    ghost var head := expbuf[..ep0 + 2];
    ok, pos, ep := CompileClass(src, pos0, expbuf, ep0 + 2);
    chars := [];
    if ok {
      chars := expbuf[ep0 + 2..ep];
      expbuf[ep0 + 1] := ep - ep0 - 1;
      assert expbuf[..][..ep0] == head[..ep0] == was[..ep0];
      assert expbuf[..][ep0] == head[ep0];
      assert expbuf[..][ep0 + 2..ep0 + 2 + |chars|] == chars;
      ClassCoded(was, expbuf[..], acc, chars, negated);
    }
  }

  /** How long the code of a pattern is, without the end mark. */
  function CodeSize(r: Reading): nat
    requires r.Reading?
  {
    Size(r.items) + if r.dollar then 1 else 0
  }

  /** The text is no pattern, or one whose code is too long. */
  ghost predicate Hopeless(r: Reading) {
    r.Reading? ==> CodeSize(r) >= ESIZE
  }

  lemma TotalSize(acc: seq<Item>, r: Reading)
    requires Size(acc) >= ESIZE
    ensures Hopeless(Total(acc, r))
  {
    if r.Reading? {
      if acc != [] {
        StarredSize(acc);
      }
      SizeConcat(if r.starred then Starred(acc) else acc, r.items);
    }
  }

  lemma TotalClass(acc: seq<Item>, chars: seq<int>, negated: bool, r: Reading)
    requires Size(acc) + 2 + |chars| >= ESIZE
    ensures Hopeless(Total(acc, Before(Class(chars, negated), r)))
  {
    var it := Item(Class(chars, negated), false);
    TotalAtom(acc, it.atom, r);
    SizeMore(acc, it);
    TotalSize(acc + [it], r);
  }

  /** The state of the compiler between characters: the items read so far are in the buffer, and with what is
      still to be read they make up `total`. A star has something to belong to once `lastep` is set. */
  ghost predicate Compiling(src: seq<int>, pos: nat, eof: int, lastep: int, ep: nat, code: seq<int>,
                            acc: seq<Item>, total: Reading) {
    && |code| == ESIZE + 4 && Coded(code, acc) && ep == Size(acc) && ep <= ESIZE + 1
    && total == Total(acc, Read(src, pos, eof, lastep >= 0))
    && (lastep >= 0 ==> acc != [] && lastep == Size(acc[..|acc| - 1]))
  }

  datatype Turn = More | Done | Fail | Group

  /** The end mark, behind a dollar or not. */
  method Finish(expbuf: array<int>, ep: nat, dollar: bool, ghost acc: seq<Item>)
    requires expbuf.Length == ESIZE + 4 && ep <= ESIZE && Coded(expbuf[..], acc) && ep == Size(acc)
    modifies expbuf
    ensures Encodes(expbuf[..], 0, Pattern(acc, dollar))
  {
    ghost var was := expbuf[..];
    if dollar {
      expbuf[ep] := CDOL;
      expbuf[ep + 1] := CEOF;
    } else {
      expbuf[ep] := CEOF;
    }
    assert expbuf[..][..ep] == was[..ep];
    CodedKept(was, expbuf[..], acc);
    assert [] + acc == acc;
    CodedEncodes(expbuf[..], [], acc, dollar);
  }

  /** The class whose bracket is at pos. */
  function ClassAt(src: seq<int>, pos: nat): ClassText {
    ReadClass(src, if At(src, pos + 1) == CARET then pos + 2 else pos + 1, [])
  }

  /** The text at pos, which is not a star that belongs to something, begins with this atom, which ends
      at `end`. */
  ghost predicate ReadsAtom(src: seq<int>, pos: nat, a: Atom, end: nat) {
    var c, d := At(src, pos), At(src, pos + 1);
    if c == BACKSLASH then a == Chr(d) && end == pos + 2 && !IsGroup(d) && d != EOF && d != NEWLINE
    else if c == PERIOD then a == Dot && end == pos + 1
    else if c == LBRACKET then a.Class? && a.negated == (d == CARET) && ClassAt(src, pos) == ClassText(a.chars, end)
    else a == Chr(c) && end == pos + 1
  }

  /** The text at pos, which is neither the end nor a star that belongs to something, begins with no atom. */
  ghost predicate ReadsNone(src: seq<int>, pos: nat, room: int) {
    var c, d, k := At(src, pos), At(src, pos + 1), ClassAt(src, pos);
    if c == BACKSLASH then d == EOF || d == NEWLINE
    else c == LBRACKET && (k.BadClass? || 2 + |k.chars| >= room)
  }

  /** A character or a period, escaped or not, and the instruction for it. */
  method PlainTurn(src: seq<int>, pos0: nat, c: int, expbuf: array<int>, ep0: nat, ghost acc0: seq<Item>)
    returns (turn: Turn, pos: nat, ep: nat, ghost a: Atom)
    requires expbuf.Length == ESIZE + 4 && Coded(expbuf[..], acc0) && ep0 == Size(acc0) < ESIZE
    requires c == At(src, pos0) > 0 && c != LBRACKET && forall c <- src :: c > 0
    modifies expbuf
    ensures turn == More ==> pos0 < pos && ep <= ESIZE + 1 && ep == Size(acc0 + [Item(a, false)])
    ensures turn == More ==> Coded(expbuf[..], acc0 + [Item(a, false)]) && ReadsAtom(src, pos0, a, pos)
    ensures turn == Fail ==> ReadsNone(src, pos0, 0)
    ensures turn == Group ==> c == BACKSLASH && IsGroup(At(src, pos0 + 1))
    ensures turn != Done
  {
    turn, pos, ep, a := More, pos0 + 1, ep0, Dot;
    if c == PERIOD {
      EmitDot(expbuf, ep, acc0);
      ep := ep + 1;
      return;
    }
    var d := c;
    if c == BACKSLASH {
      d := At(src, pos);
      CharPositive(src, pos);
      pos := pos + 1;
      if d == EOF || d == NEWLINE {
        turn := Fail;
        return;
      }
      if IsGroup(d) {
        turn := Group;
        return;
      }
    }
    EmitChr(expbuf, ep, d, acc0);
    ep, a := ep + 2, Chr(d);
  }

  /** The turn that reads a complete atom: its instruction follows the code there is. */
  method AtomTurn(src: seq<int>, pos0: nat, c: int, expbuf: array<int>, ep0: nat, ghost acc0: seq<Item>)
    returns (turn: Turn, pos: nat, ep: nat, ghost a: Atom)
    requires expbuf.Length == ESIZE + 4 && Coded(expbuf[..], acc0) && ep0 == Size(acc0) < ESIZE
    requires c == At(src, pos0) > 0 && forall c <- src :: c > 0
    modifies expbuf
    ensures turn == More ==> pos0 < pos && ep <= ESIZE + 1 && ep == Size(acc0 + [Item(a, false)])
    ensures turn == More ==> Coded(expbuf[..], acc0 + [Item(a, false)]) && ReadsAtom(src, pos0, a, pos)
    ensures turn == Fail ==> ReadsNone(src, pos0, ESIZE - ep0)
    ensures turn == Group ==> c == BACKSLASH && IsGroup(At(src, pos0 + 1))
    ensures turn != Done
  {
    if c == LBRACKET {
      var negated := At(src, pos0 + 1) == CARET;
      var ok;
      ghost var chars;
      ok, pos, ep, chars := EmitClass(src, if negated then pos0 + 2 else pos0 + 1, negated, expbuf, ep0, acc0);
      a := Class(chars, negated);
      turn := if ok then More else Fail;
    } else {
      turn, pos, ep, a := PlainTurn(src, pos0, c, expbuf, ep0, acc0);
    }
  }

  /** The text at pos begins with an atom, unless it has ended or begins with a star that belongs to what is
      in front of it. */
  ghost predicate AtomComes(src: seq<int>, pos: nat, eof: int, prev: bool) {
    var c := At(src, pos);
    && c > 0 && c != eof && c != NEWLINE && !(c == STARCH && prev) && !(c == DOLLAR && At(src, pos + 1) == eof)
  }

  lemma ReadAtom(src: seq<int>, pos: nat, eof: int, prev: bool, a: Atom, end: nat)
    requires AtomComes(src, pos, eof, prev) && ReadsAtom(src, pos, a, end)
    ensures Read(src, pos, eof, prev) == Before(a, Read(src, end, eof, At(src, pos) != STARCH))
  {
  }

  lemma ReadFails(src: seq<int>, pos: nat, eof: int, prev: bool, acc: seq<Item>)
    requires AtomComes(src, pos, eof, prev) && ReadsNone(src, pos, ESIZE - Size(acc))
    ensures Hopeless(Total(acc, Read(src, pos, eof, prev)))
  {
    if At(src, pos) == LBRACKET {
      var k := ClassAt(src, pos);
      if k.ClassText? {
        TotalClass(acc, k.chars, At(src, pos + 1) == CARET, Read(src, k.end, eof, true));
      }
    }
  }

  /** The turn for an atom: `lastep` is set to where its instruction starts, but by no star. */
  method NextAtom(src: seq<int>, pos0: nat, eof: int, c: int, expbuf: array<int>, ep0: nat, lastep0: int,
                  ghost acc0: seq<Item>, ghost total: Reading)
    returns (turn: Turn, pos: nat, ep: nat, lastep: int, ghost acc: seq<Item>)
    requires expbuf.Length == ESIZE + 4 && Compiling(src, pos0, eof, lastep0, ep0, expbuf[..], acc0, total)
    requires ep0 < ESIZE && c == At(src, pos0) && AtomComes(src, pos0, eof, lastep0 >= 0) && forall d <- src :: d > 0
    modifies expbuf
    ensures turn == More ==> pos0 < pos && Compiling(src, pos, eof, lastep, ep, expbuf[..], acc, total)
    ensures turn == Fail ==> Hopeless(total)
    ensures turn == Group ==> total.Beyond?
    ensures turn != Done
  {
    ghost var a;
    turn, pos, ep, a := AtomTurn(src, pos0, c, expbuf, ep0, acc0);
    lastep := if c == STARCH then lastep0 else ep0;
    acc := acc0 + [Item(a, false)];
    if turn == More {
      ReadAtom(src, pos0, eof, lastep0 >= 0, a, pos);
      TotalAtom(acc0, a, Read(src, pos, eof, c != STARCH));
      SizeMore(acc0, Item(a, false));
    } else if turn == Fail {
      ReadFails(src, pos0, eof, lastep0 >= 0, acc0);
    }
  }

  /** One turn of the loop. The dollar in front of the end is stored together with the end mark that the
      source stores in its next turn. */
  method CompileTurn(src: seq<int>, pos0: nat, eof: int, expbuf: array<int>, ep0: nat, lastep0: int,
                     ghost acc0: seq<Item>, ghost total: Reading)
    returns (turn: Turn, pos: nat, ep: nat, lastep: int, ghost acc: seq<Item>)
    requires expbuf.Length == ESIZE + 4 && Compiling(src, pos0, eof, lastep0, ep0, expbuf[..], acc0, total)
    requires eof != EOF && forall d <- src :: d > 0
    modifies expbuf
    ensures turn == More ==> pos0 < pos && pos0 < |src| && Compiling(src, pos, eof, lastep, ep, expbuf[..], acc, total)
    ensures turn == Done ==>
      total.Reading? && total == Reading(false, acc, total.dollar, pos) && CodeSize(total) < ESIZE
    ensures turn == Done ==> Encodes(expbuf[..], 0, Pattern(acc, total.dollar))
    ensures turn == Fail ==> Hopeless(total)
    ensures turn == Group ==> total.Beyond?
  {
    turn, pos, ep, lastep, acc := Fail, pos0 + 1, ep0, lastep0, acc0;
    if ep0 >= ESIZE {
      TotalSize(acc, Read(src, pos0, eof, lastep >= 0));
      return;
    }
    var c := At(src, pos0);
    CharPositive(src, pos0);
    assert acc + [] == acc;
    if c == eof {
      Finish(expbuf, ep, false, acc);
      turn := Done;
    } else if c == EOF || c == NEWLINE {
    } else if c == STARCH && lastep >= 0 {
      EmitStar(expbuf, lastep, acc);
      ghost var r := Read(src, pos, eof, true);
      if r.Reading? {
        TotalStar(acc, r);
      }
      StarredSize(acc);
      turn, acc := More, Starred(acc);
    } else if c == DOLLAR && At(src, pos) == eof {
      if ep + 1 < ESIZE {
        Finish(expbuf, ep, true, acc);
        turn, pos := Done, pos + 1;
      }
    } else {
      turn, pos, ep, lastep, acc := NextAtom(src, pos0, eof, c, expbuf, ep0, lastep0, acc0, total);
    }
  }

  /** The loop: it compiles the text from pos0 on exactly if that reads as a pattern whose code is shorter
      than the buffer. */
  method CompileLoop(src: seq<int>, pos0: nat, eof: int, expbuf: array<int>)
    returns (res: Outcome, pos: nat, ghost p: Pattern)
    requires expbuf.Length == ESIZE + 4 && eof != EOF && forall d <- src :: d > 0
    modifies expbuf
    ensures var r := Read(src, pos0, eof, false);
      && (res == Compiled <==> r.Reading? && CodeSize(r) < ESIZE)
      && (res == Compiled ==> p == Pattern(r.items, r.dollar) && pos == r.end && Encodes(expbuf[..], 0, p))
      && (res == Unsupported ==> r.Beyond?)
  {
    var turn, ep: nat, lastep := More, 0, -1;
    ghost var acc: seq<Item> := [];
    ghost var total := Total([], Read(src, pos0, eof, false));
    pos := pos0;
    assert total == Read(src, pos0, eof, false) by {
      ReadUnstarred(src, pos0, eof);
    }
    while turn == More
      invariant turn == More ==> Compiling(src, pos, eof, lastep, ep, expbuf[..], acc, total)
      invariant turn == Done ==>
        total.Reading? && total == Reading(false, acc, total.dollar, pos) && CodeSize(total) < ESIZE
      invariant turn == Done ==> Encodes(expbuf[..], 0, Pattern(acc, total.dollar))
      invariant turn == Fail ==> Hopeless(total)
      invariant turn == Group ==> total.Beyond?
      decreases turn == More, |src| - pos
    {
      turn, pos, ep, lastep, acc := CompileTurn(src, pos, eof, expbuf, ep, lastep, acc, total);
    }
    res := if turn == Done then Compiled else if turn == Group then Unsupported else Failed;
    p := Pattern(acc, total.Reading? && total.dollar);
  }

  /** Without anything in front, a text does not begin with stars that belong to it. */
  lemma ReadUnstarred(src: seq<int>, pos: nat, eof: int)
    ensures var r := Read(src, pos, eof, false); r.Reading? ==> !r.starred
    ensures var r := Read(src, pos, eof, false); Total([], r) == r
  {
    var r := Read(src, pos, eof, false);
    if r.Reading? {
      assert [] + r.items == r.items;
    }
  }

  /** How the text of an expression, with its circumflex if it has one, reads. */
  function ReadText(src: seq<int>, pos: nat, eof: int): Reading {
    Read(src, if At(src, pos) == CARET then pos + 1 else pos, eof, false)
  }

  /** The expression the editor keeps, and the pattern that it stands for. */
  class Expression {
    const expbuf: array<int>
    var circfl: bool
    ghost var pattern: Option<Pattern>

    ghost predicate Valid()
      reads this, expbuf
    {
      && expbuf.Length == ESIZE + 4
      && if pattern.Some? then Encodes(expbuf[..], 0, pattern.value) else expbuf[0] == 0
    }

    constructor ()
      ensures Valid() && pattern == None && fresh(expbuf)
    {
      expbuf := new int[ESIZE + 4](_ => 0);
      circfl, pattern := false, None;
    }

    /** `compile`: an empty text stands for the expression compiled before; any other is compiled if it reads
        as a pattern and fits, and after a failure there is no expression. At a group or back-reference the
        model stops. */
    method Compile(src: seq<int>, pos0: nat, eof: int) returns (res: Outcome, pos: nat)
      requires Valid() && eof != EOF && forall d <- src :: d > 0
      modifies this, expbuf
      ensures Valid()
      ensures At(src, pos0) == eof ==> circfl == old(circfl) && pattern == old(pattern)
      ensures At(src, pos0) == eof ==> pos == pos0 + 1 && res == if pattern.Some? then Compiled else Failed
      ensures At(src, pos0) != eof ==> var r := ReadText(src, pos0, eof);
        && (res == Compiled <==> r.Reading? && CodeSize(r) < ESIZE)
        && (res == Compiled ==> pattern == Some(Pattern(r.items, r.dollar)) && pos == r.end)
        && (res == Unsupported ==> r.Beyond?) && (res != Compiled ==> pattern == None)
        && circfl == (At(src, pos0) == CARET)
    {
      var c := At(src, pos0);
      pos := pos0;
      if c == eof {
        if pattern.Some? {
          OpCode(expbuf[..], 0, pattern.value);
        }
        res := if expbuf[0] == 0 then Failed else Compiled;
        pos := pos + 1;
        return;
      }
      circfl := c == CARET;
      if circfl {
        pos := pos + 1;
      }
      ghost var p;
      res, pos, p := CompileLoop(src, pos, eof, expbuf);
      pattern := Some(p);
      if res != Compiled {
        expbuf[0] := 0;
        pattern := None;
      }
    }

    /** The compiled expression run on a line. */
    method Find(atZero: bool, linebuf: array<int>, ghost s: seq<int>) returns (ok: bool, loc1: nat, loc2: nat)
      requires Valid() && pattern.Some? && HoldsLine(linebuf[..], s)
      ensures ok <==> !atZero && Occurs(pattern.value, circfl, s)
      ensures ok ==>
        loc1 <= |s| && Matches(pattern.value, s, loc1, loc2) && MatchEnd(pattern.value, s, loc1) == Some(loc2)
      ensures ok ==> forall i: nat, j: nat :: i < loc1 ==> !Matches(pattern.value, s, i, j)
    {
      ok, loc1, loc2 := Execute(atZero, circfl, linebuf, expbuf, pattern.value, s);
    }
  }

  /** A text compiled and run on a line finds something exactly if what the text reads as occurs in it. */
  method CompileAndFind(src: seq<int>, eof: int, linebuf: array<int>, ghost s: seq<int>)
    returns (res: Outcome, ok: bool, loc1: nat, loc2: nat)
    requires eof != EOF && At(src, 0) != eof && (forall d <- src :: d > 0) && HoldsLine(linebuf[..], s)
    ensures res == Compiled <==> ReadText(src, 0, eof).Reading? && CodeSize(ReadText(src, 0, eof)) < ESIZE
    ensures res == Compiled ==> var r := ReadText(src, 0, eof); var p := Pattern(r.items, r.dollar);
      && (ok <==> Occurs(p, At(src, 0) == CARET, s))
      && (ok ==> loc1 <= |s| && Matches(p, s, loc1, loc2) && MatchEnd(p, s, loc1) == Some(loc2))
      && (ok ==> forall i: nat, j: nat :: i < loc1 ==> !Matches(p, s, i, j))
  {
    var e := new Expression();
    var pos;
    res, pos := e.Compile(src, 0, eof);
    ok, loc1, loc2 := false, 0, 0;
    if res == Compiled {
      ok, loc1, loc2 := e.Find(false, linebuf, s);
    }
  }
}
