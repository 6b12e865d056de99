/** Numbers as csh writes and reads them: `putn` and `getn` (bin/csh/set.c), and `egetn` (bin/csh/exp.c). */
module ExprNumber {
  import opened Basics

  const ZERO := 48
  const MINUS := 45
  const PLUS := 43
  const LIMIT := 0x8000_0000

  /** A C integer of 32 bits. */
  type Int32 = n: int | -LIMIT <= n < LIMIT

  /** The integer that is left of n when only 32 bits are kept. */
  function Wrap(n: int): (r: Int32)
    ensures -LIMIT <= n < LIMIT ==> r == n
  {
    (n + LIMIT) % 0x1_0000_0000 - LIMIT
  }

  predicate IsDigit(c: int) {
    ZERO <= c <= ZERO + 9
  }

  function At(w: Word, i: nat): int {
    if i < |w| then w[i] else 0
  }

  /** `putn1`. */
  function Digits(n: nat): (w: Word)
    ensures w != [] && forall c <- w :: IsDigit(c)
  {
    (if n > 9 then Digits(n / 10) else []) + [ZERO + n % 10]
  }

  /** `putn`. (The source writes the least number in two parts, since its negation does not fit; the digits are
      the same.) */
  function Putn(n: Int32): Word {
    if n < 0 then [MINUS] + Digits(0 - n as int) else Digits(n)
  }

  /** The loop of `getn` over the digits from k on. */
  function Getdigits(w: Word, k: nat, n: Int32): Option<Int32>
    requires k <= |w|
    decreases |w| - k
  {
    if k == |w| then Some(n)
    else if IsDigit(w[k]) then Getdigits(w, k + 1, Wrap(n * 10 + (w[k] - ZERO)))
    else None
  }

  /** `getn`: no value stands for the error. */
  function Getn(w: Word): Option<Int32> {
    var k := if At(w, 0) == PLUS && At(w, 1) != 0 then 1 else 0;
    if At(w, k) == MINUS then
      if !IsDigit(At(w, k + 1)) then None
      else
        var r := Getdigits(w, k + 1, 0);
        if r.None? then None else Some(Wrap(0 - r.value as int))
    else Getdigits(w, k, 0)
  }

  /** `egetn`. */
  function Egetn(w: Word): Option<Int32> {
    if w != [] && w[0] != MINUS && !IsDigit(w[0]) then None else Getn(w)
  }

  lemma WrapShift(a: int, q: int)
    ensures Wrap(a + q * 0x1_0000_0000) == Wrap(a)
  {
  }

  /** Keeping 32 bits at every step is keeping them at the end. */
  lemma WrapStep(v: int, d: int)
    ensures Wrap(Wrap(v) * 10 + d) == Wrap(v * 10 + d)
  {
    var q := (v + LIMIT) / 0x1_0000_0000;
    assert v == Wrap(v) + q * 0x1_0000_0000;
    WrapShift(Wrap(v) * 10 + d, q * 10);
  }

  /** The value that digits add to what has been read. */
  function Reading(w: Word, k: nat, n: int): int
    requires k <= |w|
    decreases |w| - k
  {
    if k == |w| then n else Reading(w, k + 1, n * 10 + (w[k] - ZERO))
  }

  lemma {:induction false} GetdigitsWraps(w: Word, k: nat, n: int)
    requires k <= |w| && forall c <- w[k..] :: IsDigit(c)
    ensures Getdigits(w, k, Wrap(n)) == Some(Wrap(Reading(w, k, n)))
    decreases |w| - k
  {
    if k < |w| {
      assert w[k] in w[k..];
      WrapStep(n, w[k] - ZERO);
      GetdigitsWraps(w, k + 1, n * 10 + (w[k] - ZERO));
    }
  }

  lemma {:induction false} ReadingLast(w: Word, k: nat, n: int)
    requires k < |w|
    ensures Reading(w, k, n) == Reading(w[..|w| - 1], k, n) * 10 + (w[|w| - 1] - ZERO)
    decreases |w| - k
  {
    if k + 1 < |w| {
      ReadingLast(w, k + 1, n * 10 + (w[k] - ZERO));
    }
  }

  lemma {:induction false} ReadingDigits(head: Word, n: nat)
    ensures Reading(head + Digits(n), |head|, 0) == n
  {
    var w := head + Digits(n);
    ReadingLast(w, |head|, 0);
    if n > 9 {
      assert w[..|w| - 1] == head + Digits(n / 10);
      ReadingDigits(head, n / 10);
    } else {
      assert w[..|w| - 1] == head;
    }
  }

  lemma DigitsBack(head: Word, a: nat)
    ensures var w := head + Digits(a); Getdigits(w, |head|, 0) == Some(Wrap(a)) && IsDigit(w[|head|])
  {
    var w := head + Digits(a);
    assert w[|head|..] == Digits(a);
    assert w[|head|] == Digits(a)[0] && Digits(a)[0] in Digits(a);
    GetdigitsWraps(w, |head|, 0);
    ReadingDigits(head, a);
  }

  /** What `putn` writes, `egetn` reads, down to the least number. */
  lemma PutnEgetn(n: Int32)
    ensures Egetn(Putn(n)) == Some(n)
  {
    hide Digits, Getdigits;
    var m: int := n;
    if m < 0 {
      DigitsBack([MINUS], -m);
    } else {
      assert [] + Digits(m) == Digits(m);
      DigitsBack([], m);
    }
  }

  predicate Decimals(w: Word) {
    forall c <- w :: 48 <= c <= 57
  }

  /** Decimal digits, at least one. */
  predicate Decimal(w: Word) {
    w != [] && Decimals(w)
  }

  lemma DecimalsFirst(w: Word)
    requires w != []
    ensures Decimals(w) <==> 48 <= w[0] <= 57 && Decimals(w[1..])
  {
    assert w[0] in w && forall c <- w[1..] :: c in w;
    assert forall c <- w :: c == w[0] || c in w[1..];
  }

  lemma {:induction false} GetdigitsReads(w: Word, k: nat, n: Int32)
    requires k <= |w|
    ensures Getdigits(w, k, n).Some? <==> Decimals(w[k..])
    decreases |w| - k
  {
    if k < |w| {
      DecimalsFirst(w[k..]);
      assert w[k..][1..] == w[k + 1..];
      hide Decimals;
      if IsDigit(w[k]) {
        GetdigitsReads(w, k + 1, Wrap(n * 10 + (w[k] - ZERO)));
      }
    }
  }

  /** What `egetn` takes for a number: digits, a minus sign and digits, or nothing at all. */
  lemma EgetnExactly(w: Word)
    ensures Egetn(w).Some? <==> w == [] || Decimal(w) || (w[0] == 45 && Decimal(w[1..]))
  {
    assert w[0..] == w;
    if w != [] {
      assert w[0] in w;
      GetdigitsReads(w, 1, 0);
    }
    if |w| > 1 {
      assert w[1..][0] == w[1] && w[1] in w[1..];
    }
    GetdigitsReads(w, 0, 0);
    hide Getdigits;
  }

  /** One more digit makes ten times the number and the digit, kept in 32 bits. */
  lemma EgetnAppend(w: Word, d: nat)
    requires Decimal(w) && d <= 9
    ensures Egetn([48 + d]) == Some(d)
    ensures Egetn(w).Some? && Egetn(w + [48 + d]) == Some(Wrap(Egetn(w).value * 10 + d))
  {
    var t := w + [48 + d];
    assert w[0] in w && t[0] == w[0] && w[0..] == w && t[0..] == t && t[..|w|] == w && [48 + d][0..] == [48 + d];
    assert forall c <- t :: IsDigit(c);
    GetdigitsWraps(w, 0, 0);
    GetdigitsWraps(t, 0, 0);
    ReadingLast(t, 0, 0);
    WrapStep(Reading(w, 0, 0), d);
    assert Getdigits([48 + d], 1, d) == Some(d);
  }
}
