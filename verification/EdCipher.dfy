/** The rotor cipher of ed's -x option (bin/ed/ed.c). Bytes are taken modulo 256 throughout: the source
    stores them in (signed) chars but masks every index it makes from one. */
module EdCipher {
  import opened Basics

  const ROTOR := 256
  const PERMSIZE := 768

  /** The three tables, as they lie one after the other in the `perm` array. */
  function T1(perm: seq<byte>, x: byte): byte
    requires |perm| == PERMSIZE
  {
    perm[x]
  }

  function T2(perm: seq<byte>, x: byte): byte
    requires |perm| == PERMSIZE
  {
    perm[ROTOR + x]
  }

  function T3(perm: seq<byte>, x: byte): byte
    requires |perm| == PERMSIZE
  {
    perm[2 * ROTOR + x]
  }

  /** t1 is a permutation with inverse t2; t3 pairs off all slots, none with itself. */
  ghost predicate Good(perm: seq<byte>) {
    && |perm| == PERMSIZE
    && (forall x: byte :: T2(perm, T1(perm, x)) == x && T1(perm, T2(perm, x)) == x)
    && (forall x: byte :: T3(perm, T3(perm, x)) == x && T3(perm, x) != x)
  }

  /** `(x + n) & 0377` and `(x - n) & 0377`. */
  function Up(x: byte, n: byte): (r: byte)
    ensures r == (x + n) % 256
  {
    if x + n < 256 then x + n else x + n - 256
  }

  function Down(x: byte, n: byte): (r: byte)
    ensures r == (x - n) % 256
  {
    if n <= x then x - n else x - n + 256
  }

  /** What becomes of the byte at offset n. */
  function Enc(perm: seq<byte>, b: byte, n: nat): byte
    requires |perm| == PERMSIZE
  {
    EncAt(perm, b, n % 256, (n / 256) % 256)
  }

  /** The same for given positions of the two rotors. */
  function EncAt(perm: seq<byte>, b: byte, n1: byte, n2: byte): byte
    requires |perm| == PERMSIZE
  {
    Down(T2(perm, Down(T3(perm, Up(T1(perm, Up(b, n1)), n2)), n2)), n1)
  }

  lemma ModShift(x: int, q: int)
    ensures (x + q * 256) % 256 == x % 256
  {
  }

  lemma ModTwice(a: int, n: int)
    ensures (a + n % 256) % 256 == (a + n) % 256 && (a - n % 256) % 256 == (a - n) % 256
  {
    var q, m := n / 256, n % 256;
    assert n == m + q * 256 && a - n == a - m + (-q) * 256;
    ModShift(a + m, q);
    ModShift(a - m, -q);
  }

  /** Through the first table as it has turned, the third as it has turned, and back through the second: at offset n
      the first rotor has gone n places, and the other one place for each 256. */
  lemma EncIs(perm: seq<byte>, b: byte, n: nat)
    requires |perm| == 768
    ensures var x := perm[(b + n) % 256];
      var y := perm[512 + (x + n / 256) % 256];
      var z := perm[256 + (y - n / 256) % 256];
      Enc(perm, b, n) == (z - n) % 256
  {
    var x := perm[(b + n) % 256];
    var y := perm[512 + (x + n / 256) % 256];
    var z := perm[256 + (y - n / 256) % 256];
    ModTwice(b, n);
    ModTwice(x, n / 256);
    ModTwice(y, n / 256);
    ModTwice(z, n);
  }

  /** A buffer enciphered from offset n on. */
  function EncAll(perm: seq<byte>, s: seq<byte>, n: nat): (r: seq<byte>)
    requires |perm| == PERMSIZE
    ensures |r| == |s| && forall i :: 0 <= i < |s| ==> r[i] == Enc(perm, s[i], n + i)
  {
    seq(|s|, i requires 0 <= i < |s| => Enc(perm, s[i], n + i))
  }

  /** The same byte is restored by a second pass at the same offset, and no byte stands for itself. */
  lemma EncTwice(perm: seq<byte>, b: byte, n1: byte, n2: byte)
    requires Good(perm)
    ensures EncAt(perm, EncAt(perm, b, n1, n2), n1, n2) == b
    ensures EncAt(perm, b, n1, n2) != b
  {
    var x := T1(perm, Up(b, n1));
    var y := T3(perm, Up(x, n2));
    var z := T2(perm, Down(y, n2));
    assert T1(perm, z) == Down(y, n2);
    assert T3(perm, y) == Up(x, n2);
    assert T2(perm, x) == Up(b, n1);
  }

  /** `crblock` is its own inverse. */
  lemma EncAllTwice(perm: seq<byte>, s: seq<byte>, n: nat)
    requires Good(perm)
    ensures EncAll(perm, EncAll(perm, s, n), n) == s
  {
    forall i | 0 <= i < |s| ensures EncAll(perm, EncAll(perm, s, n), n)[i] == s[i] {
      EncTwice(perm, s[i], (n + i) % 256, ((n + i) / 256) % 256);
    }
  }

  /** Enciphering a buffer in pieces, with the offset carried on, is enciphering it whole. */
  lemma EncAllSplit(perm: seq<byte>, a: seq<byte>, b: seq<byte>, n: nat)
    requires |perm| == PERMSIZE
    ensures EncAll(perm, a + b, n) == EncAll(perm, a, n) + EncAll(perm, b, n + |a|)
  {
    forall i | 0 <= i < |a| + |b|
      ensures EncAll(perm, a + b, n)[i] == (EncAll(perm, a, n) + EncAll(perm, b, n + |a|))[i]
    {
      if i >= |a| {
        assert (a + b)[i] == b[i - |a|];
        assert n + i == n + |a| + (i - |a|);
      }
    }
  }

  /** `crblock`: the two rotor positions advance like an odometer. */
  method CrBlock(perm: array<byte>, buf: array<byte>, nchar: nat, startn: nat)
    requires perm.Length == PERMSIZE && nchar <= buf.Length && perm != buf
    modifies buf
    ensures buf[..nchar] == EncAll(perm[..], old(buf[..nchar]), startn)
    ensures buf[nchar..] == old(buf[nchar..])
  {
    var n1: int, n2: int := startn % 256, (startn / 256) % 256;
    for i := 0 to nchar
      invariant n1 == (startn + i) % 256 && n2 == ((startn + i) / 256) % 256
      invariant forall j :: 0 <= j < i ==> buf[j] == Enc(perm[..], old(buf[j]), startn + j)
      invariant forall j :: i <= j < buf.Length ==> buf[j] == old(buf[j])
    {
      var x := perm[Up(buf[i], n1)];
      var y := perm[2 * ROTOR + Up(x, n2)];
      var z := perm[ROTOR + Down(y, n2)];
      buf[i] := Down(z, n1);
      Odometer(startn + i);
      n1 := n1 + 1;
      if n1 == 256 {
        n1, n2 := 0, n2 + 1;
        if n2 == 256 {
          n2 := 0;
        }
      }
    }
  }

  lemma Odometer(m: nat)
    ensures (m + 1) % 256 == if m % 256 == 255 then 0 else m % 256 + 1
    ensures ((m + 1) / 256) % 256 ==
      if m % 256 < 255 then (m / 256) % 256 else if (m / 256) % 256 == 255 then 0 else (m / 256) % 256 + 1
  {
    var q, r := m / 256, m % 256;
    assert m + 1 == 256 * q + (r + 1);
    assert (m + 1) / 256 == if r < 255 then q else q + 1;
  }

  /** Slot x is still to be paired, in the turn for slot k: a zero entry at or below k. (Above k, a zero
      entry stands for the partner 0.) */
  ghost predicate Free(perm: seq<byte>, k: int, x: byte)
    requires |perm| == PERMSIZE
  {
    x <= k && T3(perm, x) == 0
  }

  /** How many of the first n slots have a zero entry. */
  ghost function Zeros(perm: seq<byte>, n: nat): (c: nat)
    requires |perm| == PERMSIZE && n <= ROTOR
  {
    if n == 0 then 0 else Zeros(perm, n - 1) + if T3(perm, n - 1) == 0 then 1 else 0
  }

  /** The state of the pairing loop before the turn for slot k: the free slots are even in number, and
      every other slot has its partner. */
  ghost predicate Pairing(perm: seq<byte>, k: int) {
    && |perm| == PERMSIZE && -1 <= k < ROTOR && Zeros(perm, k + 1) % 2 == 0
    && (forall x: byte :: !Free(perm, k, x) ==>
          !Free(perm, k, T3(perm, x)) && T3(perm, x) != x && T3(perm, T3(perm, x)) == x)
  }

  /** t1 permutes the slots; `inv` is its inverse. */
  ghost predicate Permuted(perm: seq<byte>, inv: seq<byte>) {
    && |perm| == PERMSIZE && |inv| == ROTOR
    && (forall x: byte :: inv[T1(perm, x)] == x && T1(perm, inv[x]) == x)
  }

  lemma {:induction false} SomeZero(perm: seq<byte>, n: nat) returns (u: byte)
    requires |perm| == PERMSIZE && n <= ROTOR && Zeros(perm, n) > 0
    ensures u < n && T3(perm, u) == 0
  {
    if T3(perm, n - 1) == 0 {
      u := n - 1;
    } else {
      u := SomeZero(perm, n - 1);
    }
  }

  /** If k has no partner yet then, the free slots being even in number, another one is free. */
  lemma AnotherFree(perm: seq<byte>, k: byte) returns (u: byte)
    requires Pairing(perm, k) && T3(perm, k) == 0
    ensures u < k && T3(perm, u) == 0
  {
    u := SomeZero(perm, k);
  }

  lemma {:induction false} OneZeroLess(p: seq<byte>, q: seq<byte>, n: nat, ic: byte)
    requires |p| == |q| == PERMSIZE && n <= ROTOR && T3(p, ic) == 0 && T3(q, ic) != 0
    requires forall x: byte :: x < n && x != ic ==> T3(q, x) == T3(p, x)
    ensures Zeros(q, n) == Zeros(p, n) - if ic < n then 1 else 0
  {
    if n > 0 {
      OneZeroLess(p, q, n - 1, ic);
    }
  }

  lemma {:induction false} SameZeros(p: seq<byte>, q: seq<byte>, n: nat)
    requires |p| == |q| == PERMSIZE && n <= ROTOR
    requires forall x: byte :: T3(q, x) == T3(p, x)
    ensures Zeros(q, n) == Zeros(p, n)
  {
    if n > 0 {
      SameZeros(p, q, n - 1);
    }
  }

  lemma {:induction false} AllZeros(p: seq<byte>, n: nat)
    requires |p| == PERMSIZE && n <= ROTOR && forall x: byte :: T3(p, x) == 0
    ensures Zeros(p, n) == n
  {
    if n > 0 {
      AllZeros(p, n - 1);
    }
  }

  lemma NextSlot(ic: nat, k: nat)
    requires ic < k
    ensures (ic + 1) % k == if ic + 1 == k then 0 else ic + 1
  {
    if ic + 1 < k {
      assert (ic + 1) / k == 0;
    }
  }

  /** The slot e places behind r, going round below k. */
  function Behind(r: nat, e: nat, k: nat): nat
    requires r < k && e < k
  {
    if r + e < k then r + e else r + e - k
  }

  /** Slot ic is the first free one at or behind r, going round below k. */
  ghost predicate FirstFree(t3: seq<byte>, k: nat, r: nat, ic: nat)
    requires |t3| == 256
  {
    r < k < 256 && exists d: nat :: d < k && Behind(r, d, k) == ic && t3[ic] == 0 && TakenTo(t3, k, r, d)
  }

  ghost predicate TakenTo(t3: seq<byte>, k: nat, r: nat, d: nat)
    requires |t3| == 256 && r < k < 256 && d < k
  {
    forall e: nat :: e < d ==> t3[Behind(r, e, k)] != 0
  }

  /** Where the probing from a drawn slot ends: at a free slot other than k. It does end, and `% k` is
      never taken with k zero. */
  method Probe(perm: array<byte>, k: byte, start: nat) returns (ic: byte)
    requires perm.Length == PERMSIZE && Pairing(perm[..], k) && perm[2 * ROTOR + k] == 0
    ensures ic < k && perm[2 * ROTOR + ic] == 0 && FirstFree(perm[2 * ROTOR..], k, start % k, ic)
  {
    ghost var p := perm[..];
    assert T3(p, k) == 0;
    ghost var u := AnotherFree(p, k);
    var i: nat := start % k;
    ghost var r: nat, d: nat := i, 0;
    ghost var last := if r <= u then u - r else u - r + k;
    assert Behind(r, last, k) == u;
    while perm[2 * ROTOR + i] != 0
      invariant r < k && d <= last < k && i == Behind(r, d, k)
      invariant forall e: nat :: e < d ==> perm[2 * ROTOR + Behind(r, e, k)] != 0
      decreases last - d
    {
      assert T3(p, i) != 0 && T3(p, u) == 0;
      NextSlot(i, k);
      i, d := (i + 1) % k, d + 1;
    }
    ic := i;
    ghost var t3 := perm[2 * ROTOR..];
    assert forall x: nat :: x < ROTOR ==> t3[x] == perm[2 * ROTOR + x];
  }

  /** `t1[i] = i; t3[i] = 0;` for every slot. */
  method Reset(perm: array<byte>) returns (ghost inv: seq<byte>)
    requires perm.Length == PERMSIZE
    modifies perm
    ensures Permuted(perm[..], inv) && Pairing(perm[..], ROTOR - 1)
    ensures (forall x: byte :: T1(perm[..], x) == x) && forall x: byte :: T3(perm[..], x) == 0
  {
    for i := 0 to ROTOR
      invariant forall j :: 0 <= j < i ==> perm[j] == j
      invariant forall j :: 2 * ROTOR <= j < 2 * ROTOR + i ==> perm[j] == 0
    {
      perm[i] := i;
      perm[2 * ROTOR + i] := 0;
    }
    inv := perm[..ROTOR];
    AllZeros(perm[..], ROTOR);
  }

  /** The table with entries k and c exchanged. */
  ghost predicate Exchanged(p: seq<byte>, q: seq<byte>, k: nat, c: nat) {
    |p| == |q| && c <= k < |p| && q == p[k := p[c]][c := p[k]]
  }

  /** The exchange of two entries of t1. */
  method Exchange(perm: array<byte>, k: byte, ic: byte, ghost inv: seq<byte>) returns (ghost inv': seq<byte>)
    requires perm.Length == PERMSIZE && Permuted(perm[..], inv) && ic <= k
    modifies perm
    ensures Permuted(perm[..], inv') && forall x: byte :: T3(perm[..], x) == T3(old(perm[..]), x)
    ensures Exchanged(old(perm[..ROTOR]), perm[..ROTOR], k, ic)
  {
    ghost var p := perm[..];
    var temp := perm[k];
    inv' := inv[perm[k] := ic][perm[ic] := k];
    perm[k] := perm[ic];
    perm[ic] := temp;
    assert perm[..] == p[k := p[ic]][ic := p[k]];
    forall x: byte ensures inv'[T1(perm[..], x)] == x && T1(perm[..], inv'[x]) == x {
      assert inv[T1(p, x)] == x && T1(p, inv[x]) == x && inv[T1(p, k)] == k && inv[T1(p, ic)] == ic;
    }
  }

  /** Two free slots paired with each other. */
  ghost predicate Paired(p: seq<byte>, q: seq<byte>, k: byte, ic: byte) {
    && |p| == |q| == PERMSIZE && T3(q, k) == ic && T3(q, ic) == k
    && forall x: byte :: x != k && x != ic ==> T3(q, x) == T3(p, x)
  }

  lemma PairedKeeps(p: seq<byte>, q: seq<byte>, k: byte, ic: byte)
    requires Pairing(p, k) && T3(p, k) == 0 && T3(p, ic) == 0 && ic < k && Paired(p, q, k, ic)
    ensures Pairing(q, k - 1)
  {
    OneZeroLess(p, q, k, ic);
    forall x: byte | !Free(q, k - 1, x)
      ensures !Free(q, k - 1, T3(q, x)) && T3(q, x) != x && T3(q, T3(q, x)) == x
    {
      if x != k && x != ic {
        assert !Free(p, k, x) && T3(q, x) == T3(p, x);
      }
    }
  }

  /** `t3[k] = ic; t3[ic] = k;` */
  method Pair(perm: array<byte>, k: byte, ic: byte)
    requires perm.Length == PERMSIZE && Pairing(perm[..], k)
    requires perm[2 * ROTOR + k] == 0 && perm[2 * ROTOR + ic] == 0 && ic < k
    modifies perm
    ensures Pairing(perm[..], k - 1) && perm[..ROTOR] == old(perm[..ROTOR])
    ensures perm[2 * ROTOR..] == old(perm[2 * ROTOR..])[k := ic][ic := k]
  {
    assert T3(old(perm[..]), k) == 0 && T3(old(perm[..]), ic) == 0;
    perm[2 * ROTOR + k] := ic;
    perm[2 * ROTOR + ic] := k;
    assert Paired(old(perm[..]), perm[..], k, ic);
    PairedKeeps(old(perm[..]), perm[..], k, ic);
  }

  /** A slot that has its partner already is passed over. */
  lemma PassOver(p: seq<byte>, k: byte)
    requires Pairing(p, k) && T3(p, k) != 0
    ensures Pairing(p, k - 1)
  {
    forall x: byte | !Free(p, k - 1, x)
      ensures !Free(p, k - 1, T3(p, x)) && T3(p, x) != x && T3(p, T3(p, x)) == x
    {
      assert !Free(p, k, x);
    }
  }

  lemma SamePairing(p: seq<byte>, q: seq<byte>, k: byte)
    requires Pairing(p, k) && |q| == PERMSIZE && forall x: byte :: T3(q, x) == T3(p, x)
    ensures Pairing(q, k)
  {
    SameZeros(p, q, k + 1);
    forall x: byte | !Free(q, k, x)
      ensures !Free(q, k, T3(q, x)) && T3(q, x) != x && T3(q, T3(q, x)) == x
    {
      assert !Free(p, k, x) && T3(q, T3(q, x)) == T3(p, T3(p, x));
    }
  }

  /** What a turn does to t3, when r has been drawn: if slot k has no partner yet, it gets the first free one at or
      behind place r, going round. */
  ghost predicate PairTurn(p: seq<byte>, q: seq<byte>, k: nat, r: nat)
    requires |p| == 256 && k < 256
  {
    if p[k] != 0 then q == p
    else k > 0 && exists ic: byte :: FirstFree(p, k, r % k, ic) && q == p[k := ic][ic := k]
  }

  lemma SameFirst(p: seq<byte>, q: seq<byte>)
    requires |p| == |q| == PERMSIZE && forall x: byte :: T1(q, x) == T1(p, x)
    ensures q[..ROTOR] == p[..ROTOR]
  {
    forall x: nat | x < ROTOR ensures q[..ROTOR][x] == p[..ROTOR][x] {
      assert T1(q, x) == T1(p, x);
    }
  }

  lemma SameThird(p: seq<byte>, q: seq<byte>)
    requires |p| == |q| == PERMSIZE && forall x: byte :: T3(q, x) == T3(p, x)
    ensures q[2 * ROTOR..] == p[2 * ROTOR..]
  {
    forall x: nat | x < ROTOR ensures q[2 * ROTOR..][x] == p[2 * ROTOR..][x] {
      assert T3(q, x) == T3(p, x);
    }
  }

  /** The second half of a turn: slot k gets a partner, if it has none. */
  method PairSlot(perm: array<byte>, k: byte, start: nat)
    requires perm.Length == PERMSIZE && Pairing(perm[..], k)
    modifies perm
    ensures Pairing(perm[..], k - 1) && perm[..ROTOR] == old(perm[..ROTOR])
    ensures PairTurn(old(perm[2 * ROTOR..]), perm[2 * ROTOR..], k, start)
  {
    hide Pairing, FirstFree;
    assert T3(perm[..], k) == perm[2 * ROTOR + k] == perm[2 * ROTOR..][k];
    if perm[2 * ROTOR + k] != 0 {
      PassOver(perm[..], k);
    } else {
      var ic := Probe(perm, k, start);
      Pair(perm, k, ic);
    }
  }

  lemma PermutedKept(p: seq<byte>, q: seq<byte>, inv: seq<byte>)
    requires Permuted(p, inv) && |q| == PERMSIZE && p[..ROTOR] == q[..ROTOR]
    ensures Permuted(q, inv)
  {
    forall x: byte ensures T1(q, x) == T1(p, x) {
      assert q[..ROTOR][x] == p[..ROTOR][x];
    }
  }

  /** One turn of the loop over the slots, for slot k. */
  method Turn(perm: array<byte>, k: byte, random: nat, ghost inv: seq<byte>) returns (ghost inv': seq<byte>)
    requires perm.Length == PERMSIZE && Permuted(perm[..], inv) && Pairing(perm[..], k)
    modifies perm
    ensures Permuted(perm[..], inv') && Pairing(perm[..], k - 1)
    ensures Exchanged(old(perm[..ROTOR]), perm[..ROTOR], k, (random % 256) % (k + 1))
    ensures PairTurn(old(perm[2 * ROTOR..]), perm[2 * ROTOR..], k, (random / 256) % 256)
  {
    hide Permuted, Pairing, Exchanged, PairTurn;
    var ic := (random % 256) % (k + 1);
    ghost var p := perm[..];
    inv' := Exchange(perm, k, ic, inv);
    SamePairing(p, perm[..], k);
    SameThird(p, perm[..]);
    ghost var q := perm[..];
    PairSlot(perm, k, (random / 256) % 256);
    PermutedKept(q, perm[..], inv');
  }

  /** What becomes of t1: in turn i entry 255 - i is exchanged with the one that the low byte of the number drawn tells,
      taken modulo the entries that are left. */
  ghost predicate Shuffles(ps: seq<seq<byte>>, draws: nat -> nat) {
    && |ps| == 257 && |ps[0]| == 256 && (forall x :: 0 <= x < 256 ==> ps[0][x] == x)
    && forall i :: 0 <= i < 256 ==> Exchanged(ps[i], ps[i + 1], 255 - i, (draws(i) % 256) % (256 - i))
  }

  /** What becomes of t3: in turn i slot 255 - i is paired, if it is not yet, and the next byte of the number tells
      where the search for a free slot begins. */
  ghost predicate PairsUp(qs: seq<seq<byte>>, draws: nat -> nat) {
    && |qs| == 257 && (forall i :: 0 <= i <= 256 ==> |qs[i]| == 256) && (forall x :: 0 <= x < 256 ==> qs[0][x] == 0)
    && forall i :: 0 <= i < 256 ==> PairTurn(qs[i], qs[i + 1], 255 - i, (draws(i) / 256) % 256)
  }

  lemma {:induction false} ShuffledOnce(ps: seq<seq<byte>>, draws: nat -> nat, n: nat)
    requires Shuffles(ps, draws) && n <= 256
    ensures |ps[n]| == 256 && forall x, y :: 0 <= x < y < 256 ==> ps[n][x] != ps[n][y]
  {
    if n > 0 {
      ShuffledOnce(ps, draws, n - 1);
      assert Exchanged(ps[n - 1], ps[n], 256 - n, (draws(n - 1) % 256) % (257 - n));
    }
  }

  /** An entry that has had its turn stays. */
  lemma {:induction false} EntryStays(ps: seq<seq<byte>>, draws: nat -> nat, n: nat, x: nat)
    requires Shuffles(ps, draws) && n <= 256 && 256 - n <= x < 256
    ensures |ps[n]| == 256 == |ps[256]| && ps[n][x] == ps[256][x]
    decreases 256 - n
  {
    ShuffledOnce(ps, draws, n);
    ShuffledOnce(ps, draws, 256);
    if n < 256 {
      assert Exchanged(ps[n], ps[n + 1], 255 - n, (draws(n) % 256) % (256 - n));
      EntryStays(ps, draws, n + 1, x);
    }
  }

  /** So entry 255 is the first byte that has been drawn. */
  lemma LastEntry(ps: seq<seq<byte>>, draws: nat -> nat)
    requires Shuffles(ps, draws)
    ensures |ps[256]| == 256 && ps[256][255] == draws(0) % 256
  {
    assert Exchanged(ps[0], ps[1], 255, (draws(0) % 256) % 256);
    EntryStays(ps, draws, 1, 255);
  }

  lemma {:induction false} SameDraws(ps: seq<seq<byte>>, qs: seq<seq<byte>>, d: nat -> nat, e: nat -> nat, n: nat)
    requires Shuffles(ps, d) && Shuffles(qs, e) && n <= 256
    requires forall i: nat :: i < n ==> (d(i) % 256) % (256 - i) == (e(i) % 256) % (256 - i)
    ensures ps[n] == qs[n]
  {
    if n > 0 {
      SameDraws(ps, qs, d, e, n - 1);
      assert Exchanged(ps[n - 1], ps[n], 256 - n, (d(n - 1) % 256) % (257 - n));
      assert Exchanged(qs[n - 1], qs[n], 256 - n, (e(n - 1) % 256) % (257 - n));
    }
  }

  lemma {:induction false} DrawnBack(ps: seq<seq<byte>>, qs: seq<seq<byte>>, d: nat -> nat, e: nat -> nat, n: nat)
    requires Shuffles(ps, d) && Shuffles(qs, e) && n <= 256 && ps[256] == qs[256]
    ensures forall i: nat :: i < n ==> (d(i) % 256) % (256 - i) == (e(i) % 256) % (256 - i)
  {
    if n > 0 {
      var m := n - 1;
      DrawnBack(ps, qs, d, e, m);
      SameDraws(ps, qs, d, e, m);
      var c, c' := (d(m) % 256) % (256 - m), (e(m) % 256) % (256 - m);
      assert Exchanged(ps[m], ps[n], 255 - m, c) && Exchanged(qs[m], qs[n], 255 - m, c');
      EntryStays(ps, d, n, 255 - m);
      EntryStays(qs, e, n, 255 - m);
      ShuffledOnce(ps, d, m);
      assert ps[m][c] == ps[m][c'];
    }
  }

  /** Two keys make the same t1 exactly if in every turn the low bytes that are drawn agree, modulo the entries that are
      left. */
  lemma SameShuffle(ps: seq<seq<byte>>, qs: seq<seq<byte>>, d: nat -> nat, e: nat -> nat)
    requires Shuffles(ps, d) && Shuffles(qs, e)
    ensures ps[256] == qs[256] <==>
            forall i: nat :: i < 256 ==> (d(i) % 256) % (256 - i) == (e(i) % 256) % (256 - i)
  {
    if ps[256] == qs[256] {
      DrawnBack(ps, qs, d, e, 256);
    }
    if forall i: nat :: i < 256 ==> (d(i) % 256) % (256 - i) == (e(i) % 256) % (256 - i) {
      SameDraws(ps, qs, d, e, 256);
    }
  }

  lemma NotBefore(t3: seq<byte>, k: nat, r: nat, d: nat, e: nat)
    requires |t3| == 256 && r < k < 256 && d < k && e < k && t3[Behind(r, d, k)] == 0 && TakenTo(t3, k, r, e)
    ensures e <= d
  {
  }

  lemma OneFirstFree(t3: seq<byte>, k: nat, r: nat, a: nat, b: nat)
    requires |t3| == 256 && FirstFree(t3, k, r, a) && FirstFree(t3, k, r, b)
    ensures a == b
  {
    var d: nat :| d < k && Behind(r, d, k) == a && t3[a] == 0 && TakenTo(t3, k, r, d);
    var e: nat :| e < k && Behind(r, e, k) == b && t3[b] == 0 && TakenTo(t3, k, r, e);
    NotBefore(t3, k, r, d, e);
    NotBefore(t3, k, r, e, d);
  }

  /** And the same t3 if the next bytes agree. */
  lemma {:induction false} SamePairs(ps: seq<seq<byte>>, qs: seq<seq<byte>>, d: nat -> nat, e: nat -> nat, n: nat)
    requires PairsUp(ps, d) && PairsUp(qs, e) && n <= 256
    requires forall i: nat :: i < 256 ==> (d(i) / 256) % 256 == (e(i) / 256) % 256
    ensures ps[n] == qs[n]
  {
    if n > 0 {
      var k := 256 - n;
      SamePairs(ps, qs, d, e, n - 1);
      var r := (d(n - 1) / 256) % 256;
      assert PairTurn(ps[n - 1], ps[n], k, r) && PairTurn(qs[n - 1], qs[n], k, r);
      if ps[n - 1][k] == 0 {
        var a: byte :| FirstFree(ps[n - 1], k, r % k, a) && ps[n] == ps[n - 1][k := a][a := k];
        var b: byte :| FirstFree(ps[n - 1], k, r % k, b) && qs[n] == ps[n - 1][k := b][b := k];
        OneFirstFree(ps[n - 1], k, r % k, a, b);
      }
    }
  }

  /** The tables before turn n. */
  ghost predicate Drawing(perm: seq<byte>, ps: seq<seq<byte>>, qs: seq<seq<byte>>, draws: nat -> nat, n: nat) {
    && |perm| == PERMSIZE && n <= 256 && |ps| == |qs| == n + 1
    && ps[n] == perm[..ROTOR] && qs[n] == perm[2 * ROTOR..]
    && |ps[0]| == 256 && (forall x :: 0 <= x < 256 ==> ps[0][x] == x)
    && (forall i :: 0 <= i <= n ==> |qs[i]| == 256) && (forall x :: 0 <= x < 256 ==> qs[0][x] == 0)
    && (forall i :: 0 <= i < n ==> Exchanged(ps[i], ps[i + 1], 255 - i, (draws(i) % 256) % (256 - i)))
    && forall i :: 0 <= i < n ==> PairTurn(qs[i], qs[i + 1], 255 - i, (draws(i) / 256) % 256)
  }

  lemma DrawingFirst(perm: seq<byte>, draws: nat -> nat)
    requires |perm| == PERMSIZE
    requires (forall x: byte :: T1(perm, x) == x) && forall x: byte :: T3(perm, x) == 0
    ensures Drawing(perm, [perm[..ROTOR]], [perm[2 * ROTOR..]], draws, 0)
  {
    forall x: nat | x < 256 ensures perm[x] == x && perm[2 * ROTOR..][x] == 0 {
      assert T1(perm, x) == x && T3(perm, x) == 0;
    }
  }

  lemma DrawingMore(p: seq<byte>, q: seq<byte>, ps: seq<seq<byte>>, qs: seq<seq<byte>>, draws: nat -> nat, n: nat)
    requires Drawing(p, ps, qs, draws, n) && n < 256 && |q| == PERMSIZE
    requires Exchanged(p[..ROTOR], q[..ROTOR], 255 - n, (draws(n) % 256) % (256 - n))
    requires PairTurn(p[2 * ROTOR..], q[2 * ROTOR..], 255 - n, (draws(n) / 256) % 256)
    ensures Drawing(q, ps + [q[..ROTOR]], qs + [q[2 * ROTOR..]], draws, n + 1)
  {
    hide Exchanged, PairTurn;
  }

  /** `crinit`: with a null key the tables are left alone. Otherwise they are filled in; `draws(i)` is the
      pseudo-random number (`seed % 65521`, as an unsigned) of turn i. */
  method CrInit(key0: int, draws: nat -> nat, perm: array<byte>)
    returns (ok: bool, ghost ps: seq<seq<byte>>, ghost qs: seq<seq<byte>>)
    requires perm.Length == PERMSIZE
    modifies perm
    ensures ok <==> key0 != 0
    ensures if ok then Good(perm[..]) else perm[..] == old(perm[..])
    ensures ok ==> Shuffles(ps, draws) && perm[..ROTOR] == ps[256]
    ensures ok ==> PairsUp(qs, draws) && perm[2 * ROTOR..] == qs[256]
  {
    ps, qs := [], [];
    if key0 == 0 {
      return false, ps, qs;
    }
    ghost var inv := Reset(perm);
    DrawingFirst(perm[..], draws);
    ps, qs := [perm[..ROTOR]], [perm[2 * ROTOR..]];
    hide Permuted, Pairing, Exchanged, PairTurn, Drawing;
    for i := 0 to ROTOR
      invariant Permuted(perm[..], inv) && Pairing(perm[..], ROTOR - 1 - i)
      invariant Drawing(perm[..], ps, qs, draws, i)
    {
      ghost var p := perm[..];
      inv := Turn(perm, ROTOR - 1 - i, draws(i), inv);
      DrawingMore(p, perm[..], ps, qs, draws, i);
      ps, qs := ps + [perm[..ROTOR]], qs + [perm[2 * ROTOR..]];
    }
    DrawingAll(perm[..], ps, qs, draws);
    Invert(perm, inv);
    ok := true;
  }

  lemma DrawingAll(perm: seq<byte>, ps: seq<seq<byte>>, qs: seq<seq<byte>>, draws: nat -> nat)
    requires Drawing(perm, ps, qs, draws, 256)
    ensures Shuffles(ps, draws) && perm[..ROTOR] == ps[256]
    ensures PairsUp(qs, draws) && perm[2 * ROTOR..] == qs[256]
  {
  }

  /** `t2[t1[i]] = i` for every slot. */
  method Invert(perm: array<byte>, ghost inv: seq<byte>)
    requires perm.Length == PERMSIZE && Permuted(perm[..], inv) && Pairing(perm[..], -1)
    modifies perm
    ensures Good(perm[..]) && perm[..ROTOR] == old(perm[..ROTOR]) && perm[2 * ROTOR..] == old(perm[2 * ROTOR..])
  {
    ghost var p := perm[..];
    for i := 0 to ROTOR
      invariant forall x: byte :: T1(perm[..], x) == T1(p, x) && T3(perm[..], x) == T3(p, x)
      invariant forall x: byte :: x < i ==> T2(perm[..], T1(p, x)) == x
    {
      ghost var q := perm[..];
      assert inv[T1(p, i)] == i;
      assert perm[i] == T1(perm[..], i) == T1(p, i);
      perm[ROTOR + perm[i]] := i;
      forall x: byte | x < i ensures T2(perm[..], T1(p, x)) == x {
        assert inv[T1(p, x)] == x;
        assert T2(q, T1(p, x)) == x;
      }
    }
    ghost var q := perm[..];
    SameThird(p, q);
    SameFirst(p, q);
    forall x: byte ensures T2(q, T1(q, x)) == x && T1(q, T2(q, x)) == x {
      assert T2(q, T1(p, x)) == x;
      assert T1(p, inv[x]) == x && T2(q, T1(p, inv[x])) == inv[x];
    }
    forall x: byte ensures T3(q, T3(q, x)) == x && T3(q, x) != x {
      assert !Free(p, -1, x);
    }
  }
}
