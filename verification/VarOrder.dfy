/** The order in which csh keeps variable and alias names (bin/csh/str.c, bin/csh/set.c). */
module VarOrder {

  /** A character of a csh string: a signed 16-bit value; zero ends a string and is no character. */
  type Char = c: int | -0x8000 <= c < 0x8000 && c != 0 witness 1

  type Name = seq<Char>

  /** Lexicographic comparison in which a proper prefix comes first. */
  function Strcmp(a: Name, b: Name): int {
    if a != [] && b != [] && a[0] == b[0] then Strcmp(a[1..], b[1..])
    else if a == [] && b == [] then 0
    else if a == [] then -1
    else if b == [] then 1
    else (a[0] as int) - (b[0] as int)
  }

  /** What `*name` reads: the first character, or the terminating zero. */
  function First(a: Name): int {
    if a == [] then 0 else a[0]
  }

  /** The two-stage comparison of the tree walks: first characters, then the whole strings. */
  function Compare(a: Name, b: Name): int {
    if First(a) != First(b) then First(a) - First(b) else Strcmp(a, b)
  }

  ghost predicate Less(a: Name, b: Name) {
    Compare(a, b) < 0
  }

  lemma {:induction false} StrcmpIsOrder(a: Name, b: Name)
    ensures Strcmp(a, b) == 0 <==> a == b
    ensures Strcmp(a, b) < 0 <==> Strcmp(b, a) > 0
  {
    if a != [] && b != [] && a[0] == b[0] {
      StrcmpIsOrder(a[1..], b[1..]);
      assert a == [a[0]] + a[1..] && b == [b[0]] + b[1..];
    }
  }

  lemma {:induction false} StrcmpTransitive(a: Name, b: Name, c: Name)
    requires Strcmp(a, b) < 0 && Strcmp(b, c) < 0
    requires First(a) == First(b) == First(c)
    ensures Strcmp(a, c) < 0
  {
    StrcmpIsOrder(a, b);
    StrcmpIsOrder(b, c);
    if a != [] {
      StrcmpTail(a[1..], b[1..], c[1..]);
    }
  }

  lemma {:induction false} StrcmpTail(a: Name, b: Name, c: Name)
    requires Strcmp(a, b) < 0 && Strcmp(b, c) < 0
    ensures Strcmp(a, c) < 0
  {
    if a != [] && c != [] && a[0] == b[0] == c[0] {
      StrcmpTail(a[1..], b[1..], c[1..]);
    }
  }

  /** The comparison decides equality and is a strict total order, although its first stage
      ranks the empty name among the signed characters while Strcmp ranks it below all of them. */
  lemma CompareIsTotalOrder(a: Name, b: Name, c: Name)
    ensures Compare(a, b) == 0 <==> a == b
    ensures Compare(a, b) < 0 <==> Compare(b, a) > 0
    ensures Less(a, b) && Less(b, c) ==> Less(a, c)
  {
    StrcmpIsOrder(a, b);
    if Less(a, b) && Less(b, c) && First(a) == First(c) {
      StrcmpTransitive(a, b, c);
    }
  }

  /** Name a comes first: at place k, the first at which they differ, it has ended, or has the smaller character as a
      signed number. */
  ghost predicate Precedes(a: Name, b: Name, k: nat) {
    && k <= |a| && k < |b| && a[..k] == b[..k]
    && (k == |a| || (a[k] as int) < (b[k] as int))
  }

  lemma PrecedesOn(a: Name, b: Name, k: nat)
    requires a != [] && b != [] && a[0] == b[0]
    ensures Precedes(a[1..], b[1..], k) <==> Precedes(a, b, k + 1)
    ensures !Precedes(a, b, 0)
  {
    if k < |a| && k < |b| {
      assert a[..k + 1] == [a[0]] + a[1..][..k] && b[..k + 1] == [b[0]] + b[1..][..k];
      assert a[1..][..k] == a[..k + 1][1..] && b[1..][..k] == b[..k + 1][1..];
    }
  }

  lemma PrecedesFirst(a: Name, b: Name, k: nat)
    requires a != [] && b != [] && a[0] != b[0]
    ensures Precedes(a, b, k) <==> k == 0 && a[0] < b[0]
  {
    if 0 < k <= |a| && k < |b| {
      assert a[..k][0] == a[0] && b[..k][0] == b[0];
    }
  }

  lemma {:induction false} StrcmpExactly(a: Name, b: Name)
    ensures Strcmp(a, b) < 0 <==> exists k: nat :: Precedes(a, b, k)
  {
    if a == [] || b == [] {
      assert b != [] ==> Precedes(a, b, 0);
    } else if a[0] == b[0] {
      StrcmpExactly(a[1..], b[1..]);
      forall k: nat ensures Precedes(a[1..], b[1..], k) <==> Precedes(a, b, k + 1) {
        PrecedesOn(a, b, k);
      }
      if k: nat :| Precedes(a, b, k) {
        PrecedesOn(a, b, 0);
        assert Precedes(a[1..], b[1..], k - 1);
      }
    } else {
      forall k: nat ensures Precedes(a, b, k) <==> k == 0 && a[0] < b[0] {
        PrecedesFirst(a, b, k);
      }
      assert Precedes(a, b, 0) <==> a[0] < b[0];
    }
  }

  /** The order in which names are listed: by the first character in which they differ, as a signed number; a name that
      is the beginning of another comes first, but the empty name stands where a zero would. */
  ghost predicate InFront(a: Name, b: Name) {
    if a == [] then b != [] && b[0] > 0
    else if b == [] then a[0] < 0
    else exists k: nat :: Precedes(a, b, k)
  }

  /** That is the order of the trees. */
  lemma LessExactly(a: Name, b: Name)
    ensures Less(a, b) <==> InFront(a, b)
  {
    if a != [] && b != [] {
      if a[0] == b[0] {
        StrcmpExactly(a, b);
      } else {
        forall k: nat ensures Precedes(a, b, k) <==> k == 0 && a[0] < b[0] {
          PrecedesFirst(a, b, k);
        }
        assert Precedes(a, b, 0) <==> a[0] < b[0];
      }
    }
  }
}
