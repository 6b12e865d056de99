/** The line array of ed: cell zero stands for the place before the first line, and the lines are in the cells
    from 1 to `dol` (bin/ed/ed.c). */
module EdLines {

  /** The low bit of a cell is the mark of `global`. */
  predicate Marked(x: int) {
    x % 2 == 1
  }

  function Unmark(x: int): int {
    x - x % 2
  }

  function UnmarkAll(s: seq<int>): (t: seq<int>)
    ensures |t| == |s| && forall i :: 0 <= i < |s| ==> t[i] == Unmark(s[i])
  {
    if s == [] then [] else [Unmark(s[0])] + UnmarkAll(s[1..])
  }

  /** `reverse`: the cells from a1 on and before a2, the other way round. */
  method Reverse(zero: array<int>, a1: nat, a2: nat)
    requires 0 < a1 <= a2 <= zero.Length
    modifies zero
    ensures forall k :: a1 <= k < a2 ==> zero[k] == old(zero[a1 + a2 - 1 - k])
    ensures forall k :: 0 <= k < zero.Length && !(a1 <= k < a2) ==> zero[k] == old(zero[k])
  {
    var p, q := a1, a2;
    while true
      invariant a1 <= p && q <= a2 && p + q == a1 + a2 && p <= q + 1
      invariant forall k :: p <= k < q ==> zero[k] == old(zero[k])
      invariant forall k :: a1 <= k < p || q <= k < a2 ==> zero[k] == old(zero[a1 + a2 - 1 - k])
      invariant forall k :: 0 <= k < zero.Length && !(a1 <= k < a2) ==> zero[k] == old(zero[k])
      decreases q
    {
      q := q - 1;
      var t := zero[q];
      if q <= p {
        return;
      }
      zero[q] := zero[p];
      zero[p] := t;
      p := p + 1;
    }
  }

  /** u is t with the neighbouring blocks from `a` to `b` and from `b` to `c` in the other order. */
  ghost predicate Swapped(t: seq<int>, u: seq<int>, a: nat, b: nat, c: nat)
    requires a <= b <= c <= |t| == |u|
  {
    && u[..a] == t[..a] && u[c..] == t[c..]
    && u[a..a + (c - b)] == t[b..c] && u[a + (c - b)..c] == t[a..b]
  }

  /** The three reversals of `move`. */
  method Swap(zero: array<int>, a: nat, b: nat, c: nat)
    requires 0 < a <= b <= c <= zero.Length
    modifies zero
    ensures Swapped(old(zero[..]), zero[..], a, b, c)
  {
    Reverse(zero, a, b);
    Reverse(zero, b, c);
    Reverse(zero, a, c);
    ghost var d := a + (c - b);
    assert forall k :: a <= k < d ==> zero[k] == old(zero[k + (b - a)]);
    assert forall k :: d <= k < c ==> zero[k] == old(zero[k - (c - b)]);
  }

  lemma SwappedPrefix(t: seq<int>, u: seq<int>, a: nat, b: nat, c: nat, n: nat)
    requires a <= b <= c <= n <= |t| == |u| && Swapped(t, u, a, b, c)
    ensures Swapped(t[..n], u[..n], a, b, c)
  {
    assert u[..n][c..] == u[c..][..n - c] == t[c..][..n - c] == t[..n][c..];
    assert u[..n][..a] == u[..a] && t[..n][..a] == t[..a];
    assert u[..n][a..a + (c - b)] == u[a..a + (c - b)] && t[..n][b..c] == t[b..c];
    assert u[..n][a + (c - b)..c] == u[a + (c - b)..c] && t[..n][a..b] == t[a..b];
  }

  /** The cells with the lines from a1 to a2 taken out and put behind line adt, their marks removed. */
  function Moved(s: seq<int>, a1: nat, a2: nat, adt: nat): (t: seq<int>)
    requires 0 < a1 <= a2 < |s| && adt < |s| && (adt < a1 || adt > a2)
    ensures |t| == |s|
  {
    var block := UnmarkAll(s[a1..a2 + 1]);
    if adt < a1 then s[..adt + 1] + block + s[adt + 1..a1] + s[a2 + 1..]
    else s[..a1] + s[a2 + 1..adt + 1] + block + s[adt + 1..]
  }

  /** Where line i comes to be. */
  function MovedTo(i: nat, a1: nat, a2: nat, adt: nat): int {
    if a1 <= i <= a2 then if adt < a1 then adt + 1 + (i - a1) else adt - (a2 - i)
    else if adt < i < a1 then i + (a2 - a1 + 1)
    else if a2 < i <= adt then i - (a2 - a1 + 1)
    else i
  }

  /** Every line has a place of its own; those of the block are behind line adt in their order, without their marks,
      and the others are as they were. */
  lemma MovedLine(s: seq<int>, a1: nat, a2: nat, adt: nat, i: nat)
    requires 0 < a1 <= a2 < |s| && adt < |s| && (adt < a1 || adt > a2) && i < |s|
    ensures 0 <= MovedTo(i, a1, a2, adt) < |s|
    ensures Moved(s, a1, a2, adt)[MovedTo(i, a1, a2, adt)] == if a1 <= i <= a2 then Unmark(s[i]) else s[i]
    ensures forall j :: 0 <= j < |s| && j != i ==> MovedTo(j, a1, a2, adt) != MovedTo(i, a1, a2, adt)
    ensures a1 <= i <= a2 ==> MovedTo(i, a1, a2, adt) == MovedTo(adt, a1, a2, adt) + 1 + (i - a1)
    ensures !(a1 <= i <= a2) ==>
      forall j: nat :: i < j && !(a1 <= j <= a2) ==> MovedTo(i, a1, a2, adt) < MovedTo(j, a1, a2, adt)
    ensures i == a2 ==> LastMoved(a1, a2, adt) == MovedTo(i, a1, a2, adt)
  {
    if adt < a1 {
      MovedLineDown(s, a1, a2, adt, i);
    } else {
      MovedLineUp(s, a1, a2, adt, i);
    }
  }

  lemma MovedLineDown(s: seq<int>, a1: nat, a2: nat, adt: nat, i: nat)
    requires adt < a1 <= a2 < |s| && i < |s|
    ensures var k := MovedTo(i, a1, a2, adt);
      0 <= k < |s| && Moved(s, a1, a2, adt)[k] == if a1 <= i <= a2 then Unmark(s[i]) else s[i]
  {
    var a, b, c, d := s[..adt + 1], UnmarkAll(s[a1..a2 + 1]), s[adt + 1..a1], s[a2 + 1..];
    assert Moved(s, a1, a2, adt) == a + b + c + d;
    hide Moved, UnmarkAll;
    Piece(a, b, c, d, MovedTo(i, a1, a2, adt));
  }

  lemma MovedLineUp(s: seq<int>, a1: nat, a2: nat, adt: nat, i: nat)
    requires 0 < a1 <= a2 < adt < |s| && i < |s|
    ensures var k := MovedTo(i, a1, a2, adt);
      0 <= k < |s| && Moved(s, a1, a2, adt)[k] == if a1 <= i <= a2 then Unmark(s[i]) else s[i]
  {
    var a, b, c, d := s[..a1], s[a2 + 1..adt + 1], UnmarkAll(s[a1..a2 + 1]), s[adt + 1..];
    assert Moved(s, a1, a2, adt) == a + b + c + d;
    hide Moved, UnmarkAll;
    Piece(a, b, c, d, MovedTo(i, a1, a2, adt));
  }

  /** Where to find the cells of four pieces. */
  lemma Piece(a: seq<int>, b: seq<int>, c: seq<int>, d: seq<int>, k: nat)
    requires k < |a| + |b| + |c| + |d|
    ensures var t, i, j := a + b + c + d, |a| + |b|, |a| + |b| + |c|;
      t[k] == if k < |a| then a[k] else if k < i then b[k - |a|] else if k < j then c[k - i] else d[k - j]
  {
  }

  lemma MovedPieces(s: seq<int>, a1: nat, a2: nat, adt: nat)
    requires 0 < a1 <= a2 < |s| && adt < |s| && (adt < a1 || adt > a2) && UnmarkAll(s[a1..a2 + 1]) == s[a1..a2 + 1]
    ensures var t, m := Moved(s, a1, a2, adt), a2 - a1 + 1;
      if adt < a1 then
        && t[..adt + 1] == s[..adt + 1] && t[adt + 1..adt + 1 + m] == s[a1..a2 + 1]
        && t[adt + 1 + m..a2 + 1] == s[adt + 1..a1] && t[a2 + 1..] == s[a2 + 1..]
      else
        && t[..a1] == s[..a1] && t[a1..adt + 1 - m] == s[a2 + 1..adt + 1]
        && t[adt + 1 - m..adt + 1] == s[a1..a2 + 1] && t[adt + 1..] == s[adt + 1..]
  {
  }

  lemma MovedUpIs(t: seq<int>, a1: nat, a2: nat, adt: nat)
    requires 0 < a1 <= a2 < adt < |t| && UnmarkAll(t[a1..a2 + 1]) == t[a1..a2 + 1]
    ensures Moved(t, a1, a2, adt) == t[..a1] + t[a2 + 1..adt + 1] + t[a1..a2 + 1] + t[adt + 1..]
  {
  }

  lemma MovedDownIs(t: seq<int>, a1: nat, a2: nat, adt: nat)
    requires adt < a1 <= a2 < |t| && UnmarkAll(t[a1..a2 + 1]) == t[a1..a2 + 1]
    ensures Moved(t, a1, a2, adt) == t[..adt + 1] + t[a1..a2 + 1] + t[adt + 1..a1] + t[a2 + 1..]
  {
  }

  lemma MovedDownBack(s: seq<int>, a1: nat, a2: nat, adt: nat)
    requires adt + 1 < a1 <= a2 < |s| && UnmarkAll(s[a1..a2 + 1]) == s[a1..a2 + 1]
    ensures Moved(Moved(s, a1, a2, adt), adt + 1, adt + (a2 - a1 + 1), a2) == s
  {
    hide Moved, UnmarkAll;
    MovedPieces(s, a1, a2, adt);
    MovedUpIs(Moved(s, a1, a2, adt), adt + 1, adt + (a2 - a1 + 1), a2);
    FourPieces(s, adt + 1, a1, a2 + 1);
  }

  lemma MovedUpBack(s: seq<int>, a1: nat, a2: nat, adt: nat)
    requires 0 < a1 <= a2 < adt < |s| && UnmarkAll(s[a1..a2 + 1]) == s[a1..a2 + 1]
    ensures Moved(Moved(s, a1, a2, adt), adt - (a2 - a1), adt, a1 - 1) == s
  {
    hide Moved, UnmarkAll;
    MovedPieces(s, a1, a2, adt);
    MovedDownIs(Moved(s, a1, a2, adt), adt - (a2 - a1), adt, a1 - 1);
    FourPieces(s, a1, a2 + 1, adt + 1);
  }

  /** Lines that are not marked can be moved back to where they were, and lines moved to where they are stay. */
  lemma MovedBack(s: seq<int>, a1: nat, a2: nat, adt: nat)
    requires 0 < a1 <= a2 < |s| && adt < |s| && (adt < a1 || adt > a2) && UnmarkAll(s[a1..a2 + 1]) == s[a1..a2 + 1]
    ensures var t, m := Moved(s, a1, a2, adt), a2 - a1 + 1;
      if adt + 1 == a1 then t == s
      else s == if adt < a1 then Moved(t, adt + 1, adt + m, a2) else Moved(t, adt + 1 - m, adt, a1 - 1)
  {
    if adt + 1 == a1 {
      FourPieces(s, adt + 1, a1, a2 + 1);
    } else if adt < a1 {
      MovedDownBack(s, a1, a2, adt);
    } else {
      MovedUpBack(s, a1, a2, adt);
    }
  }

  /** Where the last of the moved lines is. */
  function LastMoved(a1: nat, a2: nat, adt: nat): int {
    if adt < a1 then adt + (a2 - a1 + 1) else adt
  }

  lemma FourPieces(u: seq<int>, i: nat, j: nat, k: nat)
    requires i <= j <= k <= |u|
    ensures u == u[..i] + u[i..j] + u[j..k] + u[k..]
  {
  }

  /** The cells with the marks of the lines from a1 to a2 taken off. */
  ghost predicate Cleared(s: seq<int>, t: seq<int>, a1: nat, a2: nat)
    requires a1 <= a2 < |s| == |t|
  {
    t[..a1] == s[..a1] && t[a1..a2 + 1] == UnmarkAll(s[a1..a2 + 1]) && t[a2 + 1..] == s[a2 + 1..]
  }

  lemma ClearedCells(s: seq<int>, t: seq<int>, a1: nat, a2: nat)
    requires a1 <= a2 < |s| == |t|
    requires forall k :: 0 <= k < |s| ==> t[k] == if a1 <= k <= a2 then Unmark(s[k]) else s[k]
    ensures Cleared(s, t, a1, a2)
  {
  }

  lemma SwappedDown(s: seq<int>, t: seq<int>, u: seq<int>, a1: nat, a2: nat, adt: nat)
    requires 0 < a1 <= a2 < |s| && adt < a1 && |t| == |s| == |u|
    requires Cleared(s, t, a1, a2) && Swapped(t, u, adt + 1, a1, a2 + 1)
    ensures u == Moved(s, a1, a2, adt)
  {
    FourPieces(u, adt + 1, adt + 1 + (a2 + 1 - a1), a2 + 1);
    assert t[..adt + 1] == t[..a1][..adt + 1] == s[..adt + 1];
    assert t[adt + 1..a1] == t[..a1][adt + 1..] == s[adt + 1..a1];
  }

  lemma SwappedUp(s: seq<int>, t: seq<int>, u: seq<int>, a1: nat, a2: nat, adt: nat)
    requires 0 < a1 <= a2 < adt < |s| && |t| == |s| == |u|
    requires Cleared(s, t, a1, a2) && Swapped(t, u, a1, a2 + 1, adt + 1)
    ensures u == Moved(s, a1, a2, adt)
  {
    FourPieces(u, a1, a1 + (adt - a2), adt + 1);
    assert t[a2 + 1..adt + 1] == t[a2 + 1..][..adt - a2] == s[a2 + 1..adt + 1];
    assert t[adt + 1..] == t[a2 + 1..][adt - a2..] == s[adt + 1..];
  }

  /** What `rdelete` leaves. */
  function Deleted(s: seq<int>, a1: nat, a2: nat): seq<int>
    requires 0 < a1 <= a2 < |s|
  {
    s[..a1] + s[a2 + 1..]
  }

  lemma DeletedCells(was: seq<int>, z: seq<int>, a1: nat, a2: nat, n: nat)
    requires 0 < a1 <= a2 < n <= |was| == |z|
    requires forall k :: 0 <= k < a1 ==> z[k] == was[k]
    requires forall k :: a1 <= k < n - (a2 + 1 - a1) ==> z[k] == was[k + (a2 + 1 - a1)]
    ensures z[..n - (a2 + 1 - a1)] == Deleted(was[..n], a1, a2)
  {
  }

  /** The loop of `rdelete`: it copies at least one cell, the one behind the last line if there is no other. `beyond`:
      that is a cell that the array does not have. (What is read there does not matter.) */
  method CloseUp(zero: array<int>, ad1: nat, ad2: nat, last: nat) returns (beyond: bool)
    requires 0 < ad1 <= ad2 <= last < zero.Length
    modifies zero
    ensures beyond <==> ad2 + 1 == zero.Length
    ensures zero[..last + 1 - (ad2 + 1 - ad1)] == Deleted(old(zero[..last + 1]), ad1, ad2)
  {
    hide Deleted;
    ghost var was := zero[..];
    var p, q := ad1, ad2 + 1;
    beyond := q == zero.Length;
    while !beyond
      invariant beyond <==> ad2 + 1 == zero.Length
      invariant q - p == ad2 + 1 - ad1 && ad1 <= p && q <= last + 1 <= |was| == zero.Length
      invariant !beyond ==> q < zero.Length
      invariant forall k :: 0 <= k < ad1 ==> zero[k] == was[k]
      invariant forall k :: ad1 <= k < p ==> zero[k] == was[k + (ad2 + 1 - ad1)]
      invariant forall k :: p <= k < |was| ==> zero[k] == was[k]
      decreases last + 1 - q
    {
      zero[p] := zero[q];
      p, q := p + 1, q + 1;
      if q > last {
        break;
      }
    }
    DeletedCells(was, zero[..], ad1, ad2, last + 1);
    assert was[..last + 1] == old(zero[..last + 1]);
  }

  /** Lines behind line a. */
  function Inserted(s: seq<int>, a: nat, lines: seq<int>): seq<int>
    requires a < |s|
  {
    s[..a + 1] + lines + s[a + 1..]
  }

  /** Where each line is after a deletion, and after an insertion. */
  lemma LinesStay(s: seq<int>, a1: nat, a2: nat, lines: seq<int>, i: nat)
    requires 0 < a1 <= a2 < |s| && i < |s|
    ensures var n := a2 + 1 - a1;
      && |Deleted(s, a1, a2)| == |s| - n && (i < a1 ==> Deleted(s, a1, a2)[i] == s[i])
      && (i > a2 ==> Deleted(s, a1, a2)[i - n] == s[i])
    ensures var t := Inserted(s, a1, lines);
      && |t| == |s| + |lines| && (i <= a1 ==> t[i] == s[i]) && (i > a1 ==> t[i + |lines|] == s[i])
      && forall k :: 0 <= k < |lines| ==> t[a1 + 1 + k] == lines[k]
  {
  }

  /** The lines of the editor. */
  class LineTable {
    var zero: array<int>
    var dot: nat
    var dol: nat
    var fchange: bool

    ghost predicate Valid()
      reads this
    {
      dol < zero.Length && dot <= dol
    }

    /** The cells from zero to `dol`. */
    ghost function Cells(): (s: seq<int>)
      requires Valid()
      reads this, zero
      ensures |s| == dol + 1
    {
      zero[..dol + 1]
    }

    constructor ()
      ensures Valid() && Cells() == [0] && fresh(zero) && zero.Length == 128
    {
      zero := new int[128](_ => 0);
      dot, dol, fchange := 0, 0, false;
    }

    /** The first loop of `move`: the marks of the lines are taken off. */
    method TakeMarks(a1: nat, a2: nat)
      requires Valid() && 0 < a1 <= a2 <= dol
      modifies zero
      ensures Cleared(old(Cells()), Cells(), a1, a2)
    {
      var p := a1;
      while p <= a2
        invariant a1 <= p <= a2 + 1
        invariant forall k :: 0 <= k < zero.Length ==>
          zero[k] == if a1 <= k < p then Unmark(old(zero[k])) else old(zero[k])
      {
        zero[p] := Unmark(zero[p]);
        p := p + 1;
      }
      ClearedCells(old(Cells()), Cells(), a1, a2);
    }

    method SwapLines(a: nat, b: nat, c: nat)
      requires Valid() && 0 < a <= b <= c <= dol + 1
      modifies zero
      ensures Swapped(old(Cells()), Cells(), a, b, c)
    {
      ghost var z := zero[..];
      Swap(zero, a, b, c);
      SwappedPrefix(z, zero[..], a, b, c, dol + 1);
    }

    method SwapUnlessThere(a: nat, b: nat, c: nat)
      requires Valid() && 0 < a <= b <= c <= dol + 1
      modifies zero, this`fchange
      ensures Swapped(old(Cells()), Cells(), a, b, c) && fchange == (old(fchange) || a != b)
    {
      if a != b {
        SwapLines(a, b, c);
        fchange := true;
      }
    }

    /** The part of `move` that goes towards the front; s are the cells with their marks. */
    method MoveDown(ad1: nat, ad2: nat, adt: nat, ghost s: seq<int>)
      requires Valid() && 0 < ad1 < ad2 <= dol + 1 == |s| && adt < ad1 && Cleared(s, Cells(), ad1, ad2 - 1)
      modifies zero, this`dot, this`fchange
      ensures Valid() && Cells() == Moved(s, ad1, ad2 - 1, adt) && dot == LastMoved(ad1, ad2 - 1, adt)
      ensures fchange == (old(fchange) || adt + 1 != ad1)
    {
      hide Moved, Cleared, Swapped;
      ghost var t := Cells();
      dot := adt + (ad2 - ad1);
      SwapUnlessThere(adt + 1, ad1, ad2);
      SwappedDown(s, t, Cells(), ad1, ad2 - 1, adt);
    }

    method MoveUp(ad1: nat, ad2: nat, adt: nat, ghost s: seq<int>)
      requires Valid() && 0 < ad1 < ad2 <= adt < dol + 1 == |s| && Cleared(s, Cells(), ad1, ad2 - 1)
      modifies zero, this`dot, this`fchange
      ensures Valid() && Cells() == Moved(s, ad1, ad2 - 1, adt) && dot == LastMoved(ad1, ad2 - 1, adt) && fchange
    {
      hide Moved, Cleared, Swapped;
      ghost var t := Cells();
      dot := adt;
      SwapLines(ad1, ad2, adt + 1);
      SwappedUp(s, t, Cells(), ad1, ad2 - 1, adt);
      fchange := true;
    }

    /** `move`, when it does not copy: the lines from addr1 to addr2 are put behind line adt, which is not one
        of them, and the last of them is the current one. */
    method Move(addr1: nat, addr2: nat, adt: nat) returns (ok: bool)
      requires Valid() && 0 < addr1 <= addr2 <= dol && adt <= dol
      modifies zero, this`dot, this`fchange
      ensures Valid() && (ok <==> adt < addr1 || adt > addr2)
      ensures ok ==> Cells() == Moved(old(Cells()), addr1, addr2, adt) && dot == LastMoved(addr1, addr2, adt)
      ensures !ok ==> dot == old(dot) && Cleared(old(Cells()), Cells(), addr1, addr2)
      ensures fchange == (old(fchange) || (ok && adt + 1 != addr1))
    {
      TakeMarks(addr1, addr2);
      ghost var s := old(Cells());
      var ad1, ad2 := addr1, addr2 + 1;
      ok := true;
      if adt < ad1 {
        MoveDown(ad1, ad2, adt, s);
      } else if adt >= ad2 {
        MoveUp(ad1, ad2, adt, s);
      } else {
        ok := false;
      }
    }

    /** The part of `move` that puts copies, which have been appended from ad1 on, behind line adt. */
    method PutCopies(ad1: nat, adt: nat, ghost s: seq<int>, ghost copies: seq<int>)
      requires Valid() && copies != [] && adt < |s| == ad1 && Cells() == s + copies
      requires forall x <- copies :: !Marked(x)
      modifies zero, this`dot, this`fchange
      ensures Valid() && Cells() == Inserted(s, adt, copies) && dot == adt + |copies|
      ensures old(fchange) ==> fchange
    {
      AppendedUnmarked(s, Cells(), copies);
      MoveDown(ad1, dol + 1, adt, Cells());
      MovedAppended(s, copies, adt);
    }

    /** The array is made longer when it is full, and is another one then. */
    method Grow()
      requires Valid()
      modifies this`zero
      ensures Valid() && dol + 1 < zero.Length && Cells() == old(Cells())
      ensures if dol + 1 >= old(zero.Length) then fresh(zero) else zero == old(zero)
    {
      if dol + 1 >= zero.Length {
        var full, i := zero, 0;
        var more := new int[zero.Length + 512](_ => 0);
        while i <= dol
          invariant i <= dol + 1 && more[..i] == full[..i]
          invariant fresh(more) && more.Length == full.Length + 512
        {
          more[i] := full[i];
          assert more[..i + 1] == more[..i] + [more[i]];
          i := i + 1;
        }
        zero := more;
      }
    }

    /** The body of the loop of `append`: the line tl comes behind the current one, and is the current one. */
    method Insert(tl: int)
      requires Valid() && dol + 1 < zero.Length
      modifies zero, this`dot, this`dol
      ensures Valid() && dot == old(dot) + 1 && Cells() == Inserted(old(Cells()), old(dot), [tl])
    {
      ghost var was := zero[..];
      dol := dol + 1;
      dot := dot + 1;
      var p, q := dol, dol + 1;
      while p > dot
        invariant dot <= p && q == p + 1 <= dol + 1 <= |was| == zero.Length
        invariant dot == old(dot) + 1 && dol == old(dol) + 1
        invariant forall k :: 0 <= k < q ==> zero[k] == was[k]
        invariant forall k :: q <= k <= dol ==> zero[k] == was[k - 1]
      {
        q, p := q - 1, p - 1;
        zero[q] := zero[p];
      }
      zero[dot] := tl;
    }

    method AppendOne(a: nat, tl: int, ghost s: seq<int>, ghost lines: seq<int>)
      requires Valid() && a < |s| && dot == a + |lines| && Cells() == Inserted(s, a, lines)
      modifies this, zero
      ensures Valid() && Cells() == Inserted(s, a, lines + [tl]) && dot == a + |lines| + 1 && fchange
      ensures if old(dol) + 1 >= old(zero.Length) then fresh(zero) else zero == old(zero)
    {
      Grow();
      fchange := true;
      Insert(tl);
      InsertedMore(s, a, lines, tl);
    }

    /** `append`: the lines come behind line a, and the last of them is the current one. */
    method Append(a: nat, lines: seq<int>)
      requires Valid() && a <= dol
      modifies this, zero
      ensures Valid() && Cells() == Inserted(old(Cells()), a, lines) && dot == a + |lines|
      ensures fchange == (old(fchange) || lines != [])
      ensures if old(dol) + |lines| >= old(zero.Length) then fresh(zero) else zero == old(zero)
    {
      dot := a;
      ghost var s := Cells();
      assert lines[..0] == [] && Cells() == Inserted(s, a, lines[..0]);
      hide Inserted;
      var i := 0;
      while i < |lines|
        invariant Valid() && i <= |lines| && dot == a + i && |Cells()| == |s| + i
        invariant if old(dol) + i >= old(zero.Length) then fresh(zero) else zero == old(zero)
        invariant Cells() == Inserted(s, a, lines[..i]) && fchange == (old(fchange) || i > 0)
      {
        AppendOne(a, lines[i], s, lines[..i]);
        assert lines[..i + 1] == lines[..i] + [lines[i]];
        i := i + 1;
      }
      assert lines[..i] == lines;
    }

    /** `rdelete`: the lines from ad1 to ad2 go, and the line behind them, or the last, is the current one. When the
        last line goes, and the array is full, the cell behind the array is read. */
    method Rdelete(ad1: nat, ad2: nat) returns (beyond: bool)
      requires Valid() && 0 < ad1 <= ad2 <= dol
      modifies this`dot, this`dol, this`fchange, zero
      ensures Valid() && Cells() == Deleted(old(Cells()), ad1, ad2) && fchange
      ensures dot == if ad1 <= dol then ad1 else dol
      ensures beyond <==> ad2 == old(dol) && old(dol) + 1 == zero.Length
    {
      var last := dol;
      dol := dol - (ad2 + 1 - ad1);
      beyond := CloseUp(zero, ad1, ad2, last);
      dot := if ad1 > dol then dol else ad1;
      fchange := true;
    }

    /** The second loop of `gdelete`. */
    method Pack(first: nat, ghost s: seq<int>) returns (a1: nat)
      requires Valid() && |s| == dol && Packing(s, zero[..], first, first + 1, dot, dot)
      modifies zero, this`dot
      ensures zero[0] == old(zero[0]) && Packing(s, zero[..], a1, dol + 1, dot, old(dot))
    {
      hide Keep, LastSpot;
      a1 := first;
      var a2 := first + 1;
      while a2 <= dol
        invariant a2 <= dol + 1 && zero[0] == old(zero[0]) && Packing(s, zero[..], a1, a2, dot, old(dot))
        decreases dol + 1 - a2
      {
        ghost var z := zero[..];
        if Marked(zero[a2]) {
          PackOn(s, z, z, a1, a2, dot, old(dot));
          a2 := a2 + 1;
          dot := a1;
        } else {
          zero[a1] := zero[a2];
          PackOn(s, z, zero[..], a1, a2, dot, old(dot));
          a1, a2 := a1 + 1, a2 + 1;
        }
      }
    }

    /** The part of `gdelete` behind its first loop, which has found a marked line. */
    method GdeleteFrom(first: nat)
      requires Valid() && 0 < first <= dol && Marked(Cells()[1..][first - 1])
      requires forall k :: 0 <= k < first - 1 ==> !Marked(Cells()[1..][k])
      modifies zero, this`dot, this`dol, this`fchange
      ensures Valid() && Cells()[0] == old(Cells()[0]) && Cells()[1..] == Keep(old(Cells()[1..]))
      ensures dot == GdeleteDot(old(Cells()[1..]), old(dot)) && fchange
    {
      hide Keep, LastSpot;
      ghost var s := Cells()[1..];
      FirstPack(s, zero[..], first, dot);
      MarksSome(s, first - 1);
      var a1 := Pack(first, s);
      assert s[..dol] == s;
      dol := a1 - 1;
      if dot > dol {
        dot := dol;
      }
      fchange := true;
    }

    /** `gdelete`: the marked lines go. */
    method Gdelete()
      requires Valid() && dol > 0
      modifies zero, this`dot, this`dol, this`fchange
      ensures Valid() && Cells()[0] == old(Cells()[0]) && Cells()[1..] == Keep(old(Cells()[1..]))
      ensures dot == GdeleteDot(old(Cells()[1..]), old(dot))
      ensures fchange == (old(fchange) || Marks(old(Cells()[1..])) > 0)
    {
      ghost var s := Cells()[1..];
      var a1 := 1;
      while !Marked(zero[a1])
        invariant 0 < a1 <= dol && forall k :: 0 <= k < a1 - 1 ==> !Marked(s[k])
        decreases dol - a1
      {
        if a1 >= dol {
          KeepAll(s);
          return;
        }
        a1 := a1 + 1;
      }
      MarksSome(s, a1 - 1);
      GdeleteFrom(a1);
    }
  }

  lemma InsertedMore(s: seq<int>, a: nat, lines: seq<int>, x: int)
    requires a < |s|
    ensures Inserted(Inserted(s, a, lines), a + |lines|, [x]) == Inserted(s, a, lines + [x])
  {
  }

  lemma UnmarkNothing(s: seq<int>)
    requires forall x <- s :: !Marked(x)
    ensures UnmarkAll(s) == s
  {
    forall i | 0 <= i < |s| ensures Unmark(s[i]) == s[i] {
      assert s[i] in s;
    }
  }

  /** Appended lines that are not marked. */
  lemma AppendedUnmarked(s: seq<int>, t: seq<int>, copies: seq<int>)
    requires copies != [] && t == s + copies && forall x <- copies :: !Marked(x)
    ensures Cleared(t, t, |s|, |t| - 1)
  {
    assert t[|s|..|t|] == copies;
    UnmarkNothing(copies);
  }

  lemma MovedAppended(s: seq<int>, copies: seq<int>, adt: nat)
    requires s != [] && copies != [] && adt < |s| && forall x <- copies :: !Marked(x)
    ensures Moved(s + copies, |s|, |s| + |copies| - 1, adt) == Inserted(s, adt, copies)
  {
    var t := s + copies;
    Appended(s, copies, adt);
    UnmarkNothing(copies);
    hide Moved, UnmarkAll;
    MovedDownIs(t, |s|, |s| + |copies| - 1, adt);
    assert s[..adt + 1] + copies + s[adt + 1..] + [] == s[..adt + 1] + copies + s[adt + 1..];
  }

  lemma Appended(s: seq<int>, copies: seq<int>, adt: nat)
    requires adt < |s|
    ensures var t, n := s + copies, |s| + |copies|;
      t[..adt + 1] == s[..adt + 1] && t[adt + 1..|s|] == s[adt + 1..] && t[|s|..n] == copies && t[n..] == []
  {
  }

  /** The lines that are not marked. */
  function Keep(s: seq<int>): (k: seq<int>)
    ensures |k| <= |s| && forall x <- k :: !Marked(x)
  {
    if s == [] then [] else
      var n := |s| - 1;
      Keep(s[..n]) + if Marked(s[n]) then [] else [s[n]]
  }

  function Marks(s: seq<int>): nat {
    |s| - |Keep(s)|
  }

  /** Where the last marked line is, counted from 1, when the marked lines in front of it are gone; zero if no
      line is marked. */
  function LastSpot(s: seq<int>): (p: nat)
    ensures p <= |s| && (p == 0 <==> Keep(s) == s)
  {
    if s == [] then 0 else
      var n := |s| - 1;
      assert s == s[..n] + [s[n]];
      if Marked(s[n]) then |Keep(s[..n])| + 1 else LastSpot(s[..n])
  }

  function Min(a: nat, b: nat): nat {
    if a <= b then a else b
  }

  /** What the loop of `global` does with the command d: again and again, the first marked line is deleted and
      `rdelete` sets the current line. */
  function OneByOne(s: seq<int>, dot: nat): (seq<int>, nat)
    decreases |s|
  {
    var i := FirstMarked(s);
    if i == |s| then (s, dot)
    else OneByOne(s[..i] + s[i + 1..], Min(i + 1, |s| - 1))
  }

  function FirstMarked(s: seq<int>): (i: nat)
    ensures i <= |s| && (i < |s| ==> Marked(s[i])) && forall k :: 0 <= k < i ==> !Marked(s[k])
  {
    if s == [] || Marked(s[0]) then 0 else 1 + FirstMarked(s[1..])
  }

  lemma {:induction false} KeepConcat(a: seq<int>, b: seq<int>)
    ensures Keep(a + b) == Keep(a) + Keep(b)
  {
    if b == [] {
      assert a + b == a;
    } else {
      var n := |b| - 1;
      assert (a + b)[..|a + b| - 1] == a + b[..n];
      KeepConcat(a, b[..n]);
    }
  }

  /** Of a single line nothing is left if its number is odd, and the line itself if it is even. */
  lemma KeepOne(x: int)
    ensures Keep([x]) == if x % 2 == 0 then [x] else []
  {
    assert [x][..0] == [];
  }

  lemma {:induction false} KeepAll(s: seq<int>)
    requires forall k :: 0 <= k < |s| ==> !Marked(s[k])
    ensures Keep(s) == s
  {
    if s != [] {
      KeepAll(s[..|s| - 1]);
    }
  }

  /** The last marked line keeps its place when others in front of it go. */
  lemma {:induction false} LastSpotConcat(a: seq<int>, b: seq<int>)
    ensures LastSpot(a + b) == if Keep(b) == b then LastSpot(a) else |Keep(a)| + LastSpot(b)
  {
    if b == [] {
      assert a + b == a;
    } else {
      var n := |b| - 1;
      assert b == b[..n] + [b[n]];
      assert (a + b)[..|a + b| - 1] == a + b[..n];
      KeepConcat(a, b[..n]);
      LastSpotConcat(a, b[..n]);
    }
  }

  lemma GoneKeep(a: seq<int>, x: int, b: seq<int>)
    requires Keep(a) == a && Marked(x)
    ensures Keep(a + [x]) == a && Keep(a + [x] + b) == Keep(a + b) == a + Keep(b)
  {
    assert (a + [x])[..|a|] == a;
    KeepConcat(a + [x], b);
    KeepConcat(a, b);
  }

  /** A first marked line makes no difference to where the last one is, unless it is the only one. */
  lemma GoneSpot(a: seq<int>, x: int, b: seq<int>)
    requires Keep(a) == a && Marked(x) && Keep(a + [x]) == a
    ensures LastSpot(a + [x] + b) == if Keep(b) == b then |a| + 1 else |a| + LastSpot(b)
    ensures LastSpot(a + b) == if Keep(b) == b then 0 else |a| + LastSpot(b)
  {
    assert (a + [x])[..|a|] == a;
    LastSpotConcat(a + [x], b);
    LastSpotConcat(a, b);
  }

  /** Deleting the marked lines one by one leaves those that are not marked, and makes the line behind the last
      that was deleted the current one, or the last line. */
  lemma {:induction false} OneByOneKeeps(s: seq<int>, dot: nat)
    ensures OneByOne(s, dot).0 == Keep(s)
    ensures OneByOne(s, dot).1 == if Keep(s) == s then dot else Min(LastSpot(s), |Keep(s)|)
    decreases |s|
  {
    var i := FirstMarked(s);
    if i == |s| {
      KeepAll(s);
    } else {
      var a, b := s[..i], s[i + 1..];
      assert s == a + [s[i]] + b;
      assert OneByOne(s, dot) == OneByOne(a + b, Min(i + 1, |s| - 1));
      hide Keep, LastSpot, FirstMarked, OneByOne;
      KeepAll(a);
      GoneKeep(a, s[i], b);
      GoneSpot(a, s[i], b);
      OneByOneKeeps(a + b, Min(i + 1, |s| - 1));
    }
  }

  /** The current line after `gdelete`, which does not look at it for the first marked line. */
  function GdeleteDot(s: seq<int>, dot: nat): nat {
    if Marks(s) == 0 then dot else Min(if Marks(s) == 1 then dot else LastSpot(s), |Keep(s)|)
  }

  /** `gdelete` leaves the lines that the loop it stands for would leave, but the same current line only if more
      than one line was marked, or none, or that line came to be the current one anyway. */
  lemma GdeleteAgrees(s: seq<int>, dot: nat)
    ensures OneByOne(s, dot).0 == Keep(s)
    ensures OneByOne(s, dot).1 == GdeleteDot(s, dot) <==>
      Marks(s) != 1 || dot == LastSpot(s) || (dot >= |s| - 1 && LastSpot(s) >= |s| - 1)
  {
    OneByOneKeeps(s, dot);
    KeepLength(s);
  }

  lemma {:induction false} KeepLength(s: seq<int>)
    ensures |Keep(s)| == |s| <==> Keep(s) == s
  {
    if s != [] {
      assert s == s[..|s| - 1] + [s[|s| - 1]];
      KeepLength(s[..|s| - 1]);
    }
  }

  /** The step from the first k of the lines to one more. */
  lemma KeepNext(s: seq<int>, k: nat)
    requires k < |s|
    ensures Keep(s[..k + 1]) == Keep(s[..k]) + if Marked(s[k]) then [] else [s[k]]
    ensures LastSpot(s[..k + 1]) == if Marked(s[k]) then |Keep(s[..k])| + 1 else LastSpot(s[..k])
  {
    assert s[..k + 1][..k] == s[..k];
  }

  /** What the second loop of `gdelete` has done, a1 being the next cell to fill and a2 the next to look at, with
      the lines s that were there at first. */
  ghost predicate Packing(s: seq<int>, z: seq<int>, a1: nat, a2: nat, dot: nat, dot0: nat) {
    && 0 < a1 < a2 <= |s| + 1 <= |z| && z[1..a1] == Keep(s[..a2 - 1])
    && (forall k :: a2 <= k < |s| + 1 ==> z[k] == s[k - 1])
    && dot == if Marks(s[..a2 - 1]) == 1 then dot0 else LastSpot(s[..a2 - 1])
  }

  /** One turn of it. */
  lemma PackOn(s: seq<int>, z: seq<int>, z': seq<int>, a1: nat, a2: nat, dot: nat, dot0: nat)
    requires Packing(s, z, a1, a2, dot, dot0) && a2 <= |s|
    requires z' == if Marked(z[a2]) then z else z[a1 := z[a2]]
    ensures if Marked(z[a2]) then Packing(s, z', a1, a2 + 1, a1, dot0) else Packing(s, z', a1 + 1, a2 + 1, dot, dot0)
  {
    hide Keep, LastSpot;
    KeepNext(s, a2 - 1);
    if !Marked(z[a2]) {
      assert z'[1..a1 + 1] == z[1..a1] + [z[a2]];
    }
  }

  lemma FirstPack(s: seq<int>, z: seq<int>, a1: nat, dot: nat)
    requires 0 < a1 <= |s| < |z| && z[1..|s| + 1] == s && Marked(s[a1 - 1])
    requires forall k :: 0 <= k < a1 - 1 ==> !Marked(s[k])
    ensures Packing(s, z, a1, a1 + 1, dot, dot)
  {
    hide Keep, LastSpot;
    KeepAll(s[..a1 - 1]);
    KeepNext(s, a1 - 1);
    assert z[1..a1] == z[1..|s| + 1][..a1 - 1];
  }

  lemma MarksSome(s: seq<int>, i: nat)
    requires i < |s| && Marked(s[i])
    ensures Marks(s) > 0
  {
    assert s == s[..i + 1] + s[i + 1..];
    KeepNext(s, i);
    KeepConcat(s[..i + 1], s[i + 1..]);
  }
}
