/** dd's buffers: reads of any size come in, blocks go out through writes of any size, and the conversions
    work in between (bin/dd/dd.c, bin/dd/conv.c). */
module DdStream {
  import opened Basics
  import opened DdSpec

  function Max(a: nat, b: nat): nat {
    if a < b then b else a
  }

  lemma NextLine(done: seq<byte>, line: seq<byte>, rest: seq<byte>, c: nat)
    requires Complete(done) && NL !in line
    ensures var done' := done + line + [NL];
      && Complete(done') && Block(done', c) == Block(done, c) + Record(line, c)
      && done + (line + [NL] + rest) == done' + rest
  {
    hide Block, Record;
    BlockLine(done, line, c);
    Reassociate(done, line + [NL], rest);
    Reassociate(done, line, [NL]);
  }

  /** A line that has been cut ends at last. */
  lemma CutLineEnds(done: seq<byte>, tail: seq<byte>, more: seq<byte>, rest: seq<byte>, c: nat)
    requires Complete(done) && NL !in tail && NL !in more && |tail| >= c > 0
    ensures var done' := done + (tail + more) + [NL];
      && Complete(done') && Block(done', c) == Block(done, c) + tail[..c]
      && done + tail + (more + [NL] + rest) == done' + rest
  {
    LongLine(done, tail, more, c);
    CutLineEndsAt(done, tail, more, [NL], rest);
  }

  lemma SameSlice(a: seq<byte>, i: nat, b: seq<byte>, j: nat, n: nat)
    requires i + n <= |a| && j + n <= |b| && forall k :: i <= k < i + n ==> a[k] == b[j + (k - i)]
    ensures a[i..i + n] == b[j..j + n]
  {
  }

  lemma CutLineEndsAt<T>(a: seq<T>, b: seq<T>, c: seq<T>, d: seq<T>, e: seq<T>)
    ensures a + b + (c + d + e) == (a + (b + c) + d) + e
  {
  }

  /** What the input comes to when it ends after a beginning of a line. */
  lemma LastRecord(done: seq<byte>, tail: seq<byte>, c: nat)
    requires Complete(done) && NL !in tail && c > 0
    ensures Block(done + tail, c) == Block(done, c) + if tail == [] then [] else Record(tail, c)
  {
    if tail == [] {
      assert done + tail == done;
    } else {
      BlockLastLine(done, tail, c);
    }
  }

  lemma LastLine(done: seq<byte>, tail: seq<byte>, c: nat)
    requires c > |tail| && Whole(|done|, c)
    ensures Unblock(done + tail, c) == Unblock(done, c) + if tail == [] then [] else Strip(tail) + [NL]
  {
    UnblockConcat(done, tail, c);
  }

  class Dd {
    const ibs: nat
    const obs: nat
    const cbsz: nat
    const inb: array<byte>
    const outb: array<byte>
    var inp: nat
    var incnt: nat
    var inr: nat
    var outp: nat
    var outcnt: nat
    var intrunc: bool
    var trunc: nat
    /** Every byte that write() has taken. */
    ghost var written: seq<byte>

    /** Buffers of the sizes that `setup` allocates for a record-oriented conversion. */
    ghost predicate Sized() {
      && ibs > 0 && obs > 0 && cbsz > 0 && inb != outb
      && inb.Length == Max(ibs, cbsz) + cbsz && outb.Length == obs + cbsz
    }

    /** What has been put out so far: written, or waiting in the output buffer. */
    ghost function Emitted(): seq<byte>
      requires outcnt <= outb.Length
      reads this, outb
    {
      written + outb[..outcnt]
    }

    /** `bcopy` of n bytes down to the start of a buffer. */
    method CopyDown(a: array<byte>, src: nat, n: nat)
      requires src + n <= a.Length
      modifies a
      ensures a[..n] == old(a[src..src + n])
    {
      for i := 0 to n
        invariant forall j :: 0 <= j < i ==> a[j] == old(a[src + j])
        invariant forall j :: i <= j < a.Length ==> a[j] == old(a[j])
      {
        a[i] := a[src + i];
      }
    }

    /** n bytes, written by as many short writes as it takes. */
    method WriteBlock(pos0: nat, n: nat) returns (pos: nat)
      requires n > 0 && pos0 + n <= outb.Length
      modifies this`written
      ensures pos == pos0 + n && written == old(written) + outb[pos0..pos]
    {
      pos := pos0;
      var cnt := n;
      while true
        invariant 0 < cnt && pos + cnt == pos0 + n && written == old(written) + outb[pos0..pos]
        decreases cnt
      {
        var nw: nat :| 1 <= nw <= cnt;
        assert outb[pos0..pos + nw] == outb[pos0..pos] + outb[pos..pos + nw];
        written := written + outb[pos..pos + nw];
        pos := pos + nw;
        if nw == n || nw == cnt {
          break;
        }
        cnt := cnt - nw;
      }
    }

    /** The writing loop of `dd_out`: full blocks, or, if forced, everything. */
    method WriteBlocks(force: bool) returns (pos: nat)
      requires obs > 0 && outcnt <= outb.Length && if force then outcnt > 0 else outcnt >= obs
      modifies this`written, this`outcnt
      ensures outcnt < obs && pos + outcnt == old(outcnt) && (force ==> outcnt == 0)
      ensures written == old(written) + outb[..pos] && (!force ==> Whole(pos, obs))
    {
      var n := if force then outcnt else obs;
      pos := 0;
      while true
        invariant pos + outcnt == old(outcnt) && 0 < n <= outcnt && (if force then n == outcnt else n == obs)
        invariant written == old(written) + outb[..pos] && (!force ==> Whole(pos, obs))
        decreases outcnt
      {
        pos := WriteBlock(pos, n);
        assert outb[..pos] == outb[..pos - n] + outb[pos - n..pos];
        outcnt := outcnt - n;
        if outcnt < obs {
          break;
        }
        n := obs;
      }
    }

    /** `dd_out`: what is not written moves to the front of the buffer. */
    method DdOut(force: bool)
      requires obs > 0 && outcnt <= outb.Length
      requires if force then outcnt > 0 else outcnt >= obs && outp == outcnt
      modifies this`written, this`outp, this`outcnt, outb
      ensures outcnt < obs && outp == outcnt && (force ==> outcnt == 0)
      ensures Emitted() == old(Emitted()) && old(written) <= written
      ensures !force ==> Whole(|written| - |old(written)|, obs)
    {
      var pos := WriteBlocks(force);
      assert outb[..old(outcnt)] == outb[..pos] + outb[pos..old(outcnt)];
      if outcnt > 0 {
        CopyDown(outb, outp - outcnt, outcnt);
      }
      outp := outcnt;
    }

    /** The output buffer is ready for more, and its full blocks have gone out. */
    ghost predicate Drained()
      reads this
    {
      outcnt < obs && outp == outcnt
    }

    /** The n bytes put behind the output pointer are counted; full blocks are written. */
    method Advance(n: nat, ghost r: seq<byte>)
      requires Sized() && Drained() && outp + n <= outb.Length && outb[outp..outp + n] == r
      modifies this`written, this`outp, this`outcnt, outb
      ensures Drained() && Emitted() == old(Emitted()) + r && old(written) <= written
      ensures Whole(|written| - |old(written)|, obs)
    {
      assert written + outb[..outp + n] == written + outb[..outp] + outb[outp..outp + n];
      outp := outp + n;
      outcnt := outcnt + n;
      if outcnt >= obs {
        DdOut(false);
      }
    }

    /** Copies up to maxlen bytes, or up to a newline, to the output buffer. */
    method CopyLine(start: nat, maxlen: nat) returns (next: nat, cnt: nat, nl: bool)
      requires Sized() && Drained() && maxlen <= cbsz && start + maxlen <= inb.Length
      modifies outb
      ensures cnt <= maxlen && NL !in inb[start..start + cnt]
      ensures if nl then cnt < maxlen && inb[start + cnt] == NL && next == start + cnt + 1
              else cnt == maxlen && next == start + cnt
      ensures outb[..outp] == old(outb[..outp]) && outb[outp..outp + cnt] == inb[start..start + cnt]
      ensures Emitted() == old(Emitted())
    {
      next, cnt, nl := start, 0, false;
      while cnt < maxlen
        invariant cnt <= maxlen && next == start + cnt && NL !in inb[start..start + cnt]
        invariant outb[..outp] == old(outb[..outp]) && outb[outp..outp + cnt] == inb[start..start + cnt]
      {
        var ch := inb[next];
        next := next + 1;
        if ch == NL {
          nl := true;
          return;
        }
        ghost var before, got := outb[..outp], outb[outp..outp + cnt];
        outb[outp + cnt] := ch;
        assert outb[..outp] == before && outb[outp..outp + cnt] == got;
        assert outb[outp..outp + cnt + 1] == got + [ch];
        assert inb[start..start + cnt + 1] == inb[start..start + cnt] + [ch];
        cnt := cnt + 1;
      }
    }

    /** Tosses bytes up to and including a newline. */
    method Toss(start: nat, left: nat) returns (next: nat, found: bool)
      requires start + left <= inb.Length
      ensures start <= next <= start + left
      ensures if found then next > start && inb[next - 1] == NL && NL !in inb[start..next - 1]
              else next == start + left && NL !in inb[start..next]
    {
      next, found := start, false;
      while next < start + left
        invariant start <= next <= start + left && NL !in inb[start..next]
      {
        var ch := inb[next];
        next := next + 1;
        if ch == NL {
          found := true;
          return;
        }
        assert inb[start..next] == inb[start..next - 1] + [ch];
      }
    }

    /** Fills a record of which cnt bytes have been copied up with spaces. */
    method PadOut(cnt: nat)
      requires Sized() && Drained() && cnt <= cbsz
      modifies outb
      ensures outb[..outp] == old(outb[..outp]) &&
        outb[outp..outp + cbsz] == old(outb[outp..outp + cnt]) + Spaces(cbsz - cnt)
    {
      forall i | outp + cnt <= i < outp + cbsz {
        outb[i] := SPACE;
      }
      assert outb[outp..outp + cbsz] == outb[outp..outp + cnt] + outb[outp + cnt..outp + cbsz];
      assert outb[outp..outp + cnt] == old(outb[outp..outp + cnt]);
    }

    /** A line shorter than a record, with its newline, is put out. */
    method EmitShort(start: nat, cnt: nat)
      requires Sized() && Drained() && cnt < cbsz && start + cnt <= inb.Length
      requires outb[outp..outp + cnt] == inb[start..start + cnt]
      modifies this`written, this`outp, this`outcnt, outb
      ensures Drained() && old(written) <= written && Whole(|written| - |old(written)|, obs)
      ensures Emitted() == old(Emitted()) + Record(inb[start..start + cnt], cbsz)
    {
      PadOut(cnt);
      Advance(cbsz, Record(inb[start..start + cnt], cbsz));
    }

    /** What one turn of the record loop has put out for the bytes from `start` on: a record for a line that
        has ended, or for one that is longer than that. */
    ghost predicate Turned(start: nat, next: nat, out: seq<byte>)
      reads this, inb
    {
      && start <= inp <= inb.Length
      && if intrunc then incnt == 0 && NL !in inb[start..inp] && inp - start >= cbsz && out == inb[start..start + cbsz]
         else && start < next <= inp && next + incnt == inp && inb[next - 1] == NL && NL !in inb[start..next - 1]
              && out == Record(inb[start..next - 1], cbsz)
    }

    /** A line that ended within its record. */
    method ShortLine(start: nat, cnt: nat)
      requires Sized() && Drained() && cnt < cbsz && start + incnt == inp <= inb.Length && cnt < incnt && !intrunc
      requires outb[outp..outp + cnt] == inb[start..start + cnt]
      requires inb[start + cnt] == NL && NL !in inb[start..start + cnt]
      modifies this`written, this`outp, this`outcnt, this`incnt, outb
      ensures Drained() && Emitted() == old(Emitted()) + Record(inb[start..start + cnt], cbsz)
      ensures old(written) <= written && Whole(|written| - |old(written)|, obs)
      ensures Turned(start, start + cnt + 1, Record(inb[start..start + cnt], cbsz))
    {
      hide Record, Whole;
      EmitShort(start, cnt);
      incnt := incnt - cnt - 1;
    }

    /** A line that fills its record. */
    method FullLine(start: nat) returns (next: nat)
      requires Sized() && Drained() && start + incnt == inp <= inb.Length && cbsz <= incnt && !intrunc
      requires outb[outp..outp + cbsz] == inb[start..start + cbsz] && NL !in inb[start..start + cbsz]
      modifies this`written, this`outp, this`outcnt, this`incnt, this`intrunc, this`trunc, outb
      ensures Drained() && Emitted() == old(Emitted()) + inb[start..start + cbsz]
      ensures old(written) <= written && Whole(|written| - |old(written)|, obs)
      ensures Turned(start, next, inb[start..start + cbsz])
      ensures trunc == old(trunc) + 1 && (!intrunc ==> next - 1 - start >= cbsz)
    {
      incnt := incnt - cbsz;
      next := TossLine(start, start + cbsz);
      Advance(cbsz, inb[start..start + cbsz]);
    }

    /** One turn of the record loop of `block`, at place `start` of the input buffer. `short` tells that the
        rest is an unfinished line that may still fit its record. */
    method BlockTurn(start: nat) returns (next: nat, short: bool, ghost out: seq<byte>)
      requires Sized() && Drained() && !intrunc && 0 < incnt && start + incnt == inp <= inb.Length
      modifies this`written, this`outp, this`outcnt, this`incnt, this`intrunc, this`trunc, outb
      ensures Drained() && Emitted() == old(Emitted()) + out
      ensures old(written) <= written && Whole(|written| - |old(written)|, obs)
      ensures if short then !intrunc && incnt == old(incnt) < cbsz && out == [] && NL !in inb[start..inp]
              else Turned(start, next, out)
      ensures trunc == old(trunc) + if !short && (intrunc || next - 1 - start >= cbsz) then 1 else 0
    {
      hide Record;
      var maxlen := if cbsz < incnt then cbsz else incnt;
      var cnt, nl;
      next, cnt, nl := CopyLine(start, maxlen);
      short, out := !nl && incnt < cbsz, [];
      if nl {
        out := Record(inb[start..start + cnt], cbsz);
        ShortLine(start, cnt);
      } else if !short {
        out := inb[start..start + cbsz];
        next := FullLine(start);
      }
    }

    /** What follows a full record up to the end of its line is tossed; with the end still to come, so is
        what will be read first. */
    method TossLine(start: nat, from: nat) returns (next: nat)
      requires Sized() && from + incnt == inp <= inb.Length && start + cbsz == from && NL !in inb[start..from]
      modifies this`incnt, this`intrunc, this`trunc
      ensures if intrunc then incnt == 0 && NL !in inb[start..inp] && inb[start..start + cbsz] == inb[start..from]
              else
                && start < next && next + incnt == inp && inb[next - 1] == NL && NL !in inb[start..next - 1]
                && Record(inb[start..next - 1], cbsz) == inb[start..from]
      ensures trunc == old(trunc) + 1 && (!intrunc ==> next - 1 - start >= cbsz)
    {
      trunc := trunc + 1;
      var found;
      next, found := Toss(from, incnt);
      incnt := inp - next;
      intrunc := !found;
    }

    /** One read: its bytes are put behind what the input buffer holds. */
    method ReadIn(chunk: seq<byte>)
      requires |chunk| <= ibs && inp + |chunk| <= inb.Length
      modifies this`inp, this`incnt, this`inr, inb
      ensures inp == old(inp) + |chunk| && incnt == old(incnt) + |chunk| && inr == |chunk|
      ensures inb[..inp] == old(inb[..inp]) + chunk
    {
      forall i | 0 <= i < |chunk| {
        inb[inp + i] := chunk[i];
      }
      inr := |chunk|;
      incnt := incnt + inr;
      inp := inp + inr;
    }

    /** The state of `block` between reads, when the input so far is `done` followed by `tail`: complete lines,
        all put out; and the beginning of a line, kept in the input buffer as long as it may fit. */
    ghost predicate Blocked(done: seq<byte>, tail: seq<byte>)
      reads this, inb, outb
    {
      && Sized() && Drained() && Complete(done) && NL !in tail && inp == incnt <= inb.Length
      && if intrunc then incnt == 0 && |tail| >= cbsz && Emitted() == Block(done, cbsz) + tail[..cbsz]
         else |tail| < cbsz && inb[..incnt] == tail && Emitted() == Block(done, cbsz)
    }

    /** What has been counted, when these lines have been put out, and perhaps one that has been cut. */
    ghost predicate Truncated(done: seq<byte>)
      reads this
    {
      trunc == Counted(done, cbsz) + if intrunc then 1 else 0
    }

    /** The record loop of `block`: of the input `all`, the lines in `done` are put out, and the next one begins
        at place `start` of the input buffer; or it is the last, longer than its record, and put out too. */
    ghost predicate Looping(start: nat, done: seq<byte>, tail: seq<byte>, all: seq<byte>)
      reads this, inb, outb
    {
      && Sized() && Drained() && Complete(done) && inp <= inb.Length
      && if intrunc then
           && incnt == 0 && NL !in tail && |tail| >= cbsz && done + tail == all
           && Emitted() == Block(done, cbsz) + tail[..cbsz]
         else tail == [] && start + incnt == inp && done + inb[start..inp] == all && Emitted() == Block(done, cbsz)
    }

    method LoopTurn(start: nat, ghost done0: seq<byte>, ghost all: seq<byte>)
      returns (next: nat, short: bool, ghost done: seq<byte>, ghost tail: seq<byte>)
      requires Looping(start, done0, [], all) && !intrunc && 0 < incnt && Truncated(done0)
      modifies this`written, this`outp, this`outcnt, this`incnt, this`intrunc, this`trunc, outb
      ensures Looping(next, done, tail, all) && old(written) <= written && Truncated(done)
      ensures short ==> next == start && !intrunc && NL !in inb[start..inp] && incnt < cbsz
      ensures !short ==> incnt < old(incnt)
    {
      hide Block, Record, Counted;
      ghost var out;
      next, short, out := BlockTurn(start);
      done, tail := done0, [];
      if short {
        next := start;
      } else if intrunc {
        tail := inb[start..inp];
      } else {
        ghost var line, rest := inb[start..next - 1], inb[next..inp];
        assert inb[start..inp] == line + [NL] + rest;
        NextLine(done0, line, rest, cbsz);
        CountedLine(done0, line, cbsz);
        done := done0 + line + [NL];
      }
    }

    /** The end of `block`: an unfinished line moves to the front of the input buffer. */
    method KeepRest(start: nat, short: bool, ghost done: seq<byte>, ghost tail0: seq<byte>, ghost all: seq<byte>)
      returns (ghost tail: seq<byte>)
      requires Looping(start, done, tail0, all) && (!short ==> incnt == 0)
      requires short ==> !intrunc && NL !in inb[start..inp] && incnt < cbsz
      modifies this`inp, inb
      ensures Blocked(done, tail) && done + tail == all
    {
      hide Block;
      tail := tail0;
      if short {
        tail := inb[start..inp];
        CopyDown(inb, inp - incnt, incnt);
      }
      inp := incnt;
    }

    /** The record loop of `block`, at place `start` of the input buffer, where a line begins. */
    method BlockLoop(start0: nat, ghost done0: seq<byte>, ghost all: seq<byte>)
      returns (ghost done: seq<byte>, ghost tail: seq<byte>)
      requires Looping(start0, done0, [], all) && !intrunc && Truncated(done0)
      modifies this`written, this`outp, this`outcnt, this`inp, this`incnt, this`intrunc, this`trunc, inb, outb
      ensures Blocked(done, tail) && done + tail == all && old(written) <= written && Truncated(done)
    {
      var start, short := start0, false;
      done, tail := done0, [];
      while incnt > 0 && !short
        invariant Looping(start, done, tail, all) && old(written) <= written && Truncated(done)
        invariant short ==> !intrunc && NL !in inb[start..inp] && incnt < cbsz
        decreases incnt, !short
      {
        start, short, done, tail := LoopTurn(start, done, all);
      }
      tail := KeepRest(start, short, done, tail, all);
    }

    /** Tossing goes on in a new buffer load, up to the end of the line that was cut. */
    method TossOn(ghost done0: seq<byte>, ghost tail0: seq<byte>, ghost chunk: seq<byte>)
      returns (start: nat, ghost done: seq<byte>)
      requires Sized() && Drained() && Complete(done0) && NL !in tail0 && |tail0| >= cbsz && intrunc
      requires inr == incnt == inp <= inb.Length && inb[..inp] == chunk
      requires Emitted() == Block(done0, cbsz) + tail0[..cbsz] && Truncated(done0)
      modifies this`inp, this`incnt, this`intrunc
      ensures Truncated(done)
      ensures if intrunc then incnt == inp == 0 && NL !in chunk && done == done0
              else Looping(start, done, [], done0 + tail0 + chunk)
    {
      hide Block, Counted;
      var found;
      start, found := Toss(0, inr);
      done := done0;
      if !found {
        assert inb[0..start] == chunk;
        incnt, inp := 0, 0;
        return;
      }
      intrunc := false;
      incnt := inp - start;
      ghost var more, rest := inb[0..start - 1], inb[start..inp];
      assert chunk == more + [NL] + rest;
      CutLineEnds(done0, tail0, more, rest, cbsz);
      CountedLine(done0, tail0 + more, cbsz);
      done := done0 + (tail0 + more) + [NL];
    }

    /** `block`, after a read has put `chunk` into the input buffer. */
    method BlockConv(ghost done0: seq<byte>, ghost tail0: seq<byte>, ghost chunk: seq<byte>)
      returns (ghost done: seq<byte>, ghost tail: seq<byte>)
      requires Sized() && Drained() && Complete(done0) && NL !in tail0 && inp == incnt <= inb.Length && inr == |chunk|
      requires if intrunc then
          inb[..inp] == chunk && |tail0| >= cbsz && Emitted() == Block(done0, cbsz) + tail0[..cbsz]
        else inb[..inp] == tail0 + chunk && Emitted() == Block(done0, cbsz)
      requires Truncated(done0)
      modifies this`written, this`outp, this`outcnt, this`inp, this`incnt, this`intrunc, this`trunc, inb, outb
      ensures Blocked(done, tail) && done + tail == done0 + tail0 + chunk && old(written) <= written
      ensures Truncated(done)
    {
      var start := 0;
      done, tail := done0, tail0 + chunk;
      if intrunc {
        start, done := TossOn(done0, tail0, chunk);
        if intrunc {
          assert tail[..cbsz] == tail0[..cbsz] && NL !in tail0 + chunk;
          assert done0 + (tail0 + chunk) == done0 + tail0 + chunk;
          return;
        }
      }
      done, tail := BlockLoop(start, done, done0 + tail0 + chunk);
    }

    /** `bcopy` of what the input buffer holds behind what the output buffer holds. */
    method CopyAcross()
      requires Sized() && Drained() && incnt <= inp <= inb.Length && incnt <= cbsz
      modifies outb
      ensures outb[..outp] == old(outb[..outp]) && outb[outp..outp + incnt] == inb[inp - incnt..inp]
    {
      forall i | outp <= i < outp + incnt {
        outb[i] := inb[inp - incnt + (i - outp)];
      }
      SameSlice(outb[..], outp, inb[..], inp - incnt, incnt);
    }

    method PadLast(ghost tail: seq<byte>)
      requires Sized() && Drained() && incnt == inp < cbsz && inp <= inb.Length && inb[..incnt] == tail
      modifies outb
      ensures outb[..outp + cbsz] == old(outb[..outp]) + Record(tail, cbsz)
    {
      assert inb[inp - incnt..inp] == tail;
      CopyAcross();
      PadOut(incnt);
      assert outb[..outp + cbsz] == outb[..outp] + outb[outp..outp + cbsz];
    }

    /** `block_close`: an unfinished line is padded. The output pointer is left behind. */
    method BlockClose()
      requires Sized() && Drained() && incnt == inp < cbsz && inp <= inb.Length
      modifies this`outcnt, this`trunc, outb
      ensures outcnt <= outb.Length && trunc == old(trunc) + if incnt > 0 then 1 else 0
      ensures Emitted() == old(Emitted()) + if incnt > 0 then Record(inb[..incnt], cbsz) else []
    {
      if incnt > 0 {
        trunc := trunc + 1;
        PadLast(inb[..incnt]);
        outcnt := outcnt + cbsz;
      }
    }

    /** `if (out.dbcnt) dd_out(1)`: the end of `dd_close`. */
    method FinalOut()
      requires obs > 0 && outcnt <= outb.Length
      modifies this`written, this`outp, this`outcnt, outb
      ensures written == old(Emitted()) && old(written) <= written && outcnt == 0
    {
      if outcnt > 0 {
        DdOut(true);
      }
    }

    /** The whole run of a block conversion, over any sequence of reads. */
    method RunBlock(chunks: seq<seq<byte>>)
      requires Sized() && inp == incnt == outp == outcnt == 0 && !intrunc && written == [] && trunc == 0
      requires forall i :: 0 <= i < |chunks| ==> 0 < |chunks[i]| <= ibs
      modifies this, inb, outb
      ensures written == Block(Flatten(chunks), cbsz) && trunc == Counted(Flatten(chunks), cbsz)
    {
      ghost var done, tail := [], [];
      for k := 0 to |chunks|
        invariant Blocked(done, tail) && done + tail == Flatten(chunks[..k]) && Truncated(done)
      {
        ReadIn(chunks[k]);
        ghost var was := done + tail;
        done, tail := BlockConv(done, tail, chunks[k]);
        FlattenMore(chunks, k);
      }
      assert chunks[..|chunks|] == chunks;
      LastRecord(done, tail, cbsz);
      CountedLast(done, tail, cbsz);
      BlockClose();
      FinalOut();
    }

    /** The scan of `unblock` for trailing spaces. */
    method Stripped(start: nat, n: nat) returns (cnt: nat)
      requires start + n <= inb.Length
      ensures cnt <= n && inb[start..start + cnt] == Strip(inb[start..start + n])
    {
      cnt := n;
      while cnt > 0 && inb[start + cnt - 1] == SPACE
        invariant cnt <= n && Strip(inb[start..start + cnt]) == Strip(inb[start..start + n])
      {
        ghost var s := inb[start..start + cnt];
        assert s[..cnt - 1] == inb[start..start + cnt - 1] && s[cnt - 1] == SPACE;
        cnt := cnt - 1;
      }
      assert cnt > 0 ==> inb[start..start + cnt][cnt - 1] == inb[start + cnt - 1];
    }

    /** n input bytes and a newline are put behind the output pointer. */
    method CopyWithNewline(start: nat, n: nat)
      requires Drained() && inb != outb && start + n <= inb.Length && outp + n < outb.Length
      modifies outb
      ensures outb[outp..outp + n + 1] == inb[start..start + n] + [NL] && outb[..outp] == old(outb[..outp])
    {
      forall i | outp <= i < outp + n {
        outb[i] := inb[start + (i - outp)];
      }
      outb[outp + n] := NL;
      SameSlice(outb[..], outp, inb[..], start, n);
      assert outb[outp..outp + n + 1] == outb[outp..outp + n] + [outb[outp + n]];
    }

    /** The state of `unblock` between reads: whole records put out, the rest of the input kept. */
    ghost predicate Unblocked(start: nat, done: seq<byte>, all: seq<byte>)
      reads this, inb, outb
    {
      && Sized() && Drained() && Whole(|done|, cbsz) && start + incnt == inp <= inb.Length
      && done + inb[start..inp] == all && Emitted() == Unblock(done, cbsz)
    }

    /** One record becomes a line. */
    method EmitLine(start: nat)
      requires Sized() && Drained() && start + cbsz <= inb.Length
      modifies this`written, this`outp, this`outcnt, outb
      ensures Drained() && Emitted() == old(Emitted()) + (Strip(inb[start..start + cbsz]) + [NL])
    {
      var cnt := Stripped(start, cbsz);
      CopyWithNewline(start, cnt);
      Advance(cnt + 1, Strip(inb[start..start + cbsz]) + [NL]);
    }

    /** One turn of the record loop of `unblock`. */
    method UnblockTurn(start: nat, ghost done0: seq<byte>, ghost all: seq<byte>) returns (ghost done: seq<byte>)
      requires Unblocked(start, done0, all) && incnt >= cbsz
      modifies this`written, this`outp, this`outcnt, this`incnt, outb
      ensures Unblocked(start + cbsz, done, all) && incnt == old(incnt) - cbsz
    {
      ghost var r, rest := inb[start..start + cbsz], inb[start + cbsz..inp];
      assert inb[start..inp] == r + rest;
      UnblockRecord(done0, r, cbsz);
      Reassociate(done0, r, rest);
      done := done0 + r;
      EmitLine(start);
      incnt := incnt - cbsz;
    }

    /** `unblock`, after a read. */
    method UnblockConv(ghost done0: seq<byte>, ghost all: seq<byte>) returns (ghost done: seq<byte>)
      requires Unblocked(0, done0, all)
      modifies this`written, this`outp, this`outcnt, this`inp, this`incnt, inb, outb
      ensures Unblocked(0, done, all) && incnt < cbsz
    {
      hide Unblock, Whole;
      var start: nat := 0;
      done := done0;
      while incnt >= cbsz
        invariant Unblocked(start, done, all)
        decreases incnt
      {
        done := UnblockTurn(start, done, all);
        start := start + cbsz;
      }
      if incnt > 0 {
        CopyDown(inb, inp - incnt, incnt);
      }
      inp := incnt;
    }

    /** The bytes left in the input buffer, without trailing spaces, and a newline. */
    method CopyLast() returns (cnt: nat)
      requires Sized() && Drained() && incnt == inp < cbsz && inp <= inb.Length
      modifies outb
      ensures cnt <= incnt
      ensures outb[..outp + cnt + 1] == old(outb[..outp]) + (Strip(inb[..incnt]) + [NL])
    {
      hide Strip;
      cnt := Stripped(0, incnt);
      CopyWithNewline(0, cnt);
      assert outb[..outp + cnt + 1] == outb[..outp] + outb[outp..outp + cnt + 1];
      assert inb[0..incnt] == inb[..incnt];
    }

    /** `unblock_close`: a short last record makes a line of its own. */
    method UnblockClose()
      requires Sized() && Drained() && incnt == inp < cbsz && inp <= inb.Length
      modifies this`outp, this`outcnt, outb
      ensures outcnt <= outb.Length
      ensures Emitted() == old(Emitted()) + if incnt > 0 then Strip(inb[..incnt]) + [NL] else []
    {
      if incnt > 0 {
        hide Strip;
        ghost var was := outb[..outp];
        var cnt := CopyLast();
        outp, outcnt := outp + cnt + 1, outcnt + cnt + 1;
        Reassociate(written, was, Strip(inb[..incnt]) + [NL]);
      }
    }

    /** The whole run of an unblock conversion, over any sequence of reads. */
    method RunUnblock(chunks: seq<seq<byte>>)
      requires Sized() && inp == incnt == outp == outcnt == 0 && written == []
      requires forall i :: 0 <= i < |chunks| ==> 0 < |chunks[i]| <= ibs
      modifies this, inb, outb
      ensures written == Unblock(Flatten(chunks), cbsz)
    {
      ghost var done := [];
      for k := 0 to |chunks|
        invariant Unblocked(0, done, Flatten(chunks[..k])) && incnt < cbsz
      {
        ghost var tail := inb[0..inp];
        ReadIn(chunks[k]);
        FlattenMore(chunks, k);
        assert done + (tail + chunks[k]) == done + tail + chunks[k];
        assert inb[0..inp] == inb[..inp] && tail == tail[..|tail|];
        done := UnblockConv(done, Flatten(chunks[..k + 1]));
      }
      assert chunks[..|chunks|] == chunks && inb[0..inp] == inb[..incnt];
      LastLine(done, inb[0..inp], cbsz);
      UnblockClose();
      FinalOut();
    }

    /** `def`: the one buffer, seen as full of output, goes out block by block. */
    method DefConv()
      requires inb == outb && obs > 0 && inp == incnt <= inb.Length
      modifies this`written, this`outp, this`outcnt, this`inp, this`incnt, inb
      ensures inp == incnt == outcnt < obs && inp <= inb.Length && written + inb[..incnt] == old(written + inb[..incnt])
      ensures old(written) <= written && Whole(|written| - |old(written)|, obs)
    {
      outp, outcnt := inp, incnt;
      if incnt >= obs {
        DdOut(false);
        inp, incnt := outp, outcnt;
      }
    }

    /** The whole run without a record conversion: the one buffer of ibs + obs - 1 bytes suffices, and the
        bytes come out as they came in. */
    method RunDef(chunks: seq<seq<byte>>)
      requires inb == outb && ibs > 0 && obs > 0 && inb.Length == ibs + obs - 1
      requires inp == incnt == outp == outcnt == 0 && written == []
      requires forall i :: 0 <= i < |chunks| ==> 0 < |chunks[i]| <= ibs
      modifies this, inb
      ensures written == Flatten(chunks)
    {
      for k := 0 to |chunks|
        invariant inp == incnt == outcnt < obs && inp <= inb.Length && written + inb[..incnt] == Flatten(chunks[..k])
      {
        ghost var held, was := inb[..inp], written;
        ReadIn(chunks[k]);
        FlattenMore(chunks, k);
        assert was + (held + chunks[k]) == was + held + chunks[k];
        DefConv();
      }
      assert chunks[..|chunks|] == chunks;
      if incnt > 0 {
        outcnt := incnt;
      }
      FinalOut();
    }
  }

  /** The input that comes in pieces. */
  function Flatten(chunks: seq<seq<byte>>): seq<byte> {
    if chunks == [] then [] else Flatten(chunks[..|chunks| - 1]) + chunks[|chunks| - 1]
  }

  lemma FlattenMore(chunks: seq<seq<byte>>, k: nat)
    requires k < |chunks|
    ensures Flatten(chunks[..k + 1]) == Flatten(chunks[..k]) + chunks[k]
  {
    assert chunks[..k + 1][..k] == chunks[..k];
  }
}
