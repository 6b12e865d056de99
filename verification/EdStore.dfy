/** ed's temporary file behind its two block buffers (bin/ed/ed.c): getline, putline, getblock, init. */
module EdStore {
  import opened Basics
  import opened EdCipher

  /** An address taken apart counts the same bytes as the address itself, its mark bit aside. */
  lemma AddressSplit(atl: nat)
    requires atl < 0x1_0000
    ensures BlockOf(atl) == atl / 256
    ensures 2 * (atl - atl % 2) == BLKSIZE * BlockOf(atl) + OffsetOf(atl) && OffsetOf(atl) < BLKSIZE
  {
    var q, r := atl / 256, atl % 256;
    assert q < 256;
    OffsetIs(q, r);
  }

  lemma OffsetIs(q: nat, r: nat)
    requires r < 256
    ensures OffsetOf(256 * q + r) == 2 * (r - r % 2) && (256 * q + r) % 2 == r % 2
  {
    assert 2 * (256 * q + r) == 512 * q + 2 * r && (2 * r) / 4 == r / 2;
  }

  const BLKSIZE := 512
  const LBSIZE := 512
  /** The number of the block at which the temporary file is full. */
  const LASTBLK := 255

  datatype Io = READ | WRITE

  /** `(atl >> 8) & 0377` and `(atl << 1) & 0774`, for addresses in use. */
  function BlockOf(atl: nat): nat {
    (atl / 256) % 256
  }

  function OffsetOf(atl: nat): nat {
    ((2 * atl) % 512) / 4 * 4
  }

  /** The line in a buffer: what stands before the first null or newline. */
  ghost predicate LineIn(s: seq<byte>, line: seq<byte>) {
    |line| < |s| && s[..|line|] == line && IsEnd(s[|line|]) && forall c <- line :: !IsEnd(c)
  }

  predicate IsEnd(c: byte) {
    c == 0 || c == 10
  }

  /** The next character of a buffered line that is copied behind `f`. */
  lemma LineChar(f: seq<byte>, s: seq<byte>, line: seq<byte>, i: nat)
    requires LineIn(s, line) && i <= |line|
    ensures IsEnd(s[i]) <==> i == |line|
    ensures if i < |line| then f + line[..i] + [s[i]] == f + line[..i + 1] else f + line[..i] == f + line
  {
    if i < |line| {
      assert s[i] == s[..|line|][i] == line[i] && line[i] in line;
      assert line[..i + 1] == line[..i] + [s[i]];
    }
  }

  /** A byte at offset i of a block, after the block has gone to the disk and come back. */
  function BackBy(xtflag: bool, tperm: seq<byte>, c: byte, i: nat): byte
    requires |tperm| == PERMSIZE
  {
    if xtflag then Enc(tperm, Enc(tperm, c, i), i) else c
  }

  class Store {
    /** The temporary file, block by block, as it is on disk. */
    var disk: map<nat, seq<byte>>
    const ibuff: array<byte>
    const obuff: array<byte>
    const crbuf: array<byte>
    const linebuf: array<byte>
    const tperm: array<byte>
    var xtflag: bool
    var iblock: int
    var oblock: int
    var ichanged: bool
    var nleft: nat

    ghost predicate Buffers() {
      && ibuff.Length == obuff.Length == crbuf.Length == BLKSIZE && linebuf.Length == LBSIZE
      && tperm.Length == PERMSIZE
      && ibuff != obuff && ibuff != crbuf && obuff != crbuf && linebuf != ibuff && linebuf != obuff && linebuf != crbuf
      && tperm != ibuff && tperm != obuff && tperm != crbuf && tperm != linebuf
    }

    /** What a block of the file holds once deciphered. */
    ghost function Plain(s: seq<byte>): seq<byte>
      requires tperm.Length == PERMSIZE
      reads this, tperm
    {
      if xtflag then EncAll(tperm[..], s, 0) else s
    }

    /** A block that has gone to the disk and come back. */
    ghost function Again(s: seq<byte>): (r: seq<byte>)
      requires tperm.Length == PERMSIZE
      reads this, tperm
      ensures |r| == |s| && forall i :: 0 <= i < |s| ==> r[i] == Back(s[i], i)
    {
      Plain(Plain(s))
    }

    ghost function Back(c: byte, i: nat): byte
      requires tperm.Length == PERMSIZE
      reads this, tperm
    {
      BackBy(xtflag, tperm[..], c, i)
    }

    /** The file is not enciphered, or the tables are those that `crinit` makes. */
    ghost predicate Usable()
      reads this, tperm
    {
      xtflag ==> Good(tperm[..])
    }

    /** Then what comes back is what has gone out. */
    lemma AgainSame(s: seq<byte>)
      requires tperm.Length == PERMSIZE && Usable()
      ensures Again(s) == s
    {
      if xtflag {
        EncAllTwice(tperm[..], s, 0);
      }
    }

    /** The cache is coherent: no block is in both buffers, and a clean input buffer equals the disk. */
    ghost predicate Coherent()
      reads this, ibuff, obuff, tperm
    {
      && Buffers()
      && -1 <= iblock < LASTBLK && -1 <= oblock < LASTBLK && (iblock == oblock ==> iblock == -1)
      && (forall b <- disk :: |disk[b]| == BLKSIZE)
      && (iblock >= 0 && !ichanged ==> iblock in disk && ibuff[..] == Plain(disk[iblock]))
      && (ichanged ==> iblock >= 0)
    }

    ghost predicate Present(b: nat)
      reads this
    {
      b == iblock || b == oblock || b in disk
    }

    /** The block is not on disk as it is in its buffer. */
    ghost predicate Dirty(b: nat)
      reads this
    {
      b == oblock || (ichanged && b == iblock)
    }

    /** The block as the cache and the disk together present it. */
    ghost function Block(b: nat): seq<byte>
      requires Buffers() && Present(b)
      reads this, ibuff, obuff, tperm
    {
      if b == iblock then ibuff[..] else if b == oblock then obuff[..] else Plain(disk[b])
    }

    /** `blkio(b, buf, write)` of a buffer, enciphered on its way if need be. */
    method WriteOut(b: nat, buf: array<byte>)
      requires Coherent() && b < LASTBLK && buf.Length == BLKSIZE && buf != tperm && buf != linebuf
      modifies this`disk, buf
      ensures disk == old(disk)[b := if xtflag then EncAll(tperm[..], old(buf[..]), 0) else old(buf[..])]
      ensures Plain(disk[b]) == Again(old(buf[..])) && |disk[b]| == BLKSIZE && tperm[..] == old(tperm[..])
    {
      if xtflag {
        assert buf[..BLKSIZE] == buf[..];
        CrBlock(tperm, buf, BLKSIZE, 0);
        assert buf[..BLKSIZE] == buf[..];
      }
      disk := disk[b := buf[..]];
    }

    /** The input buffer's share of `getblock`: a dirty buffer goes out, the wanted block comes in. A block
        that was never written cannot be read in full. */
    method FillInput(bno: nat) returns (ok: bool)
      requires Coherent() && bno < LASTBLK && bno != iblock && bno != oblock
      modifies this`disk, this`iblock, this`ichanged, ibuff
      ensures ok <==> bno in old(disk)
      ensures ok ==> Coherent() && iblock == bno && !ichanged
      ensures ok ==> forall b: nat :: old(Present(b)) ==>
        Present(b) && Block(b) == if old(ichanged) && b == old(iblock) then Again(old(Block(b))) else old(Block(b))
    {
      if ichanged {
        WriteOut(iblock, ibuff);
      }
      ichanged := false;
      iblock := bno;
      ok := bno in disk;
      if !ok {
        return;
      }
      forall i | 0 <= i < BLKSIZE {
        ibuff[i] := disk[bno][i];
      }
      assert ibuff[..] == disk[bno] == ibuff[..BLKSIZE];
      assert tperm[..] == old(tperm[..]);
      if xtflag {
        CrBlock(tperm, ibuff, BLKSIZE, 0);
        assert ibuff[..] == ibuff[..BLKSIZE];
      }
      assert tperm[..] == old(tperm[..]);
    }

    /** The output buffer is written, from the crypt buffer if it has to be enciphered. */
    method WriteOutput()
      requires Coherent() && oblock >= 0
      modifies this`disk, crbuf
      ensures disk.Keys == old(disk).Keys + {oblock} && |disk[oblock]| == BLKSIZE
      ensures forall b <- old(disk) :: b != oblock ==> disk[b] == old(disk)[b]
      ensures Plain(disk[oblock]) == Again(obuff[..]) && tperm[..] == old(tperm[..])
    {
      if xtflag {
        forall i | 0 <= i < BLKSIZE {
          crbuf[i] := obuff[i];
        }
        assert crbuf[..] == obuff[..];
        assert tperm[..] == old(tperm[..]);
        WriteOut(oblock, crbuf);
      } else {
        disk := disk[oblock := obuff[..]];
      }
    }

    /** The output buffer's share: it goes out, and from now on stands for the next block. */
    method FlushOutput(bno: nat)
      requires Coherent() && bno < LASTBLK && bno != iblock && bno != oblock
      modifies this`disk, this`oblock, crbuf
      ensures Coherent() && oblock == bno
      ensures forall b: nat :: b != bno && old(Present(b)) ==>
        Present(b) && Block(b) == if b == old(oblock) then Again(old(Block(b))) else old(Block(b))
    {
      if oblock >= 0 {
        WriteOutput();
      }
      oblock := bno;
    }

    /** `getblock`: the buffer in which the addressed byte is to be found, and its offset there. */
    method GetBlock(atl: nat, iof: Io) returns (ok: bool, buf: array<byte>, off: nat)
      requires Coherent()
      modifies this`disk, this`iblock, this`oblock, this`ichanged, this`nleft, ibuff, crbuf
      ensures ok <==> BlockOf(atl) < LASTBLK && (iof.WRITE? || old(Present(BlockOf(atl))))
      ensures BlockOf(atl) >= LASTBLK ==> unchanged(this) && unchanged(ibuff)
      ensures ok ==> Coherent() && off == OffsetOf(atl) && nleft == BLKSIZE - off
      ensures ok ==> Present(BlockOf(atl)) && buf == if BlockOf(atl) == iblock then ibuff else obuff
      ensures ok ==> forall b: nat :: (iof.READ? || b != BlockOf(atl)) && old(Present(b)) ==>
        Present(b) && Block(b) == if old(Dirty(b)) && b != iblock &&
          b != oblock then Again(old(Block(b))) else old(Block(b))
      ensures ok && iof.READ? ==> oblock == old(oblock) && buf[..] == Block(BlockOf(atl))
                                  && (!old(ichanged) ==> !ichanged)
      ensures ok && iof.READ? ==> iblock == old(iblock) || iblock == BlockOf(atl) != oblock
      ensures ok && iof.WRITE? ==> iblock == old(iblock) && unchanged(ibuff)
      ensures ok && iof.WRITE? ==> ichanged == (old(ichanged) || BlockOf(atl) == iblock)
      ensures ok && iof.WRITE? ==> oblock == if BlockOf(atl) == iblock then old(oblock) else BlockOf(atl)
    {
      var bno := BlockOf(atl);
      off := OffsetOf(atl);
      buf := obuff;
      ok := bno < LASTBLK;
      if !ok {
        return;
      }
      nleft := BLKSIZE - off;
      if bno == iblock {
        ichanged := ichanged || iof.WRITE?;
        buf := ibuff;
      } else if bno == oblock {
        buf := obuff;
      } else if iof.READ? {
        ok := FillInput(bno);
        buf := ibuff;
      } else {
        FlushOutput(bno);
        buf := obuff;
      }
    }

    /** The bytes of `f`, from the first address on, are where the cache and the disk present them; writing
        has come as far as the output block, and the input buffer is never ahead of it or dirty. */
    ghost predicate Filed(f: seq<byte>)
      reads this, ibuff, obuff, tperm
    {
      && Coherent() && !ichanged && (iblock >= 0 ==> iblock < oblock)
      && (forall b: nat :: b <= oblock ==> Present(b))
      && (if oblock < 0 then |f| == 4 else BLKSIZE * oblock <= |f| <= BLKSIZE * (oblock + 1))
      && forall i {:trigger Holds(i, f[i])} :: 4 <= i < |f| ==> Holds(i, f[i])
    }

    /** Byte i of the file is c. */
    ghost predicate Holds(i: nat, c: byte)
      requires Buffers()
      reads this, ibuff, obuff, tperm
    {
      var b, o := i / BLKSIZE, i % BLKSIZE;
      Present(b) && o < |Block(b)| && Block(b)[o] == c
    }

    /** What the file presents when f has been put into it: the blocks before the output block have gone out. */
    ghost function Shown(f: seq<byte>): (g: seq<byte>)
      requires tperm.Length == PERMSIZE
      reads this, tperm
      ensures |g| == |f|
      ensures forall i :: 0 <= i < |f| ==> g[i] == if i < BLKSIZE * oblock then Back(f[i], i % BLKSIZE) else f[i]
    {
      var xt, perm, n := xtflag, tperm[..], BLKSIZE * oblock;
      seq(|f|, i requires 0 <= i < |f| => if i < n then BackBy(xt, perm, f[i], i % BLKSIZE) else f[i])
    }

    ghost predicate Stored(f: seq<byte>)
      reads this, ibuff, obuff, tperm
    {
      Buffers() && Filed(Shown(f))
    }

    /** With usable tables that is f itself. */
    lemma ShownSame(f: seq<byte>)
      requires tperm.Length == PERMSIZE && Usable()
      ensures Shown(f) == f
    {
      forall i | 0 <= i < |f| ensures Shown(f)[i] == f[i] {
        if xtflag {
          var n := i % BLKSIZE;
          EncTwice(tperm[..], f[i], n % 256, (n / 256) % 256);
        }
      }
    }

    lemma ShownMore(f: seq<byte>, g: seq<byte>)
      requires tperm.Length == PERMSIZE && BLKSIZE * oblock <= |f|
      ensures Shown(f + g) == Shown(f) + g
    {
    }

    /** The output block that takes the next byte after `f`, opened at its address. */
    method OpenOutput(atl: nat, ghost f: seq<byte>) returns (ok: bool, buf: array<byte>, off: nat)
      requires Stored(f) && |f| == 2 * atl && atl % 2 == 0 && atl <= 256 * LASTBLK
      modifies this`disk, this`iblock, this`oblock, this`ichanged, this`nleft, ibuff, crbuf
      ensures Stored(f) && (ok <==> atl < 256 * LASTBLK)
      ensures ok ==> buf == obuff && oblock >= 0 && |f| == BLKSIZE * oblock + off && off + nleft == BLKSIZE && nleft > 0
    {
      AddressSplit(atl);
      ghost var was := Shown(f);
      assert forall i {:trigger Holds(i, was[i])} :: 4 <= i < |f| ==> Holds(i, was[i]);
      ok, buf, off := GetBlock(atl, WRITE);
      forall i: nat | 4 <= i < |f|
        ensures Holds(i, Shown(f)[i])
      {
        assert old(Holds(i, was[i]));
        Placed(i, old(oblock));
      }
    }

    /** A byte in front of the output block is in an earlier block, and one in it is not. */
    static lemma Placed(i: nat, b: int)
      ensures i < BLKSIZE * b <==> i / BLKSIZE < b
      ensures i < BLKSIZE * (b + 1) <==> i / BLKSIZE <= b
    {
    }

    /** The block that holds a byte of `f`, opened at its address (which may carry a mark bit). */
    method OpenInput(atl: nat, ghost f: seq<byte>) returns (ok: bool, buf: array<byte>, off: nat)
      requires Filed(f) && 2 <= atl && 2 * (atl - atl % 2) < |f| && atl < 256 * LASTBLK
      modifies this`disk, this`iblock, this`oblock, this`ichanged, this`nleft, ibuff, crbuf
      ensures Filed(f) && ok && Present(atl / 256) && buf[..] == Block(atl / 256) && buf.Length == BLKSIZE
      ensures buf != linebuf && 2 * (atl - atl % 2) == BLKSIZE * (atl / 256) + off && off + nleft == BLKSIZE &&
        nleft > 0
      ensures atl / 256 <= oblock
      ensures oblock == old(oblock)
    {
      AddressSplit(atl);
      ok, buf, off := GetBlock(atl, READ);
      forall i | 4 <= i < |f| ensures Holds(i, f[i]) {
        assert old(Holds(i, f[i]));
      }
    }

    constructor ()
      ensures Buffers() && !xtflag && fresh(ibuff) && fresh(obuff) && fresh(crbuf) && fresh(linebuf) && fresh(tperm)
      ensures Blank(tperm[..])
    {
      ibuff, obuff, crbuf := new byte[BLKSIZE], new byte[BLKSIZE], new byte[BLKSIZE];
      linebuf, tperm := new byte[LBSIZE], new byte[PERMSIZE](_ => 0);
      disk, xtflag, iblock, oblock, ichanged, nleft := map[], false, -1, -1, false, 0;
    }

    /** The cache's share of `init`: an empty file, empty buffers, and with -x a key of its own. `temp0` is
        the first byte of the key after the clock has been mixed in. */
    method Reset(xflag: bool, temp0: int, draws: nat -> nat)
      requires Buffers()
      modifies this, tperm
      ensures xtflag == (old(xtflag) || xflag) && oblock == -1 && Stored([0, 0, 0, 0])
      ensures if xflag && temp0 != 0 then Good(tperm[..]) else tperm[..] == old(tperm[..])
    {
      iblock, oblock, ichanged := -1, -1, false;
      disk := map[];
      if xflag {
        xtflag := true;
        var _, _, _ := CrInit(temp0, draws, tperm);
      }
    }

    lemma StoredPrefix(f: seq<byte>, g: seq<byte>)
      requires Stored(f) && g <= f && oblock >= 0 && BLKSIZE * oblock <= |g|
      ensures Stored(g)
    {
      ShownMore(g, f[|g|..]);
      assert g + f[|g|..] == f;
      assert forall i :: 0 <= i < |g| ==> Shown(g)[i] == Shown(f)[i];
    }

    /** One byte goes to the end of what has been written. */
    method PutByte(bp: nat, c: byte, ghost f: seq<byte>)
      requires Stored(f) && oblock >= 0 && |f| == BLKSIZE * oblock + bp && bp < BLKSIZE
      modifies obuff
      ensures Stored(f + [c]) && Stored(f)
    {
      ShownMore(f, [c]);
      ghost var was := Shown(f);
      assert forall i {:trigger Holds(i, was[i])} :: 4 <= i < |f| ==> Holds(i, was[i]);
      obuff[bp] := c;
      assert tperm[..] == old(tperm[..]) && ibuff[..] == old(ibuff[..]) && Shown(f) == was;
      forall i: nat | 4 <= i < |f| + 1
        ensures Holds(i, (was + [c])[i])
      {
        if i < |f| {
          assert old(Holds(i, was[i]));
        }
      }
      forall i: nat | 4 <= i < |f|
        ensures Holds(i, was[i])
      {
        assert Holds(i, (was + [c])[i]);
      }
    }

    /** Up to three bytes of whatever the output block holds fill a line up to its next address. */
    lemma Padded(f: seq<byte>, p: nat) returns (pad: seq<byte>)
      requires Stored(f) && oblock >= 0 && |f| + p <= BLKSIZE * (oblock + 1)
      ensures |pad| == p && Stored(f + pad)
    {
      pad := obuff[|f| - BLKSIZE * oblock..|f| - BLKSIZE * oblock + p];
      ShownMore(f, pad);
      var was := Shown(f);
      forall i: nat | 4 <= i < |f| + p
        ensures Holds(i, (was + pad)[i])
      {
        if i < |f| {
          assert Holds(i, was[i]);
        }
      }
    }

    /** The next byte after `f` goes to place bp of the output block, of which nl bytes are left. */
    ghost predicate Writing(f: seq<byte>, tl: nat, bp: nat, nl: nat)
      reads this, ibuff, obuff, tperm
    {
      && Stored(f) && oblock >= 0 && |f| == BLKSIZE * oblock + bp && bp + nl == BLKSIZE && nl > 0 && tl == 256 * oblock
    }

    /** The block after the one that has just been filled. */
    method NextBlock(tl: nat, ghost f: seq<byte>) returns (ok: bool, buf: array<byte>, bp: nat)
      requires Stored(f) && oblock >= 0 && |f| == BLKSIZE * (oblock + 1) && tl == 256 * (oblock + 1)
      modifies this`disk, this`iblock, this`oblock, this`ichanged, this`nleft, ibuff, crbuf
      ensures Stored(f) && (ok <==> |f| < BLKSIZE * LASTBLK) && (!ok ==> oblock == old(oblock))
      ensures ok ==> buf == obuff && Writing(f, tl, bp, nleft)
    {
      ok, buf, bp := OpenOutput(tl, f);
    }

    /** One character of the line is written; a block that it fills is followed by the next one. */
    method CopyChar(c: byte, tl0: nat, bp0: nat, nl0: nat, ghost f: seq<byte>)
      returns (ok: bool, tl: nat, bp: nat, nl: nat)
      requires Writing(f, tl0, bp0, nl0)
      modifies this`disk, this`iblock, this`oblock, this`ichanged, this`nleft, ibuff, obuff, crbuf
      ensures if ok then Writing(f + [c], tl, bp, nl)
              else |f| + 1 == BLKSIZE * LASTBLK && Stored(f + [c]) && oblock == old(oblock) == LASTBLK - 1
    {
      var buf;
      PutByte(bp0, c, f);
      ok, tl, bp, nl := true, tl0, bp0 + 1, nl0 - 1;
      if nl == 0 {
        tl := tl + 256;
        ok, buf, bp := NextBlock(tl, f + [c]);
        nl := nleft;
      }
    }

    /** The end of the line is written: a newline is taken back. */
    method CopyEnd(c: byte, bp: nat, ghost f: seq<byte>)
      requires IsEnd(c) && Stored(f) && oblock >= 0 && |f| == BLKSIZE * oblock + bp && bp < BLKSIZE
      modifies obuff
      ensures Stored(f + [0])
    {
      PutByte(bp, c, f);
      if c == 10 {
        PutByte(bp, 0, f);
      }
    }

    /** The copying loop of `putline`, from an opened output block: the line goes behind `was` with a null
        for its end, unless the file is full. */
    method CopyLoop(tl0: nat, bp0: nat, nl0: nat, ghost was: seq<byte>, ghost line: seq<byte>)
      returns (ok: bool, lp: nat, ghost f: seq<byte>)
      requires Writing(was, tl0, bp0, nl0) && LineIn(linebuf[..], line)
      modifies this`disk, this`iblock, this`oblock, this`ichanged, this`nleft, ibuff, obuff, crbuf
      ensures ok <==> |was| + |line| < BLKSIZE * LASTBLK
      ensures if ok then lp == |line| + 1 && f == was + line + [0] && Stored(f) && oblock >= 0 else Stored(was)
    {
      var tl, bp, nl := tl0, bp0, nl0;
      ok, lp, f := true, 0, was;
      assert was + line[..0] == was;
      while ok && !IsEnd(linebuf[lp])
        invariant lp <= |line| && f == was + line[..lp] && linebuf[..] == old(linebuf[..])
        invariant if ok then Writing(f, tl, bp, nl)
                  else |f| == BLKSIZE * LASTBLK && Stored(f) && oblock == LASTBLK - 1
        decreases |line| - lp, ok
      {
        LineChar(was, linebuf[..], line, lp);
        ghost var g := f + [linebuf[lp]];
        ok, tl, bp, nl := CopyChar(linebuf[lp], tl, bp, nl, f);
        lp, f := lp + 1, g;
      }
      if !ok {
        StoredPrefix(f, was);
      } else {
        LineChar(was, linebuf[..], line, lp);
        CopyEnd(linebuf[lp], bp, f);
        lp, f := lp + 1, f + [0];
      }
    }

    lemma FilledUp(tline: nat, f: seq<byte>, n: nat) returns (g: seq<byte>)
      requires Stored(f) && oblock >= 0 && |f| == 2 * tline + n && tline % 2 == 0
      ensures Stored(g) && f <= g && |g| == 2 * NextLine(tline, n)
      ensures NextLine(tline, n) % 2 == 0 && NextLine(tline, n) <= 256 * LASTBLK
    {
      LineUnits(tline, n);
      var pad := Padded(f, 4 * ((n + 3) / 4) - n);
      g := f + pad;
    }

    /** The body of `putline` up to the end of its loop, and the bytes left over up to the next address. */
    method CopyOut(tline: nat, ghost was: seq<byte>, ghost line: seq<byte>)
      returns (ok: bool, lp: nat, ghost f: seq<byte>)
      requires Stored(was) && |was| == 2 * tline && tline % 2 == 0 && 2 <= tline <= 256 * LASTBLK
      requires LineIn(linebuf[..], line)
      modifies this`disk, this`iblock, this`oblock, this`ichanged, this`nleft, ibuff, obuff, crbuf
      ensures ok <==> 2 * tline + |line| < BLKSIZE * LASTBLK
      ensures !ok ==> Stored(was)
      ensures ok ==> lp == |line| + 1 && was + line + [0] <= f && Stored(f) && |f| == 2 * NextLine(tline, lp)
      ensures ok ==> NextLine(tline, lp) % 2 == 0 && NextLine(tline, lp) <= 256 * LASTBLK
      ensures tperm[..] == old(tperm[..]) && linebuf[..] == old(linebuf[..])
    {
      var buf, bp;
      ok, buf, bp := OpenOutput(tline, was);
      lp, f := 0, was;
      if ok {
        assert linebuf[..] == old(linebuf[..]);
        ok, lp, f := CopyLoop(tline / 256 * 256, bp, nleft, was, line);
        if ok {
          f := FilledUp(tline, f, lp);
        }
      }
    }

    /** Byte `pos` of the file is at place bp of the buffer, of which nl bytes are left. */
    ghost predicate Reading(f: seq<byte>, tl: nat, buf: array<byte>, bp: nat, nl: nat, pos: nat)
      reads this, ibuff, obuff, tperm, buf
    {
      && Filed(f) && Present(tl / 256) && buf.Length == BLKSIZE && buf[..] == Block(tl / 256) && buf != linebuf
      && tl % 256 == 0 && pos == 2 * tl + bp && bp + nl == BLKSIZE && nl > 0
    }

    /** One byte is copied to the line buffer. */
    method ReadByte(buf: array<byte>, bp: nat, lp: nat, ghost f: seq<byte>, ghost tl: nat, ghost nl: nat,
      ghost pos: nat)
      requires Reading(f, tl, buf, bp, nl, pos) && 4 <= pos < |f| && lp < LBSIZE
      modifies linebuf
      ensures linebuf[..lp + 1] == old(linebuf[..lp]) + [f[pos]]
      ensures Reading(f, tl, buf, bp, nl, pos)
    {
      assert Holds(pos, f[pos]) && pos / BLKSIZE == tl / 256 && pos % BLKSIZE == bp;
      assert buf[bp] == buf[..][bp] == f[pos];
      linebuf[lp] := buf[bp];
      assert tperm[..] == old(tperm[..]) && ibuff[..] == old(ibuff[..]) && obuff[..] == old(obuff[..]);
      assert buf[..] == old(buf[..]);
    }

    /** Going on to the next byte, in the next block if this one has been read through. */
    method NextInput(tl0: nat, buf0: array<byte>, bp0: nat, nl0: nat, ghost f: seq<byte>, ghost pos: nat)
      returns (tl: nat, buf: array<byte>, bp: nat, nl: nat)
      requires Reading(f, tl0, buf0, bp0, nl0, pos) && 4 <= pos && pos + 1 < |f| <= BLKSIZE * LASTBLK
      modifies this`disk, this`iblock, this`oblock, this`ichanged, this`nleft, ibuff, crbuf
      ensures Reading(f, tl, buf, bp, nl, pos + 1)
      ensures oblock == old(oblock)
    {
      tl, buf, bp, nl := tl0, buf0, bp0 + 1, nl0 - 1;
      if nl == 0 {
        tl := tl + 256;
        var ok;
        ok, buf, bp := OpenInput(tl, f);
        nl := nleft;
      }
    }

    /** The block of a line's first byte. */
    method OpenLine(atl: nat, ghost f: seq<byte>) returns (tl: nat, buf: array<byte>, bp: nat, nl: nat)
      requires Filed(f) && 2 <= atl && 2 * (atl - atl % 2) < |f| <= BLKSIZE * LASTBLK
      modifies this`disk, this`iblock, this`oblock, this`ichanged, this`nleft, ibuff, crbuf
      ensures Reading(f, tl, buf, bp, nl, 2 * (atl - atl % 2))
      ensures oblock == old(oblock)
    {
      var ok;
      ok, buf, bp := OpenInput(atl, f);
      nl := nleft;
      tl := atl / 256 * 256;
    }

    /** One turn of the copying loop of `getline`. */
    method ReadTurn(tl0: nat, buf0: array<byte>, bp0: nat, nl0: nat, lp: nat, ghost f: seq<byte>, ghost pos: nat)
      returns (c: byte, tl: nat, buf: array<byte>, bp: nat, nl: nat)
      requires Reading(f, tl0, buf0, bp0, nl0, pos) && 4 <= pos < |f| <= BLKSIZE * LASTBLK && lp < LBSIZE
      requires f[pos] != 0 ==> pos + 1 < |f|
      modifies this`disk, this`iblock, this`oblock, this`ichanged, this`nleft, ibuff, crbuf, linebuf
      ensures linebuf[..lp + 1] == old(linebuf[..lp]) + [f[pos]] && c == f[pos]
      ensures Filed(f) && (c != 0 ==> Reading(f, tl, buf, bp, nl, pos + 1))
      ensures oblock == old(oblock)
    {
      ReadByte(buf0, bp0, lp, f, tl0, nl0, pos);
      assert linebuf[..lp + 1][lp] == linebuf[lp];
      c, tl, buf, bp, nl := linebuf[lp], tl0, buf0, bp0, nl0;
      if c != 0 {
        ghost var got := linebuf[..lp + 1];
        tl, buf, bp, nl := NextInput(tl0, buf0, bp0, nl0, f, pos);
        assert linebuf[..lp + 1] == got;
      }
    }

    /** The copying loop has come to the character lp of the line at byte `at`. */
    ghost predicate Copying(f: seq<byte>, tl: nat, buf: array<byte>, bp: nat, nl: nat, at: nat, lp: nat,
      line: seq<byte>)
      reads this, ibuff, obuff, tperm, buf, linebuf
    {
      && Reading(f, tl, buf, bp, nl, at + lp) && lp <= |line| < LBSIZE && linebuf[..lp] == line[..lp]
      && TextAt(f, at, line) && 4 <= at && |f| <= BLKSIZE * LASTBLK
    }

    method CopyTurn(tl0: nat, buf0: array<byte>, bp0: nat, nl0: nat, lp: nat, ghost f: seq<byte>, ghost at: nat,
                    ghost line: seq<byte>)
      returns (c: byte, tl: nat, buf: array<byte>, bp: nat, nl: nat)
      requires Copying(f, tl0, buf0, bp0, nl0, at, lp, line)
      modifies this`disk, this`iblock, this`oblock, this`ichanged, this`nleft, ibuff, crbuf, linebuf
      ensures oblock == old(oblock)
      ensures if c != 0 then Copying(f, tl, buf, bp, nl, at, lp + 1, line) && lp < |line|
              else Filed(f) && linebuf[..|line| + 1] == line + [0]
    {
      hide Filed;
      TextAtChar(f, at, line, lp);
      c, tl, buf, bp, nl := ReadTurn(tl0, buf0, bp0, nl0, lp, f, at + lp);
    }

    /** The copying loop of `getline`. */
    method CopyIn(atl: nat, ghost f: seq<byte>, ghost at: nat, ghost line: seq<byte>)
      requires Filed(f) && 2 <= atl && at == 2 * (atl - atl % 2) && TextAt(f, at, line) && |line| < LBSIZE
      requires |f| <= BLKSIZE * LASTBLK
      modifies this`disk, this`iblock, this`oblock, this`ichanged, this`nleft, ibuff, crbuf, linebuf
      ensures Filed(f) && linebuf[..|line| + 1] == line + [0]
      ensures oblock == old(oblock)
    {
      var tl, buf, bp, nl := OpenLine(atl, f);
      var lp: nat, c: byte := 0, 1;
      assert linebuf[..0] == line[..0] && at + 0 == at;
      hide Filed, Copying;
      while c != 0
        invariant oblock == old(oblock)
        invariant if c != 0 then lp <= |line| && Copying(f, tl, buf, bp, nl, at, lp, line)
                  else Filed(f) && linebuf[..|line| + 1] == line + [0]
        decreases |line| - lp, c
      {
        c, tl, buf, bp, nl := CopyTurn(tl, buf, bp, nl, lp, f, at, line);
        lp := lp + 1;
      }
    }
  }

  /** At byte i of the file there is this text, and a null. */
  ghost predicate TextAt(f: seq<byte>, i: nat, line: seq<byte>) {
    i + |line| < |f| && f[i..i + |line|] == line && f[i + |line|] == 0 && forall c <- line :: c != 0
  }

  /** The line at byte i of the file, with its null. */
  ghost predicate LineAt(f: seq<byte>, i: nat, line: seq<byte>) {
    TextAt(f, i, line) && forall c <- line :: !IsEnd(c)
  }

  /** Lines by address, in the file. */
  ghost predicate Lined(live: map<nat, seq<byte>>, f: seq<byte>) {
    forall a <- live :: a % 2 == 0 && 2 <= a && |live[a]| < LBSIZE && LineAt(f, 2 * a, live[a])
  }

  /** A line written behind all others leaves them where they are. */
  lemma LinedMore(live: map<nat, seq<byte>>, f: seq<byte>, g: seq<byte>, tl: nat, line: seq<byte>, s: seq<byte>)
    requires Lined(live, f) && |f| == 2 * tl && f + line + [0] <= g && LineIn(s, line) && |s| == LBSIZE
    requires 2 <= tl && tl % 2 == 0
    ensures tl !in live && Lined(live[tl := line], g)
  {
    assert g[2 * tl..2 * tl + |line|] == line;
    assert LineAt(g, 2 * tl, line);
    forall a <- live ensures a != tl && LineAt(g, 2 * a, live[a]) {
      LineAtExtends(f, g, 2 * a, live[a]);
    }
  }

  /** `tline + ((n + 03) >> 1 & 077776)`. */
  function NextLine(tline: nat, n: nat): nat {
    tline + (n + 3) / 2 / 2 * 2
  }

  /** Addresses count in units of two bytes and are even: a line takes whole units of four. */
  lemma LineUnits(tl: nat, n: nat)
    ensures var p := 4 * ((n + 3) / 4) - n;
      0 <= p < 4 && 2 * (tl + (n + 3) / 2 / 2 * 2) == 2 * tl + n + p && ((n + 3) / 2 / 2 * 2) % 2 == 0
    ensures tl % 2 == 0 && 2 * tl + n <= BLKSIZE * LASTBLK ==> 2 * (tl + (n + 3) / 2 / 2 * 2) <= BLKSIZE * LASTBLK
  {
  }

  lemma TextAtChar(f: seq<byte>, i: nat, line: seq<byte>, k: nat)
    requires TextAt(f, i, line) && k <= |line|
    ensures if k < |line| then f[i + k] != 0 && line[..k] + [f[i + k]] == line[..k + 1]
            else f[i + k] == 0 && line[..k] + [f[i + k]] == line + [0]
  {
    if k < |line| {
      assert f[i + k] == f[i..i + |line|][k] == line[k] && line[k] in line;
    }
  }

  lemma LineAtExtends(f: seq<byte>, g: seq<byte>, i: nat, line: seq<byte>)
    requires LineAt(f, i, line) && f <= g
    ensures LineAt(g, i, line)
  {
    assert g[i..i + |line|] == f[i..i + |line|];
  }

  /** The temporary file as ed's commands see it. */
  class LineFile {
    const st: Store
    var tline: nat
    /** The text of every line stored so far, by address; and the file as one stretch of bytes. */
    ghost var live: map<nat, seq<byte>>
    ghost var flat: seq<byte>

    constructor ()
      ensures st.Buffers() && !st.xtflag && live == map[] && Blank(st.tperm[..])
      ensures fresh(st) && fresh(st.ibuff) && fresh(st.obuff) && fresh(st.crbuf) && fresh(st.linebuf) && fresh(st.tperm)
    {
      st := new Store();
      tline, live, flat := 2, map[], [0, 0, 0, 0];
    }

    /** `init`: everything starts anew. With -x, a key whose first byte the clock happens to cancel leaves the
        tables as they were. Whether the file can be used is told by the call. */
    method Init(xflag: bool, temp0: int, draws: nat -> nat)
      requires st.Buffers()
      modifies this, st, st.tperm
      ensures live == map[] && tline == 2 && Valid() && st.xtflag == (old(st.xtflag) || xflag)
      ensures st.Usable() <==> !(old(st.xtflag) || xflag) || (xflag && temp0 != 0) || Good(old(st.tperm[..]))
      ensures !xflag || temp0 == 0 ==> st.tperm[..] == old(st.tperm[..])
    {
      tline, live, flat := 2, map[], [0, 0, 0, 0];
      st.Reset(xflag, temp0, draws);
    }

    /** The lines stored so far have been put into the file, apart from each other, each ended by a null. */
    ghost predicate Valid()
      reads this, st, st.ibuff, st.obuff, st.tperm
    {
      && st.Stored(flat) && |flat| == 2 * tline && tline % 2 == 0 && 2 <= tline <= 256 * LASTBLK
      && Lined(live, flat)
    }

    /** `tline` moves behind the line that has been stored up to place lp of the line buffer. */
    method Take(lp: nat, ghost f: seq<byte>, ghost line: seq<byte>) returns (nl: nat, rest: nat)
      requires st.Stored(f) && |flat| == 2 * tline && tline % 2 == 0 && 2 <= tline && Lined(live, flat)
      requires |f| == 2 * NextLine(tline, lp) && NextLine(tline, lp) % 2 == 0 && NextLine(tline, lp) <= 256 * LASTBLK
      requires LineIn(st.linebuf[..], line) && st.linebuf.Length == LBSIZE && flat + line + [0] <= f && lp == |line| + 1
      modifies this`tline, this`live, this`flat
      ensures Valid() && nl == old(tline) && tline == NextLine(nl, lp)
      ensures nl !in old(live) && live == old(live)[nl := line]
      ensures rest == if st.linebuf[lp - 1] == 10 then lp else 0
    {
      assert |line| < LBSIZE;
      hide Store.Stored, Lined, NextLine, LineIn;
      nl, rest := tline, if st.linebuf[lp - 1] == 10 then lp else 0;
      LinedMore(live, flat, f, tline, line, st.linebuf[..]);
      live := live[tline := line];
      tline := NextLine(tline, lp);
      flat := f;
    }

    /** `putline`: the line in the buffer is stored behind all others, and its address returned. `rest` is
        where the buffer goes on behind a newline that ended the line, and 0 if a null did. */
    method PutLine(ghost line: seq<byte>) returns (ok: bool, nl: nat, rest: nat)
      requires Valid() && LineIn(st.linebuf[..], line)
      modifies this, st, st.ibuff, st.obuff, st.crbuf
      ensures Valid()
      ensures ok <==> 2 * old(tline) + |line| < BLKSIZE * LASTBLK
      ensures if ok then nl == old(tline) && nl !in old(live) && live == old(live)[nl := line]
              else live == old(live) && tline == old(tline)
      ensures ok ==> tline == NextLine(old(tline), |line| + 1)
      ensures ok ==> rest == if st.linebuf[|line|] == 10 then |line| + 1 else 0
      ensures st.xtflag == old(st.xtflag) && st.tperm[..] == old(st.tperm[..])
      ensures st.linebuf[..] == old(st.linebuf[..])
    {
      assert |line| < LBSIZE == st.linebuf.Length;
      hide Store.Stored, Store.Buffers, Lined, NextLine, LineIn;
      ghost var f;
      var lp;
      ok, lp, f := st.CopyOut(tline, flat, line);
      nl, rest := 0, 0;
      if ok {
        nl, rest := Take(lp, f, line);
      }
    }

    /** `getline`: the text that the file presents at an address, with or without a mark bit, is put into the
        line buffer. */
    method GetText(tl: nat, ghost line: seq<byte>)
      requires Valid() && tl - tl % 2 in live && |line| < LBSIZE
      requires TextAt(st.Shown(flat), 2 * (tl - tl % 2), line)
      modifies st, st.ibuff, st.crbuf, st.linebuf
      ensures Valid() && st.linebuf[..|line| + 1] == line + [0]
      ensures st.Shown(flat) == old(st.Shown(flat)) && st.oblock == old(st.oblock)
      ensures st.xtflag == old(st.xtflag) && st.tperm[..] == old(st.tperm[..])
    {
      st.CopyIn(tl, st.Shown(flat), 2 * (tl - tl % 2), line);
    }

    /** In a file that can be used, that is the line as it was stored, for every address that `putline` has
        returned. */
    method GetLine(tl: nat)
      requires Valid() && st.Usable() && tl - tl % 2 in live
      modifies st, st.ibuff, st.crbuf, st.linebuf
      ensures Valid() && st.xtflag == old(st.xtflag) && st.tperm[..] == old(st.tperm[..])
      ensures var line := live[tl - tl % 2]; st.linebuf[..|line| + 1] == line + [0]
    {
      st.ShownSame(flat);
      GetText(tl, live[tl - tl % 2]);
    }

    /** With blank tables, once the output block is past it, the text at an address is the same whatever line has
        been stored there. */
    method GetLost(tl: nat)
      requires Valid() && st.xtflag && Blank(st.tperm[..]) && tl - tl % 2 in live
      requires 2 * (tl - tl % 2) + 256 <= BLKSIZE * st.oblock
      modifies st, st.ibuff, st.crbuf, st.linebuf
      ensures Valid() && st.xtflag == old(st.xtflag) && st.tperm[..] == old(st.tperm[..])
      ensures var lost := Lost(2 * (tl - tl % 2)); st.linebuf[..|lost| + 1] == lost + [0]
    {
      LostThere(st, flat, 2 * (tl - tl % 2));
      GetText(tl, Lost(2 * (tl - tl % 2)));
    }
  }

  /** Tables that have never been made. */
  predicate Blank(perm: seq<byte>) {
    |perm| == PERMSIZE && forall i :: 0 <= i < PERMSIZE ==> perm[i] == 0
  }

  /** With them, what a byte becomes depends on its place alone, so that they are of no use. */
  lemma BlankTables(perm: seq<byte>, i: nat)
    requires Blank(perm)
    ensures !Good(perm) && forall c: byte :: Enc(perm, c, i) == Down(0, i % 256)
  {
    assert T3(perm, 0) == 0;
  }

  /** What is left at byte i: bytes that count down to the next multiple of 256. */
  function Lost(i: nat): (s: seq<byte>)
    ensures |s| == (256 - i % 256) % 256 && forall k :: 0 <= k < |s| ==> s[k] == 256 - i % 256 - k
  {
    seq((256 - i % 256) % 256, k requires 0 <= k < (256 - i % 256) % 256 => 256 - i % 256 - k)
  }

  lemma LostByte(st: Store, f: seq<byte>, j: nat)
    requires st.tperm.Length == PERMSIZE && st.xtflag && Blank(st.tperm[..]) && j < BLKSIZE * st.oblock <= |f|
    ensures st.Shown(f)[j] == Down(0, j % 256)
  {
    BlankTables(st.tperm[..], j % BLKSIZE);
    SameRotor(j);
  }

  lemma SameRotor(j: nat)
    ensures (j % BLKSIZE) % 256 == j % 256
  {
  }

  lemma CountDown(i: nat, k: nat)
    requires k <= (256 - i % 256) % 256
    ensures Down(0, (i + k) % 256) == if k < |Lost(i)| then Lost(i)[k] else 0
  {
    if i % 256 == 0 {
      assert k == 0;
    } else {
      assert i % 256 + k < 256 ==> (i + k) % 256 == i % 256 + k;
    }
  }

  lemma LostThere(st: Store, f: seq<byte>, i: nat)
    requires st.tperm.Length == PERMSIZE && st.xtflag && Blank(st.tperm[..])
    requires i + 256 <= BLKSIZE * st.oblock <= |f|
    ensures TextAt(st.Shown(f), i, Lost(i))
  {
    hide Lost, Down, Enc, EncAt, Blank, TextAt;
    var end := i + |Lost(i)|;
    forall j: nat | i <= j <= end
      ensures st.Shown(f)[j] == if j < end then Lost(i)[j - i] else 0
    {
      LostByte(st, f, j);
      CountDown(i, j - i);
    }
    TextThere(st.Shown(f), i, Lost(i));
  }

  lemma TextThere(g: seq<byte>, i: nat, line: seq<byte>)
    requires i + |line| < |g| && g[i + |line|] == 0 && 0 !in line
    requires forall j :: i <= j < i + |line| ==> g[j] == line[j - i]
    ensures TextAt(g, i, line)
  {
    assert g[i..i + |line|] == line;
  }
}
