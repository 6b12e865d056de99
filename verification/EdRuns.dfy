/** Runs of ed's temporary file: what comes back of the lines that have been put into it (bin/ed/ed.c). */
module EdRuns {
  import opened Basics
  import opened EdCipher
  import opened EdStore

  type Line = seq<byte>

  /** A line that the line buffer can hold. */
  ghost predicate Fitting(line: Line) {
    |line| < LBSIZE && forall c <- line :: !IsEnd(c)
  }

  /** A line is put into the file, or the k-th of those that have been is read back, by its address with or without
      the mark bit. */
  datatype Op = Put(line: Line) | Get(k: nat, marked: bool)

  datatype Reply = Taken | NoRoom | Text(line: Line) | Nothing

  /** The file has room for n more characters and their null. */
  predicate Room(tline: nat, n: nat) {
    2 * tline + n < BLKSIZE * LASTBLK
  }

  /** What a run should give: every line that has been taken comes back as it was put. */
  function Given(script: seq<Op>, tline: nat, lines: seq<Line>): seq<Reply> {
    if script == [] then []
    else
      var rest := script[1..];
      match script[0]
      case Put(line) =>
        if Room(tline, |line|) then [Taken] + Given(rest, NextLine(tline, |line| + 1), lines + [line])
        else [NoRoom] + Given(rest, tline, lines)
      case Get(k, _) => [if k < |lines| then Text(lines[k]) else Nothing] + Given(rest, tline, lines)
  }

  /** The lines are in the file, under these addresses. */
  ghost predicate Kept(live: map<nat, Line>, addrs: seq<nat>, lines: seq<Line>) {
    && |addrs| == |lines|
    && forall i :: 0 <= i < |addrs| ==> addrs[i] % 2 == 0 && addrs[i] in live && live[addrs[i]] == lines[i]
  }

  lemma KeptMore(live: map<nat, Line>, addrs: seq<nat>, lines: seq<Line>, a: nat, line: Line)
    requires Kept(live, addrs, lines) && a !in live && a % 2 == 0
    ensures Kept(live[a := line], addrs + [a], lines + [line])
  {
  }

  /** A line comes into the line buffer, and from there into the file. */
  method PutText(f: LineFile, line: Line) returns (ok: bool, nl: nat)
    requires f.Valid() && Fitting(line)
    modifies f, f.st, f.st.ibuff, f.st.obuff, f.st.crbuf, f.st.linebuf
    ensures f.Valid() && f.st.xtflag == old(f.st.xtflag) && f.st.tperm[..] == old(f.st.tperm[..])
    ensures ok <==> Room(old(f.tline), |line|)
    ensures ok ==> nl == old(f.tline) && nl !in old(f.live) && f.live == old(f.live)[nl := line]
    ensures ok ==> f.tline == NextLine(old(f.tline), |line| + 1)
    ensures !ok ==> f.live == old(f.live) && f.tline == old(f.tline)
  {
    Fill(f, line);
    var rest;
    ok, nl, rest := f.PutLine(line);
  }

  method Fill(f: LineFile, line: Line)
    requires f.Valid() && Fitting(line)
    modifies f.st.linebuf
    ensures f.Valid() && LineIn(f.st.linebuf[..], line) && f.st.tperm[..] == old(f.st.tperm[..])
  {
    assert f.st.Buffers();
    var buf, i := f.st.linebuf, 0;
    while i < |line|
      invariant i <= |line| && buf[..i] == line[..i]
    {
      buf[i] := line[i];
      assert buf[..i + 1] == buf[..i] + [buf[i]];
      i := i + 1;
    }
    buf[i] := 0;
    assert buf[..|line|] == line;
  }

  /** The text in the line buffer. */
  method TextIn(buf: array<byte>, ghost line: Line) returns (s: Line)
    requires |line| < buf.Length && buf[..|line| + 1] == line + [0] && 0 !in line
    ensures s == line
  {
    s := [];
    assert forall i :: 0 <= i <= |line| ==> buf[i] == (line + [0])[i];
    while buf[|s|] != 0
      invariant |s| <= |line| && s == line[..|s|]
      decreases |line| - |s|
    {
      assert line[|s|] in line;
      s := s + [buf[|s|]];
    }
  }

  /** The line that is kept at an address. */
  method GetText(f: LineFile, tl: nat) returns (s: Line)
    requires f.Valid() && f.st.Usable() && tl - tl % 2 in f.live
    modifies f.st, f.st.ibuff, f.st.crbuf, f.st.linebuf
    ensures f.Valid() && f.st.xtflag == old(f.st.xtflag) && f.st.tperm[..] == old(f.st.tperm[..])
    ensures s == f.live[tl - tl % 2]
  {
    ghost var line := f.live[tl - tl % 2];
    assert LineAt(f.flat, 2 * (tl - tl % 2), line);
    HasBuffers(f);
    assert |line| < LBSIZE;
    f.GetLine(tl);
    s := TextIn(f.st.linebuf, line);
  }

  ghost predicate Wellformed(script: seq<Op>) {
    forall op <- script :: op.Put? ==> Fitting(op.line)
  }

  /** In a file that can be used, any run of `putline` and `getline`, in any order, gives what it should. */
  method Replay(f: LineFile, script: seq<Op>) returns (out: seq<Reply>)
    requires f.Valid() && f.st.Usable() && Wellformed(script)
    modifies f, f.st, f.st.ibuff, f.st.obuff, f.st.crbuf, f.st.linebuf
    ensures f.Valid() && f.st.Usable() && out == Given(script, old(f.tline), [])
  {
    hide LineFile.Valid, Store.Usable, Kept;
    out := [];
    var addrs: seq<nat> := [];
    ghost var lines: seq<Line> := [];
    var n := 0;
    assert script[0..] == script;
    assert Kept(f.live, addrs, lines) by { KeptNone(f.live); }
    while n < |script|
      invariant f.Valid() && f.st.Usable() && n <= |script| && Kept(f.live, addrs, lines)
      invariant out + Given(script[n..], f.tline, lines) == Given(script, old(f.tline), [])
    {
      assert script[n] in script && script[n..][1..] == script[n + 1..];
      var r;
      r, addrs, lines := Turn(f, script[n], addrs, lines, script[n..]);
      out, n := out + [r], n + 1;
    }
  }

  /** One more line among those that are kept. */
  method PutNext(f: LineFile, line: Line, addrs0: seq<nat>, ghost lines: seq<Line>) returns (ok: bool, addrs: seq<nat>)
    requires f.Valid() && Fitting(line) && Kept(f.live, addrs0, lines)
    modifies f, f.st, f.st.ibuff, f.st.obuff, f.st.crbuf, f.st.linebuf
    ensures f.Valid() && f.st.xtflag == old(f.st.xtflag) && f.st.tperm[..] == old(f.st.tperm[..])
    ensures ok <==> Room(old(f.tline), |line|)
    ensures ok ==> addrs == addrs0 + [old(f.tline)] && Kept(f.live, addrs, lines + [line])
    ensures ok ==> f.tline == NextLine(old(f.tline), |line| + 1)
    ensures !ok ==> addrs == addrs0 && Kept(f.live, addrs, lines) && f.tline == old(f.tline)
  {
    EvenNext(f);
    hide LineFile.Valid, Room, NextLine, Fitting, Kept;
    ghost var was := f.live;
    var nl;
    ok, nl := PutText(f, line);
    if ok {
      KeptMore(was, addrs0, lines, nl, line);
    }
    addrs := if ok then addrs0 + [nl] else addrs0;
  }

  lemma EvenNext(f: LineFile)
    requires f.Valid()
    ensures f.tline % 2 == 0
  {
  }

  method Turn(f: LineFile, op: Op, addrs0: seq<nat>, ghost lines0: seq<Line>, ghost script: seq<Op>)
    returns (r: Reply, addrs: seq<nat>, ghost lines: seq<Line>)
    requires f.Valid() && f.st.Usable() && (op.Put? ==> Fitting(op.line)) && Kept(f.live, addrs0, lines0)
    requires script != [] && script[0] == op
    modifies f, f.st, f.st.ibuff, f.st.obuff, f.st.crbuf, f.st.linebuf
    ensures f.Valid() && f.st.Usable() && Kept(f.live, addrs, lines)
    ensures Given(script, old(f.tline), lines0) == [r] + Given(script[1..], f.tline, lines)
  {
    hide LineFile.Valid;
    addrs, lines := addrs0, lines0;
    match op {
      case Put(line) =>
        var ok;
        ok, addrs := PutNext(f, line, addrs, lines);
        r := if ok then Taken else NoRoom;
        lines := if ok then lines + [line] else lines;
      case Get(k, marked) =>
        r := Nothing;
        if k < |addrs| {
          var s := GetText(f, if marked then addrs[k] + 1 else addrs[k]);
          r := Text(s);
        }
    }
  }

  /** Where the k-th of some lines comes to be. */
  function Addr(start: nat, lines: seq<Line>, k: nat): nat
    requires k <= |lines|
  {
    if k == 0 then start else NextLine(Addr(start, lines, k - 1), |lines[k - 1]| + 1)
  }

  /** How many of the lines there is room for, if there is for the first k. */
  function Fit(start: nat, lines: seq<Line>, k: nat): (n: nat)
    requires k <= |lines|
    ensures k <= n <= |lines|
    decreases |lines| - k
  {
    if k < |lines| && Room(Addr(start, lines, k), |lines[k]|) then Fit(start, lines, k + 1) else k
  }

  /** The places that the first n come to. */
  function Places(start: nat, lines: seq<Line>, n: nat): (s: seq<nat>)
    requires n <= |lines|
    ensures |s| == n && forall i :: 0 <= i < n ==> s[i] == Addr(start, lines, i)
  {
    seq(n, i requires 0 <= i < n => Addr(start, lines, i))
  }

  lemma KeptNone(live: map<nat, Line>)
    ensures Kept(live, [], [])
  {
  }

  /** The lines are put one after the other, as long as there is room. */
  method PutAll(f: LineFile, lines: seq<Line>) returns (addrs: seq<nat>)
    requires f.Valid() && forall line <- lines :: Fitting(line)
    modifies f, f.st, f.st.ibuff, f.st.obuff, f.st.crbuf, f.st.linebuf
    ensures f.Valid() && f.st.xtflag == old(f.st.xtflag) && f.st.tperm[..] == old(f.st.tperm[..])
    ensures var n := Fit(old(f.tline), lines, 0);
      && addrs == Places(old(f.tline), lines, n) && Kept(f.live, addrs, lines[..n])
      && f.tline == Addr(old(f.tline), lines, n)
  {
    hide LineFile.Valid, Room, NextLine, Fitting, Kept;
    ghost var start := f.tline;
    var n := 0;
    addrs := [];
    assert Kept(f.live, addrs, lines[..0]) by { KeptNone(f.live); }
    while n < |lines|
      invariant n <= |lines| && f.Valid() && f.tline == Addr(start, lines, n) && Kept(f.live, addrs, lines[..n])
      invariant f.st.xtflag == old(f.st.xtflag) && f.st.tperm[..] == old(f.st.tperm[..])
      invariant addrs == Places(start, lines, n) && Fit(start, lines, 0) == Fit(start, lines, n)
    {
      assert lines[n] in lines;
      var ok;
      ok, addrs := PutNext(f, lines[n], addrs, lines[..n]);
      if !ok {
        return;
      }
      assert lines[..n + 1] == lines[..n] + [lines[n]];
      n := n + 1;
    }
  }

  /** As far as the text of a lost line goes from this address on, everything has left the output block. */
  predicate Gone(tl: nat, tline: nat) {
    2 * tl + 256 <= BLKSIZE * ((2 * tline - 1) / BLKSIZE)
  }

  /** The output block is not behind the end of the file by more than its own length. */
  lemma OutputBlock(f: LineFile, tl: nat)
    requires f.Valid() && Gone(tl, f.tline)
    ensures 2 * tl + 256 <= BLKSIZE * f.st.oblock
  {
    assert f.st.Filed(f.st.Shown(f.flat));
    assert 2 * f.tline <= BLKSIZE * (f.st.oblock + 1);
  }

  lemma HasBuffers(f: LineFile)
    requires f.Valid()
    ensures f.st.Buffers()
  {
  }

  method LostText(f: LineFile, tl: nat) returns (got: Line)
    requires f.Valid() && f.st.xtflag && Blank(f.st.tperm[..]) && tl in f.live && tl % 2 == 0 && Gone(tl, f.tline)
    modifies f.st, f.st.ibuff, f.st.crbuf, f.st.linebuf
    ensures got == Lost(2 * tl)
  {
    hide LineFile.Valid, Gone, Blank, Lost;
    OutputBlock(f, tl);
    HasBuffers(f);
    f.GetLost(tl);
    HasBuffers(f);
    got := TextIn(f.st.linebuf, Lost(2 * tl));
  }

  /** A run of ed -x in which the first byte of the key comes out null: of a line whose block has gone out nothing
      comes back, but the bytes that its place makes, whatever lines have been put. */
  method LostRun(draws: nat -> nat, lines: seq<Line>, k: nat) returns (got: Line)
    requires k < |lines| && forall line <- lines :: Fitting(line)
    ensures var n := Fit(2, lines, 0);
      k < n && Gone(Addr(2, lines, k), Addr(2, lines, n)) ==> got == Lost(2 * Addr(2, lines, k))
  {
    hide LineFile.Valid, Room, Gone, Addr, Lost, Store.Usable, Blank;
    var f := new LineFile();
    f.Init(true, 0, draws);
    var addrs := PutAll(f, lines);
    got := [];
    if k < |addrs| && Gone(addrs[k], f.tline) {
      got := LostText(f, addrs[k]);
    }
  }

  /** A run of ed from its start, without -x, or with a key whose first byte is not null. */
  method Session(xflag: bool, temp0: int, draws: nat -> nat, script: seq<Op>) returns (out: seq<Reply>)
    requires (xflag ==> temp0 != 0) && Wellformed(script)
    ensures out == Given(script, 2, [])
  {
    var f := new LineFile();
    f.Init(xflag, temp0, draws);
    out := Replay(f, script);
  }
}
