/** Copying lines: ed's command t, which appends while it reads (bin/ed/ed.c). */
module EdCopy {
  import opened Basics
  import opened EdLines
  import opened EdStore
  import opened EdRuns

  /** How the command ends: with copies; with the temporary file full; or `getcopy` reads through a pointer into a line
      array that has been given up, where the model stops. */
  datatype Ending = Copied | Full | Stale

  /** The lines have their texts in the file. */
  ghost predicate Filed(live: map<nat, Line>, cells: seq<int>) {
    forall c <- cells :: Unmark(c) in live
  }

  ghost function Texts(live: map<nat, Line>, cells: seq<int>): (s: seq<Line>)
    requires Filed(live, cells)
    ensures |s| == |cells| && forall i :: 0 <= i < |s| ==> s[i] == live[Unmark(cells[i])]
  {
    seq(|cells|, i requires 0 <= i < |cells| => live[Unmark(cells[i])])
  }

  /** The table and the file have no memory in common. */
  ghost predicate Apart(t: LineTable, f: LineFile)
    reads t, f
  {
    var own: set<object> := {f, f.st, f.st.ibuff, f.st.obuff, f.st.crbuf, f.st.linebuf, f.st.tperm};
    t !in own && t.zero !in own
  }

  /** `getcopy`, without the test for the end: the line comes into the line buffer. */
  method ReadLine(f: LineFile, cell: int, ghost line: Line)
    requires f.Valid() && f.st.Usable() && Unmark(cell) in f.live && line == f.live[Unmark(cell)]
    modifies f.st, f.st.ibuff, f.st.crbuf, f.st.linebuf
    ensures f.Valid() && f.st.Usable() && LineIn(f.st.linebuf[..], line)
  {
    HasBuffers(f);
    assert |line| < LBSIZE && LineAt(f.flat, 2 * Unmark(cell), line);
    f.GetLine(cell);
    HasBuffers(f);
    assert f.st.linebuf[..|line| + 1][..|line|] == line && f.st.linebuf[..|line| + 1][|line|] == 0;
  }

  /** One turn of `append`: a line of the file is copied behind the last one. */
  method CopyLine(t: LineTable, f: LineFile, cell: int, ghost line: Line) returns (ok: bool)
    requires t.Valid() && f.Valid() && f.st.Usable() && Apart(t, f) && t.dot == t.dol
    requires Unmark(cell) in f.live && line == f.live[Unmark(cell)]
    modifies t, t.zero, f, f.st, f.st.ibuff, f.st.obuff, f.st.crbuf, f.st.linebuf
    ensures t.Valid() && f.Valid() && f.st.Usable() && Apart(t, f) && t.dot == t.dol && t.fchange
    ensures ok <==> Room(old(f.tline), |line|)
    ensures ok ==> old(f.tline) !in old(f.live) && f.live == old(f.live)[old(f.tline) := line]
    ensures ok ==> f.tline == NextLine(old(f.tline), |line| + 1) && t.Cells() == old(t.Cells()) + [old(f.tline)]
    ensures !ok ==> f.live == old(f.live) && f.tline == old(f.tline) && t.Cells() == old(t.Cells())
    ensures if old(t.dol) + 1 >= old(t.zero.Length) then fresh(t.zero) else t.zero == old(t.zero)
  {
    hide LineFile.Valid;
    ReadLine(f, cell, line);
    t.Grow();
    t.fchange := true;
    ghost var s := t.Cells();
    var nl, rest;
    ok, nl, rest := f.PutLine(line);
    if ok {
      assert t.Cells() == s;
      t.Insert(nl);
      assert Inserted(s, |s| - 1, [nl]) == s + [nl];
    }
  }

  /** Nothing that the file has had is gone. */
  ghost predicate Grown(was: map<nat, Line>, live: map<nat, Line>) {
    forall a <- was :: a in live && live[a] == was[a]
  }

  /** How the copying of these texts ends, when the line array has room cells left, the one behind the last line not
      counted: whichever comes first. */
  function Ends(start: nat, texts: seq<Line>, room: nat): Ending {
    var n := Fit(start, texts, 0);
    if n < |texts| && n < room then Full else if room < |texts| then Stale else Copied
  }

  /** How many lines have been copied then. */
  function Turns(start: nat, texts: seq<Line>, room: nat): (n: nat)
    ensures n <= |texts|
  {
    match Ends(start, texts, room)
    case Copied => |texts|
    case Full => Fit(start, texts, 0)
    case Stale => room
  }

  /** What is to be copied: the cells and the file as they were, where the file ended, and the texts. */
  datatype Plan = Plan(cells: seq<int>, live: map<nat, Line>, start: nat, texts: seq<Line>)

  /** The texts are those of the lines from addr1 to addr2. */
  ghost predicate Wanted(p: Plan, addr1: nat, addr2: nat) {
    && 0 < addr1 <= addr2 < |p.cells| && Filed(p.live, p.cells[1..])
    && p.texts == Texts(p.live, p.cells[1..])[addr1 - 1..addr2]
  }

  /** What the copying has done after i turns: the cells, what is in the file, and where that ends. */
  ghost predicate Copying(cells: seq<int>, live: map<nat, Line>, tline: nat, p: Plan, i: nat) {
    && i <= Fit(p.start, p.texts, 0)
    && cells == p.cells + Places(p.start, p.texts, i) && tline == Addr(p.start, p.texts, i)
    && Kept(live, Places(p.start, p.texts, i), p.texts[..i]) && Grown(p.live, live)
    && Fit(p.start, p.texts, 0) == Fit(p.start, p.texts, i)
  }

  lemma CopyingFirst(p: Plan)
    ensures Copying(p.cells, p.live, p.start, p, 0)
  {
    assert p.cells + [] == p.cells;
  }

  lemma CopyingMore(cells: seq<int>, live: map<nat, Line>, tline: nat, p: Plan, i: nat)
    requires i < |p.texts| && Copying(cells, live, tline, p, i)
    requires tline % 2 == 0 && tline !in live && Room(tline, |p.texts[i]|)
    ensures Copying(cells + [tline], live[tline := p.texts[i]], NextLine(tline, |p.texts[i]| + 1), p, i + 1)
  {
    hide Kept, Room, NextLine;
    KeptMore(live, Places(p.start, p.texts, i), p.texts[..i], tline, p.texts[i]);
    assert Places(p.start, p.texts, i + 1) == Places(p.start, p.texts, i) + [tline];
    assert p.texts[..i + 1] == p.texts[..i] + [p.texts[i]];
  }

  lemma CopyingEnds(cells: seq<int>, live: map<nat, Line>, tline: nat, p: Plan, i: nat)
    requires Copying(cells, live, tline, p, i)
    ensures i < |p.texts| ==> (i < Fit(p.start, p.texts, 0) <==> Room(tline, |p.texts[i]|))
    ensures i <= Fit(p.start, p.texts, 0) && |cells| == |p.cells| + i
  {
  }

  /** The line to be copied is still where it was. */
  lemma CellThere(cells: seq<int>, live: map<nat, Line>, tline: nat, p: Plan, i: nat, addr1: nat, addr2: nat)
    requires i < |p.texts| && Copying(cells, live, tline, p, i) && Wanted(p, addr1, addr2)
    ensures var a := addr1 + i; a < |cells| && Unmark(cells[a]) in live && live[Unmark(cells[a])] == p.texts[i]
  {
    var a := addr1 + i;
    assert cells[a] == p.cells[a] == p.cells[1..][a - 1] && p.cells[1..][a - 1] in p.cells[1..];
  }

  /** The table and the file between turns. */
  ghost predicate Steady(t: LineTable, f: LineFile)
    reads t, f, f.st, f.st.ibuff, f.st.obuff, f.st.tperm
  {
    t.Valid() && f.Valid() && f.st.Usable() && Apart(t, f) && t.dot == t.dol
  }

  ghost predicate Going(t: LineTable, f: LineFile, p: Plan, i: nat)
    reads t, t.zero, f, f.st, f.st.ibuff, f.st.obuff, f.st.tperm
  {
    Steady(t, f) && Copying(t.Cells(), f.live, f.tline, p, i)
  }

  method CopyTurn(t: LineTable, f: LineFile, cell: int, ghost p: Plan, ghost i: nat) returns (ok: bool)
    requires Going(t, f, p, i) && i < |p.texts|
    requires Unmark(cell) in f.live && f.live[Unmark(cell)] == p.texts[i]
    modifies t, t.zero, f, f.st, f.st.ibuff, f.st.obuff, f.st.crbuf, f.st.linebuf
    ensures Going(t, f, p, if ok then i + 1 else i) && t.fchange && (ok <==> i < Fit(p.start, p.texts, 0))
    ensures if old(t.dol) + 1 >= old(t.zero.Length) then fresh(t.zero) else t.zero == old(t.zero)
  {
    EvenNext(f);
    hide LineFile.Valid, Store.Usable, Room, NextLine, Apart, Copying, LineTable.Cells;
    ghost var cells, live, tline := t.Cells(), f.live, f.tline;
    CopyingEnds(cells, live, tline, p, i);
    ok := CopyLine(t, f, cell, p.texts[i]);
    if ok {
      CopyingMore(cells, live, tline, p, i);
    }
  }

  /** The array is the one that `addr1` points into, as long as it has had room for the copies. The first of them
      has changed the text. */
  ghost predicate InPlace(t: LineTable, from: array<int>, room: nat, i: nat)
    reads t
  {
    0 < room && i <= room && (t.zero == from <==> i < room) && (i > 0 ==> t.fchange)
  }

  /** Where the loop is after i turns. */
  ghost predicate Stage(t: LineTable, f: LineFile, from: array<int>, p: Plan, room: nat, i: nat)
    reads t, t.zero, f, f.st, f.st.ibuff, f.st.obuff, f.st.tperm
  {
    Going(t, f, p, i) && InPlace(t, from, room, i)
  }

  /** `getcopy` reads through `addr1`, which points into the line array as it was when the command began. */
  method CopyNext(t: LineTable, f: LineFile, from: array<int>, a: nat, ghost addr1: nat, ghost addr2: nat,
                  ghost p: Plan, ghost room: nat, ghost i: nat) returns (go: bool, r: Ending)
    requires a == addr1 + i <= addr2 && Wanted(p, addr1, addr2) && |p.texts| == addr2 + 1 - addr1
    requires Stage(t, f, from, p, room, i) && room == from.Length + 1 - |p.cells|
    modifies t, t.zero, f, f.st, f.st.ibuff, f.st.obuff, f.st.crbuf, f.st.linebuf
    ensures (t.zero == old(t.zero) || fresh(t.zero)) && t.fchange
    ensures go ==> Stage(t, f, from, p, room, i + 1)
    ensures !go ==> r == Ends(p.start, p.texts, room) && Going(t, f, p, Turns(p.start, p.texts, room))
  {
    hide LineFile.Valid, Store.Usable, Copying, Fit, Apart, Wanted, LineTable.Cells;
    CopyingEnds(t.Cells(), f.live, f.tline, p, i);
    go, r := false, Stale;
    if t.zero == from {
      CellThere(t.Cells(), f.live, f.tline, p, i, addr1, addr2);
      assert t.Cells()[a] == from[a] by { CellIs(t, a); }
      go := CopyTurn(t, f, from[a], p, i);
      r := Full;
    }
  }

  lemma CellIs(t: LineTable, a: nat)
    requires t.Valid() && a < |t.Cells()|
    ensures t.Cells()[a] == t.zero[a]
  {
  }

  lemma AllFit(t: LineTable, f: LineFile, from: array<int>, p: Plan, room: nat)
    requires Stage(t, f, from, p, room, |p.texts|)
    ensures Ends(p.start, p.texts, room) == Copied && Going(t, f, p, Turns(p.start, p.texts, room))
    ensures p.texts != [] ==> t.fchange
  {
  }

  /** `append` with `getcopy`. */
  method CopyAll(t: LineTable, f: LineFile, addr1: nat, addr2: nat, ghost p: Plan, ghost room: nat)
    returns (r: Ending)
    requires Stage(t, f, t.zero, p, room, 0) && room == t.zero.Length + 1 - |p.cells|
    requires addr1 <= addr2 && Wanted(p, addr1, addr2) && |p.texts| == addr2 + 1 - addr1
    modifies t, t.zero, f, f.st, f.st.ibuff, f.st.obuff, f.st.crbuf, f.st.linebuf
    ensures r == Ends(p.start, p.texts, room) && t.fchange && Going(t, f, p, Turns(p.start, p.texts, room))
    ensures t.zero == old(t.zero) || fresh(t.zero)
  {
    hide *;
    var from, a := t.zero, addr1;
    var go;
    ghost var i := 0;
    while a <= addr2
      invariant a == addr1 + i <= addr2 + 1 && Stage(t, f, from, p, room, i)
      invariant t.zero == from || fresh(t.zero)
    {
      go, r := CopyNext(t, f, from, a, addr1, addr2, p, room, i);
      if !go {
        return;
      }
      a, i := a + 1, i + 1;
    }
    AllFit(t, f, from, p, room);
    r := Copied;
  }

  lemma TextsConcat(live: map<nat, Line>, a: seq<int>, b: seq<int>)
    requires Filed(live, a) && Filed(live, b)
    ensures Filed(live, a + b) && Texts(live, a + b) == Texts(live, a) + Texts(live, b)
  {
  }

  lemma TextsSplit(live: map<nat, Line>, cells: seq<int>, k: nat)
    requires Filed(live, cells) && k <= |cells|
    ensures Filed(live, cells[..k]) && Texts(live, cells[..k]) == Texts(live, cells)[..k]
    ensures Filed(live, cells[k..]) && Texts(live, cells[k..]) == Texts(live, cells)[k..]
  {
  }

  lemma TextsGrown(was: map<nat, Line>, live: map<nat, Line>, cells: seq<int>)
    requires Filed(was, cells) && Grown(was, live)
    ensures Filed(live, cells) && Texts(live, cells) == Texts(was, cells)
  {
    forall i | 0 <= i < |cells| ensures live[Unmark(cells[i])] == was[Unmark(cells[i])] {
      assert cells[i] in cells;
    }
  }

  lemma TextsKept(live: map<nat, Line>, addrs: seq<nat>, lines: seq<Line>)
    requires Kept(live, addrs, lines)
    ensures Filed(live, addrs) && Texts(live, addrs) == lines && forall x <- addrs :: !Marked(x)
  {
    forall c: int | c in addrs ensures Unmark(c) in live {
      var i :| 0 <= i < |addrs| && addrs[i] == c;
    }
    assert Filed(live, addrs);
    forall i | 0 <= i < |addrs| ensures Texts(live, addrs)[i] == lines[i] {
      assert Unmark(addrs[i]) == addrs[i];
    }
  }

  /** With the copies behind line adt, so are their texts. */
  lemma CopiedTexts(p: Plan, live: map<nat, Line>, adt: nat, copies: seq<nat>)
    requires adt < |p.cells| && Filed(p.live, p.cells[1..]) && Grown(p.live, live) && Kept(live, copies, p.texts)
    ensures var cells, was := Inserted(p.cells, adt, copies)[1..], Texts(p.live, p.cells[1..]);
      Filed(live, cells) && Texts(live, cells) == was[..adt] + p.texts + was[adt..]
  {
    hide Filed, Texts, Grown, Kept;
    var lines := p.cells[1..];
    assert Inserted(p.cells, adt, copies)[1..] == lines[..adt] + copies + lines[adt..];
    TextsGrown(p.live, live, lines);
    TextsSplit(live, lines, adt);
    TextsKept(live, copies, p.texts);
    TextsConcat(live, lines[..adt], copies);
    TextsConcat(live, lines[..adt] + copies, lines[adt..]);
  }

  /** The copies, all made, come behind line adt. */
  method PutBehind(t: LineTable, f: LineFile, ad1: nat, adt: nat, ghost p: Plan)
    requires Going(t, f, p, |p.texts|) && p.texts != [] && adt < |p.cells| == ad1 && Filed(p.live, p.cells[1..])
    modifies t, t.zero
    ensures t.Valid() && f.Valid() && f.st.Usable() && (old(t.fchange) ==> t.fchange)
    ensures Filed(f.live, t.Cells()[1..]) && t.dot == adt + |p.texts|
    ensures var was := Texts(p.live, p.cells[1..]); Texts(f.live, t.Cells()[1..]) == was[..adt] + p.texts + was[adt..]
  {
    hide LineFile.Valid, Store.Usable, Fit, Filed, Texts, Grown, Kept;
    ghost var copies := Places(p.start, p.texts, |p.texts|);
    assert p.texts[..|p.texts|] == p.texts;
    TextsKept(f.live, copies, p.texts);
    CopiedTexts(p, f.live, adt, copies);
    t.PutCopies(ad1, adt, p.cells, copies);
  }

  /** `move`, when it copies: the texts of the lines from addr1 to addr2 come behind line adt once more, and nothing
      else changes; unless the file has no room, or the line array not so many cells. */
  method Copy(t: LineTable, f: LineFile, addr1: nat, addr2: nat, adt: nat) returns (r: Ending)
    requires t.Valid() && f.Valid() && f.st.Usable() && Apart(t, f) && Filed(f.live, t.Cells()[1..])
    requires 0 < addr1 <= addr2 <= t.dol && adt <= t.dol
    modifies t, t.zero, f, f.st, f.st.ibuff, f.st.obuff, f.st.crbuf, f.st.linebuf
    ensures t.Valid() && f.Valid() && f.st.Usable() && Grown(old(f.live), f.live) && t.fchange
    ensures r == Ends(old(f.tline), old(Texts(f.live, t.Cells()[1..]))[addr1 - 1..addr2], old(t.zero.Length - t.dol))
    ensures var texts := old(Texts(f.live, t.Cells()[1..]))[addr1 - 1..addr2];
      r == Stale <==>
      old(t.dol) + (addr2 - addr1) >= old(t.zero.Length) && Fit(old(f.tline), texts, 0) >= old(t.zero.Length - t.dol)
    ensures r == Copied ==> Filed(f.live, t.Cells()[1..]) && t.dot == adt + (addr2 + 1 - addr1)
    ensures r == Copied ==> var was := old(Texts(f.live, t.Cells()[1..]));
      Texts(f.live, t.Cells()[1..]) == was[..adt] + was[addr1 - 1..addr2] + was[adt..]
    ensures r != Copied ==> var texts := old(Texts(f.live, t.Cells()[1..]))[addr1 - 1..addr2];
      t.Cells() == old(t.Cells()) + Places(old(f.tline), texts, Turns(old(f.tline), texts,
                                                                     old(t.zero.Length - t.dol)))
  {
    hide LineFile.Valid, Store.Usable, Fit, Filed, Texts, Kept;
    ghost var p := Plan(t.Cells(), f.live, f.tline, Texts(f.live, t.Cells()[1..])[addr1 - 1..addr2]);
    var ad1 := t.dol + 1;
    t.dot := t.dol;
    CopyingFirst(p);
    assert Stage(t, f, t.zero, p, t.zero.Length - t.dol, 0);
    r := CopyAll(t, f, addr1, addr2, p, t.zero.Length - t.dol);
    if r == Copied {
      PutBehind(t, f, ad1, adt, p);
    }
  }

  /** A line of the table, read back from the file. */
  method ReadCell(t: LineTable, f: LineFile, a: nat) returns (got: Line)
    requires t.Valid() && f.Valid() && f.st.Usable() && Filed(f.live, t.Cells()[1..]) && 0 < a <= t.dol
    modifies f.st, f.st.ibuff, f.st.crbuf, f.st.linebuf
    ensures got == old(Texts(f.live, t.Cells()[1..]))[a - 1]
  {
    hide LineFile.Valid, Store.Usable;
    assert t.Cells()[1..][a - 1] == t.zero[a] && t.Cells()[1..][a - 1] in t.Cells()[1..];
    got := GetText(f, t.zero[a]);
  }

  /** Line adt + 1 + i is then line addr1 + i as it was. */
  method CopyAndRead(t: LineTable, f: LineFile, addr1: nat, addr2: nat, adt: nat, i: nat)
    returns (r: Ending, got: Line)
    requires t.Valid() && f.Valid() && f.st.Usable() && Apart(t, f) && Filed(f.live, t.Cells()[1..])
    requires 0 < addr1 <= addr2 <= t.dol && adt <= t.dol && i <= addr2 - addr1
    modifies t, t.zero, f, f.st, f.st.ibuff, f.st.obuff, f.st.crbuf, f.st.linebuf
    ensures r == Copied ==> got == old(Texts(f.live, t.Cells()[1..]))[addr1 - 1 + i]
  {
    hide LineFile.Valid, Store.Usable, Filed, Texts, Fit, Apart, Ends, Turns;
    ghost var was := Texts(f.live, t.Cells()[1..]);
    r := Copy(t, f, addr1, addr2, adt);
    got := [];
    if r == Copied {
      CopiedText(was, adt, addr1 - 1, addr2, i);
      got := ReadCell(t, f, adt + 1 + i);
    }
  }

  lemma CopiedText(was: seq<Line>, adt: nat, from: nat, to: nat, i: nat)
    requires adt <= |was| && from <= to <= |was| && i < to - from
    ensures (was[..adt] + was[from..to] + was[adt..])[adt + i] == was[from + i]
  {
  }

  /** Empty lines take two units each. */
  lemma {:induction false} EmptyPlace(lines: seq<Line>, k: nat)
    requires k <= |lines| && forall line <- lines :: line == []
    ensures Addr(2, lines, k) == 2 + 2 * k
  {
    if k > 0 {
      EmptyPlace(lines, k - 1);
      assert lines[k - 1] in lines;
    }
  }

  lemma {:induction false} EmptyFit(lines: seq<Line>, k: nat)
    requires k <= |lines| <= 127 && forall line <- lines :: line == []
    ensures Fit(2, lines, k) == |lines|
    decreases |lines| - k
  {
    if k < |lines| {
      EmptyPlace(lines, k);
      assert lines[k] in lines;
      EmptyFit(lines, k + 1);
    }
  }

  /** So many empty lines. */
  method PutEmpty(f: LineFile, n: nat) returns (addrs: seq<nat>)
    requires f.Valid() && f.st.Usable() && f.tline == 2 && n <= 127
    modifies f, f.st, f.st.ibuff, f.st.obuff, f.st.crbuf, f.st.linebuf
    ensures f.Valid() && f.st.Usable() && f.tline == 2 + 2 * n && |addrs| == n && Filed(f.live, addrs)
  {
    hide LineFile.Valid, Filed, Kept;
    var lines: seq<Line> := seq(n, _ => []);
    EmptyPlace(lines, n);
    EmptyFit(lines, 0);
    hide Fit, Room, NextLine;
    addrs := PutAll(f, lines);
    assert lines[..n] == lines;
    TextsKept(f.live, addrs, lines);
  }

  /** 127 lines fill the array that ed begins with. */
  method FullTable() returns (t: LineTable, f: LineFile)
    ensures t.Valid() && t.dol + 1 == t.zero.Length && f.Valid() && f.st.Usable() && Apart(t, f) && f.tline == 256
    ensures fresh(t) && fresh(t.zero) && fresh(f) && fresh(f.st) && t.dol == 127
    ensures fresh(f.st.ibuff) && fresh(f.st.obuff) && fresh(f.st.crbuf) && fresh(f.st.linebuf)
    ensures Filed(f.live, t.Cells()[1..])
  {
    hide LineFile.Valid, Store.Usable, Filed, Blank;
    f := new LineFile();
    f.Init(false, 0, _ => 0);
    var addrs := PutEmpty(f, 127);
    t := new LineTable();
    t.Append(0, addrs);
    assert t.Cells()[1..] == addrs;
  }

  /** A run that comes to it: in a full array the first two of the lines are copied. */
  method StaleRun() returns (r: Ending)
    ensures r == Stale
  {
    var t, f := FullTable();
    assert forall a <- f.live :: |f.live[a]| < LBSIZE;
    ghost var texts := Texts(f.live, t.Cells()[1..])[0..2];
    assert t.Cells()[1] in t.Cells()[1..];
    FitsOne(256, texts);
    hide LineFile.Valid, Store.Usable, Fit;
    r := Copy(t, f, 1, 2, 0);
  }

  lemma FitsOne(start: nat, texts: seq<Line>)
    requires texts != [] && Room(start, |texts[0]|)
    ensures Fit(start, texts, 0) >= 1
  {
  }
}
