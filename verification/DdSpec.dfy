/** What dd's record conversions make of a whole input (section 4.16 of IEEE Std 1003.2-1992; bin/dd/conv.c).
    No character translation is asked for (`ctab` is null). */
module DdSpec {
  import opened Basics

  const NL: byte := 10
  const SPACE: byte := 32

  function Spaces(n: nat): (s: seq<byte>)
    ensures |s| == n && forall i :: 0 <= i < n ==> s[i] == SPACE
  {
    seq(n, _ => SPACE)
  }

  /** A line cut, or padded with spaces, to c bytes. */
  function Record(line: seq<byte>, c: nat): (r: seq<byte>)
    ensures |r| == c
  {
    if |line| >= c then line[..c] else line + Spaces(c - |line|)
  }

  /** Where the first line ends: at its newline, or with the input. */
  function LineLength(s: seq<byte>): (n: nat)
    ensures n <= |s| && NL !in s[..n] && (n < |s| ==> s[n] == NL)
  {
    if s == [] || s[0] == NL then 0
    else
      var n := LineLength(s[1..]);
      assert s[..n + 1] == [s[0]] + s[1..][..n];
      n + 1
  }

  /** conv=block: one record for each line; an unterminated last line counts if it is not empty. */
  function Block(s: seq<byte>, c: nat): seq<byte>
    decreases |s|
  {
    if s == [] then []
    else
      var n := LineLength(s);
      Record(s[..n], c) + if n < |s| then Block(s[n + 1..], c) else []
  }

  /** A record without its trailing spaces. */
  function Strip(s: seq<byte>): (r: seq<byte>)
    ensures r <= s && (r == [] || r[|r| - 1] != SPACE)
    ensures forall i :: |r| <= i < |s| ==> s[i] == SPACE
  {
    if s == [] || s[|s| - 1] != SPACE then s else Strip(s[..|s| - 1])
  }

  /** conv=unblock: each c bytes become a line; a short last record counts if it is not empty. */
  function Unblock(s: seq<byte>, c: nat): seq<byte>
    requires c > 0
    decreases |s|
  {
    if s == [] then []
    else if |s| < c then Strip(s) + [NL]
    else Strip(s[..c]) + [NL] + Unblock(s[c..], c)
  }

  /** The input can be cut here without cutting a line. */
  ghost predicate Complete(s: seq<byte>) {
    s == [] || s[|s| - 1] == NL
  }

  lemma {:induction false} LineLengthIs(line: seq<byte>, rest: seq<byte>)
    requires NL !in line && (rest != [] ==> rest[0] == NL)
    ensures LineLength(line + rest) == |line|
  {
    if line != [] {
      assert (line + rest)[1..] == line[1..] + rest;
      LineLengthIs(line[1..], rest);
    } else {
      assert line + rest == rest;
    }
  }

  /** The first line makes the first record. */
  lemma BlockStep(line: seq<byte>, rest: seq<byte>, c: nat)
    requires NL !in line
    ensures Block(line + [NL] + rest, c) == Record(line, c) + Block(rest, c)
  {
    var s := line + [NL] + rest;
    assert s == line + ([NL] + rest);
    LineLengthIs(line, [NL] + rest);
    assert s[..|line|] == line && s[|line| + 1..] == rest;
  }

  lemma BlockTail(line: seq<byte>, c: nat)
    requires NL !in line && line != []
    ensures Block(line, c) == Record(line, c)
  {
    assert line + [] == line && line[..|line|] == line;
    LineLengthIs(line, []);
  }

  /** Complete text splits into its first line and complete text. */
  lemma FirstLine(a: seq<byte>) returns (line: seq<byte>, rest: seq<byte>)
    requires Complete(a) && a != []
    ensures a == line + [NL] + rest && NL !in line && Complete(rest)
  {
    var n := LineLength(a);
    assert a[..|a|] == a && NL in a;
    line, rest := a[..n], a[n + 1..];
  }

  /** Complete lines are converted independently of what follows. */
  lemma {:induction false} BlockConcat(a: seq<byte>, b: seq<byte>, c: nat)
    requires Complete(a)
    ensures Block(a + b, c) == Block(a, c) + Block(b, c)
    decreases |a|
  {
    if a == [] {
      assert a + b == b;
    } else {
      var line, rest := FirstLine(a);
      BlockConcat(rest, b, c);
      BlockConcatStep(line, rest, b, c);
    }
  }

  lemma BlockConcatStep(line: seq<byte>, rest: seq<byte>, b: seq<byte>, c: nat)
    requires NL !in line && Block(rest + b, c) == Block(rest, c) + Block(b, c)
    ensures Block(line + [NL] + rest + b, c) == Block(line + [NL] + rest, c) + Block(b, c)
  {
    BlockStep(line, rest, c);
    BlockStep(line, rest + b, c);
    Reassociate(line + [NL], rest, b);
    Reassociate(Record(line, c), Block(rest, c), Block(b, c));
  }

  /** One more line, with its newline, makes one more record. */
  lemma BlockLine(a: seq<byte>, line: seq<byte>, c: nat)
    requires Complete(a) && NL !in line
    ensures Block(a + line + [NL], c) == Block(a, c) + Record(line, c) && Complete(a + line + [NL])
  {
    assert Block([], c) == [];
    hide Block, Record;
    BlockStep(line, [], c);
    Reassociate(a, line, [NL]);
    assert line + [NL] + [] == line + [NL] && Record(line, c) + [] == Record(line, c);
    BlockConcat(a, line + [NL], c);
  }

  /** So does a last line without one, unless it is empty. */
  lemma BlockLastLine(a: seq<byte>, line: seq<byte>, c: nat)
    requires Complete(a) && NL !in line && line != []
    ensures Block(a + line, c) == Block(a, c) + Record(line, c)
  {
    BlockConcat(a, line, c);
    BlockTail(line, c);
  }

  /** Beyond c bytes, the text of a line no longer matters. */
  lemma LongLine(a: seq<byte>, line: seq<byte>, more: seq<byte>, c: nat)
    requires Complete(a) && NL !in line && NL !in more && |line| >= c > 0
    ensures Block(a + (line + more), c) == Block(a, c) + line[..c]
    ensures Block(a + (line + more) + [NL], c) == Block(a, c) + line[..c]
  {
    BlockLine(a, line + more, c);
    BlockLastLine(a, line + more, c);
    assert (line + more)[..c] == line[..c];
  }

  /** How many records conv=block reports as truncated: one for each line that does not leave room in its record,
      and one for a last line that is not ended. */
  function Counted(s: seq<byte>, c: nat): nat
    decreases |s|
  {
    if s == [] then 0
    else
      var n := LineLength(s);
      if n == |s| then 1 else (if n >= c then 1 else 0) + Counted(s[n + 1..], c)
  }

  /** How many lines are longer than their records. */
  function TooLong(s: seq<byte>, c: nat): nat
    decreases |s|
  {
    if s == [] then 0
    else
      var n := LineLength(s);
      (if n > c then 1 else 0) + if n < |s| then TooLong(s[n + 1..], c) else 0
  }

  /** No line fills its record exactly, and the last one is ended or too long. */
  predicate NoneFills(s: seq<byte>, c: nat)
    decreases |s|
  {
    s != [] ==>
      var n := LineLength(s);
      if n < |s| then n != c && NoneFills(s[n + 1..], c) else n > c
  }

  /** The count is right exactly then; otherwise it is too high. */
  lemma {:induction false} CountedExactly(s: seq<byte>, c: nat)
    ensures Counted(s, c) >= TooLong(s, c)
    ensures Counted(s, c) == TooLong(s, c) <==> NoneFills(s, c)
    decreases |s|
  {
    if s != [] && LineLength(s) < |s| {
      CountedExactly(s[LineLength(s) + 1..], c);
    }
  }

  lemma CountedStep(line: seq<byte>, rest: seq<byte>, c: nat)
    requires NL !in line
    ensures Counted(line + [NL] + rest, c) == (if |line| >= c then 1 else 0) + Counted(rest, c)
  {
    var s := line + [NL] + rest;
    assert s == line + ([NL] + rest);
    LineLengthIs(line, [NL] + rest);
    assert s[|line| + 1..] == rest;
  }

  lemma {:induction false} CountedConcat(a: seq<byte>, b: seq<byte>, c: nat)
    requires Complete(a)
    ensures Counted(a + b, c) == Counted(a, c) + Counted(b, c)
    decreases |a|
  {
    if a == [] {
      assert a + b == b;
    } else {
      var line, rest := FirstLine(a);
      CountedConcat(rest, b, c);
      hide Counted;
      CountedStep(line, rest, c);
      CountedStep(line, rest + b, c);
      Reassociate(line + [NL], rest, b);
    }
  }

  lemma CountedLine(a: seq<byte>, line: seq<byte>, c: nat)
    requires Complete(a) && NL !in line
    ensures Counted(a + line + [NL], c) == Counted(a, c) + if |line| >= c then 1 else 0
  {
    CountedStep(line, [], c);
    CountedConcat(a, line + [NL], c);
    assert line + [NL] + [] == line + [NL] && a + line + [NL] == a + (line + [NL]);
  }

  lemma CountedLast(a: seq<byte>, line: seq<byte>, c: nat)
    requires Complete(a) && NL !in line
    ensures Counted(a + line, c) == Counted(a, c) + if line != [] then 1 else 0
  {
    CountedConcat(a, line, c);
    if line != [] {
      assert line + [] == line;
      LineLengthIs(line, []);
    }
  }

  /** No trailing space, and no more than c bytes, in any line; every line ended. */
  ghost predicate Fits(s: seq<byte>, c: nat)
    decreases |s|
  {
    s != [] ==>
      var n := LineLength(s);
      n <= c && n < |s| && (n > 0 ==> s[n - 1] != SPACE) && Fits(s[n + 1..], c)
  }

  lemma {:induction false} StripRecord(line: seq<byte>, n: nat)
    requires line == [] || line[|line| - 1] != SPACE
    ensures Strip(line + Spaces(n)) == line
  {
    if n == 0 {
      assert line + Spaces(0) == line;
    } else {
      var s := line + Spaces(n);
      assert s[..|s| - 1] == line + Spaces(n - 1);
      StripRecord(line, n - 1);
    }
  }

  /** The first record of a text becomes its line again. */
  lemma UnblockFirst(line: seq<byte>, b: seq<byte>, c: nat)
    requires |line| <= c && c > 0 && (line == [] || line[|line| - 1] != SPACE)
    ensures Unblock(Record(line, c) + b, c) == line + [NL] + Unblock(b, c)
  {
    var r := Record(line, c);
    StripRecord(line, c - |line|);
    hide Strip;
    assert line + Spaces(c - |line|) == r;
    assert (r + b)[..c] == r && (r + b)[c..] == b;
  }

  /** Unblocking undoes blocking on text whose lines fit their records. */
  lemma {:induction false} UnblockAfterBlock(s: seq<byte>, c: nat)
    requires c > 0 && Fits(s, c)
    ensures Unblock(Block(s, c), c) == s
    decreases |s|
  {
    if s != [] {
      var n := LineLength(s);
      var line, rest := s[..n], s[n + 1..];
      assert s == line + [NL] + rest;
      UnblockAfterBlock(rest, c);
      var b := Block(rest, c);
      assert Block(s, c) == Record(line, c) + b;
      hide Block, Record, Strip, Unblock;
      UnblockFirst(line, b, c);
    }
  }

  /** m is made up of lots of c. */
  ghost predicate Whole(m: nat, c: nat)
    requires c > 0
  {
    m == 0 || (m >= c && Whole(m - c, c))
  }

  /** Whole records are unblocked independently of what follows. */
  lemma {:induction false} UnblockConcat(a: seq<byte>, b: seq<byte>, c: nat)
    requires c > 0 && Whole(|a|, c)
    ensures Unblock(a + b, c) == Unblock(a, c) + Unblock(b, c)
    decreases |a|
  {
    if a == [] {
      assert a + b == b;
    } else {
      assert (a + b)[..c] == a[..c] && (a + b)[c..] == a[c..] + b;
      UnblockConcat(a[c..], b, c);
      Reassociate(Strip(a[..c]) + [NL], Unblock(a[c..], c), Unblock(b, c));
    }
  }

  lemma Reassociate<T>(a: seq<T>, b: seq<T>, c: seq<T>)
    ensures a + (b + c) == a + b + c
  {
  }

  /** One more record makes one more line. */
  lemma UnblockRecord(a: seq<byte>, r: seq<byte>, c: nat)
    requires c > 0 && Whole(|a|, c) && |r| == c
    ensures Unblock(a + r, c) == Unblock(a, c) + (Strip(r) + [NL]) && Whole(|a + r|, c)
  {
    UnblockConcat(a, r, c);
    assert r[..c] == r && r[c..] == [];
    assert Unblock(r, c) == Strip(r) + [NL] + [];
  }

  lemma FitsStep(line: seq<byte>, rest: seq<byte>, c: nat)
    requires NL !in line && |line| <= c && (line == [] || line[|line| - 1] != SPACE)
    ensures Fits(line + [NL] + rest, c) <==> Fits(rest, c)
  {
    var s := line + [NL] + rest;
    Reassociate(line, [NL], rest);
    LineLengthIs(line, [NL] + rest);
    hide LineLength;
    assert s[|line| + 1..] == rest;
  }

  lemma FirstRecord(s: seq<byte>, c: nat)
    requires s != []
    ensures var n := LineLength(s); var r := Record(s[..n], c);
      Block(s, c) == r + Block(if n < |s| then s[n + 1..] else [], c) && NL !in r
  {
    assert Block([], c) == [];
  }

  lemma FirstOut(r: seq<byte>, b: seq<byte>, c: nat)
    requires c > 0 && |r| == c
    ensures Unblock(r + b, c) == Strip(r) + [NL] + Unblock(b, c)
  {
    assert (r + b)[..c] == r && (r + b)[c..] == b;
  }

  lemma NothingOut(c: nat)
    requires c > 0
    ensures Block([], c) == [] && Unblock([], c) == []
  {
  }

  /** What comes out of blocking and unblocking has lines that fit. */
  lemma {:induction false} RoundTripFits(s: seq<byte>, c: nat)
    requires c > 0
    ensures Fits(Unblock(Block(s, c), c), c)
    decreases |s|
  {
    hide Block, Record, Unblock;
    if s == [] {
      NothingOut(c);
    } else {
      var n := LineLength(s);
      var line, rest := s[..n], if n < |s| then s[n + 1..] else [];
      RoundTripFits(rest, c);
      var r, b := Record(line, c), Block(rest, c);
      FirstRecord(s, c);
      FirstOut(r, b, c);
      assert NL !in Strip(r);
      FitsStep(Strip(r), Unblock(b, c), c);
    }
  }

  /** Unblocking undoes blocking exactly on text in which every line is ended, has at most c bytes and no
      trailing space. */
  lemma BlockUnblock(s: seq<byte>, c: nat)
    requires c > 0
    ensures Unblock(Block(s, c), c) == s <==> Fits(s, c)
  {
    RoundTripFits(s, c);
    if Fits(s, c) {
      UnblockAfterBlock(s, c);
    }
  }

  lemma PaddedPrefix(t: seq<byte>, r: seq<byte>)
    requires t <= r && NL !in r && forall i :: |t| <= i < |r| ==> r[i] == SPACE
    ensures Record(t, |r|) == r && NL !in t
  {
    assert forall i :: 0 <= i < |t| ==> t[i] == r[i];
  }

  /** Padding undoes stripping. */
  lemma RecordOfStrip(r: seq<byte>)
    requires NL !in r
    ensures Record(Strip(r), |r|) == r && NL !in Strip(r)
  {
    PaddedPrefix(Strip(r), r);
  }

  /** Blocking undoes unblocking on whole records without newlines. */
  lemma {:induction false} UnblockBlock(s: seq<byte>, c: nat)
    requires c > 0 && Whole(|s|, c) && NL !in s
    ensures Block(Unblock(s, c), c) == s
    decreases |s|
  {
    if s != [] {
      var r, rest := s[..c], s[c..];
      assert s == r + rest;
      UnblockBlock(rest, c);
      RecordOfStrip(r);
      BlockStep(Strip(r), Unblock(rest, c), c);
    }
  }

  /** Lines, each with its newline. */
  function Lines(lines: seq<seq<byte>>): seq<byte> {
    if lines == [] then [] else lines[0] + [10] + Lines(lines[1..])
  }

  /** A line as a record: its first c bytes, and as many spaces as they fall short. */
  function Fixed(line: seq<byte>, c: nat): seq<byte> {
    seq(c, i requires 0 <= i => if i < |line| then line[i] else 32)
  }

  function Records(lines: seq<seq<byte>>, c: nat): seq<byte> {
    if lines == [] then [] else Fixed(lines[0], c) + Records(lines[1..], c)
  }

  lemma RecordFixed(line: seq<byte>, c: nat)
    ensures Record(line, c) == Fixed(line, c)
  {
  }

  /** Every input is lines and what is left behind the last newline: blocked, each line is a record, and so is the
      rest unless there is none. */
  lemma {:induction false} BlockedLines(lines: seq<seq<byte>>, last: seq<byte>, c: nat)
    requires (forall l <- lines :: 10 !in l) && 10 !in last
    ensures Block(Lines(lines) + last, c) == Records(lines, c) + if last == [] then [] else Fixed(last, c)
  {
    hide Record, Fixed, Block;
    if lines == [] {
      if last == [] {
        NothingBlocked(c);
      } else {
        BlockTail(last, c);
        RecordFixed(last, c);
      }
      assert Lines(lines) + last == last;
    } else {
      var l, rest := lines[0], Lines(lines[1..]) + last;
      assert Lines(lines) + last == l + [10] + rest;
      BlockStep(l, rest, c);
      RecordFixed(l, c);
      BlockedLines(lines[1..], last, c);
    }
  }

  lemma NothingBlocked(c: nat)
    ensures Block([], c) == []
  {
  }

  lemma {:induction false} EveryInput(s: seq<byte>) returns (lines: seq<seq<byte>>, last: seq<byte>)
    ensures (forall l <- lines :: 10 !in l) && 10 !in last && s == Lines(lines) + last
    decreases |s|
  {
    var n := LineLength(s);
    if n == |s| {
      lines, last := [], s;
      assert s[..n] == s;
    } else {
      lines, last := EveryInput(s[n + 1..]);
      assert s == s[..n] + [10] + s[n + 1..];
      lines := [s[..n]] + lines;
    }
  }

  /** Records without the spaces at their ends, each with a newline. */
  function Stripped(records: seq<seq<byte>>): seq<byte> {
    if records == [] then [] else Strip(records[0]) + [10] + Stripped(records[1..])
  }

  function Concat(records: seq<seq<byte>>): seq<byte> {
    if records == [] then [] else records[0] + Concat(records[1..])
  }

  /** What is stripped of a record is spaces, and all of those at its end. */
  lemma StripExactly(r: seq<byte>, t: seq<byte>)
    ensures Strip(r) == t <==>
      t <= r && (forall i :: |t| <= i < |r| ==> r[i] == 32) && (t == [] || t[|t| - 1] != 32)
  {
    Prefixed(Strip(r), r);
    if t <= r {
      Prefixed(t, r);
    }
    hide Strip;
  }

  lemma Prefixed(t: seq<byte>, r: seq<byte>)
    requires t <= r
    ensures forall i :: 0 <= i < |t| ==> t[i] == r[i]
  {
  }

  lemma UnblockStep(r: seq<byte>, rest: seq<byte>, c: nat)
    requires 0 < c == |r|
    ensures Unblock(r + rest, c) == Strip(r) + [10] + Unblock(rest, c)
  {
    hide Strip;
    assert (r + rest)[..c] == r && (r + rest)[c..] == rest;
  }

  lemma UnblockLast(last: seq<byte>, c: nat)
    requires 0 < c && |last| < c
    ensures Unblock(last, c) == if last == [] then [] else Strip(last) + [10]
  {
  }

  /** Records and what is left behind them: unblocked, each is a line, and so is the rest unless there is none. */
  lemma {:induction false} UnblockedRecords(records: seq<seq<byte>>, last: seq<byte>, c: nat)
    requires 0 < c && (forall r <- records :: |r| == c) && |last| < c
    ensures Unblock(Concat(records) + last, c) ==
      Stripped(records) + if last == [] then [] else Strip(last) + [10]
  {
    hide Strip, Unblock;
    if records == [] {
      assert Concat(records) + last == last;
      UnblockLast(last, c);
    } else {
      var r, rest := records[0], Concat(records[1..]) + last;
      assert Concat(records) + last == r + rest;
      UnblockStep(r, rest, c);
      UnblockedRecords(records[1..], last, c);
    }
  }
}
