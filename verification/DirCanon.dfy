/** Paths are brought into normal form in place: the main loop of `dcanon`, with symbolic links ignored, and
    `dgoto` (bin/csh/dir.c). The last cell of the buffer is null. */
module DirCanon {
  import opened DirSpec

  ghost predicate NoNull(s: seq<int>) {
    forall c <- s :: c != 0
  }

  /** The text in the buffer, and the null that ends it. */
  ghost predicate Holds(buf: seq<int>, s: seq<int>) {
    |s| < |buf| && buf[..|s|] == s && buf[|s|] == 0
  }

  /** The loop is at place p: in front of it is the normal form of st, and r is still to come. */
  ghost predicate Scanning(buf: seq<int>, p: nat, st: seq<Name>, r: seq<int>) {
    && Holds(buf, Path(st) + r) && p == |Path(st)| && NoNull(r) && (r == [] || r[0] == SLASH) && (st == [] ==> r != [])
    && buf[|buf| - 1] == 0 && Parts(st)
  }

  /** `for (p1 = to, p2 = from; *p1++ = *p2++;)`: the text from place `from` on moves down. */
  method MoveDown(buf: array<int>, to: nat, from: nat, ghost s: seq<int>)
    requires to < from && from + |s| < buf.Length && buf[from..from + |s|] == s && buf[from + |s|] == 0 && NoNull(s)
    modifies buf
    ensures buf[..to] == old(buf[..to]) && buf[to..to + |s|] == s && buf[to + |s|] == 0
    ensures forall k :: to + |s| < k < buf.Length ==> buf[k] == old(buf[k])
  {
    var p1, p2 := to, from;
    while true
      invariant p1 - to == p2 - from <= |s| && to <= p1
      invariant forall k :: 0 <= k < to || p1 <= k < buf.Length ==> buf[k] == old(buf[k])
      invariant forall k :: to <= k < p1 ==> buf[k] == s[k - to]
      decreases |s| - (p1 - to)
    {
      ghost var k := p2 - from;
      assert k < |s| ==> old(buf[from..from + |s|])[k] == s[k] && s[k] in s;
      buf[p1] := buf[p2];
      p1, p2 := p1 + 1, p2 + 1;
      if buf[p1 - 1] == 0 {
        return;
      }
    }
  }

  lemma HoldsAt(buf: seq<int>, s: seq<int>, i: nat)
    requires Holds(buf, s) && i <= |s|
    ensures buf[i] == (if i < |s| then s[i] else 0) && buf[..i] == s[..i] && buf[i..|s|] == s[i..]
  {
    assert buf[..i] == buf[..|s|][..i] && buf[i..|s|] == buf[..|s|][i..];
    if i < |s| {
      assert buf[i] == buf[..|s|][i];
    }
  }

  /** A component that begins at sp has been found, and cut off at p from the rest if there is one. */
  ghost predicate Found(buf: seq<int>, sp: nat, p: nat, st: seq<Name>, name: Name, rest: seq<int>) {
    && sp == |Path(st)| + 1 && p == sp + |name| && p + |rest| < |buf| && buf[|buf| - 1] == 0
    && buf[..sp] == Path(st) + [SLASH] && buf[sp..p] == name && buf[p] == 0
    && (rest != [] ==> rest[0] == SLASH && buf[p + 1..p + |rest|] == rest[1..] && buf[p + |rest|] == 0)
    && name != [] && SLASH !in name && NoNull(name) && NoNull(rest) && Parts(st)
  }

  /** What is left in the buffer when the loop ends, with p at a null. */
  ghost predicate Finished(buf: seq<int>, p: nat, out: seq<int>) {
    p < |buf| && buf[p] == 0 && Holds(buf, out)
  }

  /** A piece of text between others. */
  lemma Joined(buf: seq<int>, a: seq<int>, b: seq<int>)
    requires |a| + |b| < |buf| && buf[..|a|] == a && buf[|a|..|a| + |b|] == b && buf[|a| + |b|] == 0
    ensures Holds(buf, a + b)
  {
    assert buf[..|a| + |b|] == buf[..|a|] + buf[|a|..|a| + |b|];
  }

  lemma NoNullTail(s: seq<int>)
    requires NoNull(s) && s != []
    ensures NoNull(s[1..])
  {
    forall c | c in s[1..] ensures c != 0 {
      assert c in s;
    }
  }

  /** The last component goes when it is a dot, and so does its slash unless the path is at the root. */
  method LastDot(buf: array<int>, sp: nat, p: nat, ghost st: seq<Name>)
    requires Found(buf[..], sp, p, st, HERE, [])
    modifies buf
    ensures Finished(buf[..], p, if st != [] then Path(st) else [SLASH, DOT])
  {
    if sp - 1 != 0 {
      buf[sp - 1] := 0;
      assert buf[..sp - 1] == old(buf[..sp])[..sp - 1] == Path(st);
    } else {
      assert buf[..2] == buf[..1] + buf[1..2] == [SLASH, DOT];
    }
    PathEmpty(st);
  }

  lemma PathEmpty(st: seq<Name>)
    ensures st == [] <==> |Path(st)| == 0
  {
  }

  /** The rest, which begins with the slash in front of place `to`, moves down to that place. */
  method Pull(buf: array<int>, to: nat, from: nat, ghost head: seq<int>, ghost rest: seq<int>)
    requires to == |head| + 1 < from && from + |rest| <= buf.Length && buf[..to] == head + [SLASH]
    requires rest != [] && rest[0] == SLASH && NoNull(rest)
    requires buf[from..from + |rest| - 1] == rest[1..] && buf[from + |rest| - 1] == 0
    modifies buf
    ensures Holds(buf[..], head + rest) && buf[buf.Length - 1] == old(buf[buf.Length - 1])
  {
    NoNullTail(rest);
    MoveDown(buf, to, from, rest[1..]);
    Joined(buf[..], head + [SLASH], rest[1..]);
    assert head + [SLASH] + rest[1..] == head + rest;
  }

  /** A dot in between goes, with the slash behind it. */
  method InnerDot(buf: array<int>, sp: nat, p0: nat, ghost st: seq<Name>, ghost rest: seq<int>) returns (p: nat)
    requires Found(buf[..], sp, p0, st, HERE, rest) && rest != []
    modifies buf
    ensures Scanning(buf[..], p, st, rest)
  {
    hide Path, Parts;
    Pull(buf, sp, p0 + 1, Path(st), rest);
    p := sp - 1;
  }

  /** Back from the slash at place sp to the one in front of it: `while (*--sp != '/')`. */
  method BackUp(buf: array<int>, sp0: nat, ghost st: seq<Name>) returns (sp: nat)
    requires st != [] && Parts(st) && sp0 == |Path(st)| < buf.Length && buf[..sp0] == Path(st)
    ensures sp == |Path(st[..|st| - 1])| && sp < sp0
  {
    ghost var name, head := st[|st| - 1], Path(st[..|st| - 1]);
    assert SLASH !in name;
    assert Path(st) == head + [SLASH] + name;
    hide Path, Parts;
    forall k | |head| < k < sp0 ensures buf[k] != SLASH {
      assert buf[k] == buf[..sp0][k] == name[k - |head| - 1];
      assert name[k - |head| - 1] in name;
    }
    assert buf[|head|] == buf[..sp0][|head|];
    sp := sp0 - 1;
    while buf[sp] != SLASH
      invariant |head| <= sp < sp0
      decreases sp
    {
      sp := sp - 1;
    }
  }

  /** The place above is what is left in front of `..`. */
  method GoUp(buf: array<int>, sp0: nat, ghost st: seq<Name>) returns (sp: nat)
    requires Parts(st) && sp0 == |Path(st)| < buf.Length && buf[..sp0] == Path(st)
    ensures sp == |Path(Step(st, UP))| && sp <= sp0 && buf[..sp] == Path(Step(st, UP)) && Parts(Step(st, UP))
    ensures sp < sp0 ==> buf[sp] == SLASH
  {
    sp := sp0;
    PathEmpty(st);
    if sp != 0 {
      sp := BackUp(buf, sp0, st);
      assert buf[..sp] == buf[..sp0][..sp] && buf[sp] == buf[..sp0][sp];
    }
  }

  /** A last `..`. */
  method LastUp(buf: array<int>, sp0: nat, p: nat, ghost st: seq<Name>)
    requires Found(buf[..], sp0, p, st, UP, [])
    modifies buf
    ensures var up := Step(st, UP); Finished(buf[..], p, if up != [] then Path(up) else [SLASH])
  {
    hide Path, Parts, Step;
    ghost var up := Step(st, UP);
    assert buf[sp0 - 1] == buf[..sp0][sp0 - 1] && buf[..sp0 - 1] == buf[..sp0][..sp0 - 1] == Path(st);
    var sp := GoUp(buf, sp0 - 1, st);
    PathEmpty(up);
    if sp == 0 {
      buf[1] := 0;
      assert buf[..1] == [SLASH];
    } else {
      ghost var text := buf[..sp];
      buf[sp] := 0;
      assert buf[..sp] == text;
    }
  }

  /** A `..` in between: the rest moves behind the place above. */
  method InnerUp(buf: array<int>, sp0: nat, p0: nat, ghost st: seq<Name>, ghost rest: seq<int>) returns (p: nat)
    requires Found(buf[..], sp0, p0, st, UP, rest) && rest != []
    modifies buf
    ensures Scanning(buf[..], p, Step(st, UP), rest)
  {
    hide Path, Parts, Step;
    ghost var up := Step(st, UP);
    ghost var head := Path(up);
    assert buf[sp0 - 1] == buf[..sp0][sp0 - 1] && buf[..sp0 - 1] == buf[..sp0][..sp0 - 1] == Path(st);
    p := GoUp(buf, sp0 - 1, st);
    assert buf[..p + 1] == head + [SLASH];
    Pull(buf, p + 1, p0 + 1, head, rest);
  }

  /** Any other component stays. */
  method Keep(buf: array<int>, sp: nat, p: nat, slash: bool, ghost st: seq<Name>, ghost name: Name,
    ghost rest: seq<int>)
    requires Found(buf[..], sp, p, st, name, rest) && name != HERE && name != UP && slash == (rest != [])
    modifies buf
    ensures rest != [] ==> Scanning(buf[..], p, Step(st, name), rest)
    ensures rest == [] ==> Finished(buf[..], p, Path(Step(st, name)))
  {
    PathMore(st, name);
    assert Parts(st + [name]);
    hide Path, Parts;
    ghost var was := buf[..];
    if slash {
      buf[p] := SLASH;
    }
    KeptText(was, buf[..], sp, p, Path(st), name, rest);
  }

  lemma KeptText(was: seq<int>, buf: seq<int>, sp: nat, p: nat, head: seq<int>, name: Name, rest: seq<int>)
    requires sp == |head| + 1 && p == sp + |name| && p + |rest| < |was| && was[..sp] == head + [SLASH] &&
      was[sp..p] == name
    requires if rest == [] then was[p] == 0 && buf == was
      else rest[0] == SLASH && was[p + 1..p + |rest|] == rest[1..] && was[p + |rest|] == 0 && buf == was[p := SLASH]
    ensures Holds(buf, head + [SLASH] + name + rest) && (rest == [] ==> Holds(buf, head + [SLASH] + name))
  {
    assert buf[..p] == was[..sp] + was[sp..p] == head + [SLASH] + name;
    if rest == [] {
      assert head + [SLASH] + name + [] == head + [SLASH] + name;
    } else {
      assert buf[p..p + |rest|] == [buf[p]] + was[p + 1..p + |rest|] == rest;
      Joined(buf, head + [SLASH] + name, rest);
    }
  }

  /** A component, or nothing, begins at sp, behind the path st and a slash. */
  ghost predicate AtName(buf: seq<int>, sp: nat, st: seq<Name>, t: seq<int>) {
    && Holds(buf, Path(st) + [SLASH] + t) && sp == |Path(st)| + 1 && buf[|buf| - 1] == 0
    && NoNull(t) && Parts(st) && (t == [] || t[0] != SLASH)
  }

  lemma NoNullFrom(s: seq<int>, k: nat)
    requires NoNull(s) && k <= |s|
    ensures NoNull(s[k..]) && NoNull(s[..k])
  {
    forall c | c in s[k..] || c in s[..k] ensures c != 0 {
      assert c in s;
    }
  }

  /** `while (*++p == '/')`. */
  method SkipSlashes(buf: array<int>, p0: nat, ghost r: seq<int>) returns (p: nat)
    requires r != [] && r[0] == SLASH && p0 + |r| < buf.Length && buf[p0..p0 + |r|] == r && buf[p0 + |r|] == 0
    ensures p0 < p <= p0 + |r| && (forall i :: 0 <= i < p - p0 ==>
      r[i] == SLASH) && (p < p0 + |r| ==> r[p - p0] != SLASH)
  {
    assert forall i :: 0 <= i < |r| ==> buf[p0 + i] == r[i];
    p := p0 + 1;
    while buf[p] == SLASH
      invariant p0 < p <= p0 + |r| && forall i :: 0 <= i < p - p0 ==> r[i] == SLASH
      decreases p0 + |r| - p
    {
      assert buf[p] == r[p - p0];
      p := p + 1;
    }
    assert p < p0 + |r| ==> buf[p] == r[p - p0];
  }

  /** Slashes beyond the first are squeezed out. */
  method Squeeze(buf: array<int>, p0: nat, ghost st: seq<Name>, ghost r: seq<int>) returns (sp: nat, ghost k: nat)
    requires Scanning(buf[..], p0, st, r) && r != []
    modifies buf
    ensures sp == p0 + 1 && 0 < k <= |r| && (forall i :: 0 <= i < k ==>
      r[i] == SLASH) && AtName(buf[..], sp, st, r[k..])
  {
    hide Path, Parts;
    ghost var head := Path(st);
    HoldsAt(buf[..], head + r, p0);
    assert (head + r)[p0..] == r && (head + r)[..p0] == head;
    assert buf[p0..p0 + |r|] == r;
    sp := p0 + 1;
    var p := SkipSlashes(buf, p0, r);
    k := p - p0;
    NoNullFrom(r, k);
    ghost var was := buf[..];
    assert was[p..p0 + |r|] == was[p0..p0 + |r|][k..];
    if p != sp {
      MoveDown(buf, sp, p, r[k..]);
    }
    assert buf[..p0 + 1] == was[..p0] + [was[p0]] == head + [SLASH];
    Joined(buf[..], head + [SLASH], r[k..]);
  }

  /** The scan for the next slash begins behind the first character, whatever that is; a slash gives way to a
      null. */
  method FindSlash(buf: array<int>, sp: nat) returns (p: nat, slash: bool)
    requires sp + 1 < buf.Length && buf[buf.Length - 1] == 0
    modifies buf
    ensures sp < p < buf.Length && buf[p] == 0 && slash == (old(buf[p]) == SLASH) && (slash || old(buf[p]) == 0)
    ensures forall k :: sp < k < p ==> old(buf[k]) != 0 && old(buf[k]) != SLASH
    ensures forall k :: 0 <= k < buf.Length && k != p ==> buf[k] == old(buf[k])
  {
    p, slash := sp + 1, false;
    while buf[p] != 0
      invariant sp < p < buf.Length && forall k :: sp < k < p ==> buf[k] != 0 && buf[k] != SLASH
      invariant forall k :: 0 <= k < buf.Length ==> buf[k] == old(buf[k])
      decreases buf.Length - p
    {
      if buf[p] == SLASH {
        slash := true;
        buf[p] := 0;
        return;
      }
      p := p + 1;
    }
  }

  /** A slash at the end goes, unless the path is at the root. Where the scan has gone to does not matter. */
  method LastSlash(buf: array<int>, sp: nat, p: nat, ghost st: seq<Name>) returns (atRoot: bool)
    requires AtName(buf[..], sp, st, []) && sp < p < buf.Length && buf[p] == 0
    modifies buf
    ensures atRoot ==> Holds(buf[..], [SLASH]) && st == []
    ensures !atRoot ==> Finished(buf[..], p, Path(st)) && st != []
  {
    PathEmpty(st);
    hide Path, Parts;
    ghost var head := Path(st);
    assert head + [SLASH] + [] == head + [SLASH];
    HoldsAt(buf[..], head + [SLASH], sp - 1);
    atRoot := sp - 1 == 0;
    if atRoot {
      assert head + [SLASH] == [SLASH];
    } else {
      ghost var text := buf[..sp - 1];
      buf[sp - 1] := 0;
      assert buf[..sp - 1] == text;
    }
  }

  /** What the scan finds, when a component begins at sp. */
  lemma CutOff(was: seq<int>, buf: seq<int>, sp: nat, p: nat, slash: bool, st: seq<Name>, t: seq<int>) returns (m: nat)
    requires AtName(was, sp, st, t) && t != [] && sp < p < |was| && buf == was[p := 0]
    requires slash == (was[p] == SLASH) && (slash || was[p] == 0)
    requires forall k :: sp < k < p ==> was[k] != 0 && was[k] != SLASH
    ensures p == sp + m && 0 < m <= |t| && Found(buf, sp, p, st, t[..m], t[m..]) && slash == (t[m..] != [])
  {
    hide Path, Parts;
    ghost var head := Path(st) + [SLASH];
    m := p - sp;
    forall i: nat | i <= |t| ensures was[sp + i] == if i < |t| then t[i] else 0 {
      HoldsAt(was, head + t, sp + i);
    }
    assert m <= |t| by {
      assert was[sp + |t|] == 0;
    }
    HoldsAt(was, head + t, sp);
    HoldsAt(was, head + t, p);
    assert (head + t)[..sp] == head && (head + t)[p..] == t[m..];
    assert buf[..sp] == was[..sp] && buf[sp..p] == was[sp..p];
    NoNullFrom(t, m);
    FoundName(was, sp, p, t, m);
    if m < |t| {
      assert was[sp + m] == t[m] && t[m] in t;
      assert was[sp + |t|] == 0 && buf[p + |t[m..]|] == 0;
      assert buf[p + 1..sp + |t|] == was[p..sp + |t|][1..] == t[m..][1..];
    } else {
      assert was[sp + m] == 0;
    }
  }

  lemma FoundName(was: seq<int>, sp: nat, p: nat, t: seq<int>, m: nat)
    requires 0 < m <= |t| && sp + m == p < |was| && sp + |t| < |was| && t[0] != SLASH
    requires forall i :: 0 <= i < |t| ==> was[sp + i] == t[i]
    requires forall k :: sp < k < p ==> was[k] != SLASH
    ensures was[sp..p] == t[..m] && SLASH !in t[..m]
  {
    forall i: nat | i < m ensures t[i] != SLASH {
      assert was[sp + i] == t[i];
    }
  }

  lemma FirstIsNull(buf: seq<int>, sp: nat, st: seq<Name>, t: seq<int>)
    requires AtName(buf, sp, st, t)
    ensures buf[sp] == 0 <==> t == []
  {
    hide Path, Parts;
    HoldsAt(buf, Path(st) + [SLASH] + t, sp);
    if t != [] {
      assert t[0] in t;
    }
  }

  /** The tests for a dot and for two dots. */
  method IsDots(buf: array<int>, sp: nat, p: nat, ghost name: Name) returns (dot: bool, dots: bool)
    requires sp + |name| == p < buf.Length && buf[sp..p] == name && buf[p] == 0 && NoNull(name) && name != []
    ensures dot == (name == HERE) && dots == (name == UP)
  {
    assert forall i :: 0 <= i < |name| ==> buf[sp + i] == name[i];
    assert forall i :: 0 <= i < |name| ==> name[i] in name;
    dot := buf[sp] == DOT && buf[sp + 1] == 0;
    dots := buf[sp] == DOT && buf[sp + 1] == DOT && buf[sp + 2] == 0;
    assert dot ==> |name| == 1;
    assert dots ==> |name| == 2;
  }

  /** What becomes of a component that has been found. */
  method Component(buf: array<int>, sp: nat, p0: nat, slash: bool, ghost st: seq<Name>, ghost name: Name,
    ghost rest: seq<int>)
    returns (p: nat)
    requires Found(buf[..], sp, p0, st, name, rest) && slash == (rest != [])
    modifies buf
    ensures rest != [] ==> Scanning(buf[..], p, Step(st, name), rest)
    ensures rest == [] ==> var w := Step(st, name);
      Finished(buf[..], p, if w != [] then Path(w) else if name == HERE then [SLASH, DOT] else [SLASH])
  {
    hide Path, Parts, Scanning, Finished;
    var dot, dots := IsDots(buf, sp, p0, name);
    p := p0;
    if dot {
      if slash {
        p := InnerDot(buf, sp, p0, st, rest);
      } else {
        LastDot(buf, sp, p0, st);
      }
    } else if dots {
      if slash {
        p := InnerUp(buf, sp, p0, st, rest);
      } else {
        LastUp(buf, sp, p0, st);
      }
    } else {
      Keep(buf, sp, p0, slash, st, name, rest);
    }
  }

  /** There is no cell to spare, and nothing will be taken out before a slash at the end is come to. */
  predicate Tight(length: nat, st: seq<Name>, r: seq<int>) {
    |Path(st)| + |r| + 1 == length && Straight(r)
  }

  lemma TightOn(length: nat, st: seq<Name>, r: seq<int>, k: nat, name: Name, rest: seq<int>)
    requires Splits(r, k, name, rest) && 0 < k && |Path(st)| + |r| + 1 <= length
    ensures Tight(length, st, r) <==> rest != [] && Tight(length, Step(st, name), rest)
  {
    NamedStraight(r, k, name, rest);
    PathMore(st, name);
    hide Straight;
  }

  lemma NamedStraight(r: seq<int>, k: nat, name: Name, rest: seq<int>)
    requires Splits(r, k, name, rest) && 0 < k
    ensures Straight(r) <==> k == 1 && Proper(name) && Straight(rest)
  {
    hide Proper;
    var q := r[1..];
    if k == 1 {
      NameLengthIs(name, rest);
      assert q == name + rest && r[|name| + 1..] == rest && r[1..|name| + 1] == name;
    } else {
      assert q[0] == r[1] == SLASH;
    }
  }

  lemma TightEnd(length: nat, st: seq<Name>, r: seq<int>)
    requires r != [] && (forall i :: 0 <= i < |r| ==> r[i] == SLASH) && |Path(st)| + |r| + 1 <= length
    ensures Tight(length, st, r) <==> |Path(st)| + 2 == length
  {
  }

  /** One turn of the loop: either the loop goes on with what is left, or the buffer holds the result. If nothing
      follows the last slash, the scan may begin beyond the buffer. */
  method Turn(buf: array<int>, p0: nat, ghost st0: seq<Name>, ghost r0: seq<int>)
    returns (stop: bool, beyond: bool, p: nat, ghost st: seq<Name>, ghost r: seq<int>)
    requires Scanning(buf[..], p0, st0, r0) && r0 != []
    modifies buf
    ensures beyond ==> Tight(buf.Length, st0, r0)
    ensures r != [] ==> !stop && Scanning(buf[..], p, st, r) && |r| < |r0| && Canonical(st, r) == Canonical(st0, r0)
    ensures r != [] ==> !beyond && Tight(buf.Length, st, r) == Tight(buf.Length, st0, r0)
    ensures r == [] && !beyond ==> !Tight(buf.Length, st0, r0)
    ensures r == [] && !beyond && !stop ==> Finished(buf[..], p, Canonical(st0, r0))
    ensures r == [] && !beyond && stop ==> Holds(buf[..], Canonical(st0, r0))
  {
    hide Path, Parts, Canonical, Step, Finished, Tight;
    var sp, slash;
    ghost var k;
    sp, k := Squeeze(buf, p0, st0, r0);
    ghost var t, was := r0[k..], buf[..];
    FirstIsNull(was, sp, st0, t);
    stop, st, r := false, st0, [];
    beyond := sp + 1 == buf.Length;
    if t == [] {
      TightEnd(buf.Length, st0, r0);
    }
    if beyond {
      p := sp;
      return;
    }
    p, slash := FindSlash(buf, sp);
    assert buf[..] == was[p := 0];
    if buf[sp] == 0 {
      NothingLeft(st0, r0);
      stop := LastSlash(buf, sp, p, st0);
    } else {
      ghost var m := CutOff(was, buf[..], sp, p, slash, st0, t);
      ghost var name, rest := t[..m], t[m..];
      assert t == name + rest;
      TightOn(buf.Length, st0, r0, k, name, rest);
      if rest == [] {
        StepLast(st0, r0, k, name);
      } else {
        StepOn(st0, r0, k, name, rest);
      }
      p := Component(buf, sp, p, slash, st0, name, rest);
      st, r := Step(st0, name), rest;
    }
  }

  lemma ScanningChar(buf: seq<int>, p: nat, st: seq<Name>, r: seq<int>)
    requires Scanning(buf, p, st, r) && r != []
    ensures p < |buf| && buf[p] == SLASH
  {
    hide Path, Parts;
    HoldsAt(buf, Path(st) + r, p);
  }

  /** `dcanon`: the path is brought into normal form, from the place p0 behind a path in normal form on; or the
      scan for a slash begins beyond the buffer, exactly if there is no cell to spare, and what comes behind p0 is
      in normal form but for a slash at its end. */
  method Dcanon(buf: array<int>, p0: nat, ghost st0: seq<Name>, ghost r0: seq<int>) returns (beyond: bool)
    requires Scanning(buf[..], p0, st0, r0) && r0 != []
    modifies buf
    ensures beyond <==> Tight(buf.Length, st0, r0)
    ensures !beyond ==> Holds(buf[..], Canonical(st0, r0))
  {
    hide Canonical, Holds, Path, Straight;
    var p: nat, stop := p0, false;
    beyond := false;
    ghost var st, r := st0, r0;
    ScanningChar(buf[..], p, st, r);
    while buf[p] != 0
      invariant p < buf.Length && !stop && !beyond
      invariant r != [] ==> Scanning(buf[..], p, st, r) && Canonical(st, r) == Canonical(st0, r0) && buf[p] == SLASH
      invariant r != [] ==> Tight(buf.Length, st, r) == Tight(buf.Length, st0, r0)
      invariant r == [] ==> Finished(buf[..], p, Canonical(st0, r0)) && !Tight(buf.Length, st0, r0)
      decreases |r|
    {
      stop, beyond, p, st, r := Turn(buf, p, st, r);
      if stop || beyond {
        return;
      }
      if r != [] {
        ScanningChar(buf[..], p, st, r);
      }
    }
  }

  /** `dgoto`: a path that does not begin with a slash is taken to begin at the current directory, whatever that is
      called. The buffer has the size of its text, and the null. If that does not begin with a slash either, `dcanon`
      finds the same text in the variable cwd, and aborts. */
  method Dgoto(cwd: seq<int>, cp: seq<int>) returns (buf: array<int>, aborts: bool, beyond: bool)
    requires cwd != [] && NoNull(cp)
    ensures var absolute := cp != [] && cp[0] == SLASH; aborts <==> !absolute && cwd[0] != SLASH
    ensures var absolute := cp != [] && cp[0] == SLASH;
      !aborts ==> (beyond <==> Straight(if absolute then cp else [SLASH] + cp))
    ensures var absolute := cp != [] && cp[0] == SLASH; !aborts && !beyond ==>
      Holds(buf[..], if absolute then Canonical([], cp) else Canonical(Place(cwd), [SLASH] + cp))
  {
    hide Canonical, Parts, Straight, Place;
    var head, start := cp, 0;
    ghost var from, r := [], cp;
    assert Parts([]) by { NoParts(); }
    if cp == [] || cp[0] != SLASH {
      var cwdlen := if |cwd| == 1 then 0 else |cwd|;
      head := if cwdlen == 0 then cwd + cp else cwd + [SLASH] + cp;
      start := cwdlen;
      if cwd[0] == SLASH {
        from, r := Place(cwd), [SLASH] + cp;
        PlaceText(cwd, cp);
      }
    }
    buf := new int[|head| + 1](_ => 0);
    Fill(buf, head);
    aborts, beyond := head[0] != SLASH, false;
    if !aborts {
      assert head == Path(from) + r;
      beyond := Dcanon(buf, start, from, r);
    }
  }

  lemma PlaceText(cwd: seq<int>, cp: seq<int>)
    requires cwd != [] && cwd[0] == SLASH
    ensures Parts(Place(cwd)) && |Path(Place(cwd))| == if |cwd| == 1 then 0 else |cwd|
    ensures Path(Place(cwd)) + ([SLASH] + cp) == if |cwd| == 1 then cwd + cp else cwd + [SLASH] + cp
  {
    if |cwd| == 1 {
      assert cwd == [SLASH];
      PathOfNone([SLASH] + cp);
    } else {
      SplitParts(cwd);
    }
  }

  /** `Strcpy`. */
  method Fill(buf: array<int>, head: seq<int>)
    requires buf.Length == |head| + 1 && buf[|head|] == 0
    modifies buf
    ensures buf[..] == head + [0]
  {
    var i := 0;
    while i < |head|
      invariant i <= |head| && buf[..i] == head[..i] && buf[|head|] == 0
    {
      buf[i] := head[i];
      assert buf[..i + 1] == buf[..i] + [buf[i]];
      i := i + 1;
    }
  }

  lemma NoParts()
    ensures Parts([])
  {
  }
}
