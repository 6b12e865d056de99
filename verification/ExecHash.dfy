/** The hash filter in csh's command search (bin/csh/exec.c). */
module ExecHash {
  import opened Basics

  const HSHSIZ := 8192
  const HSHMUL := 243
  const SLASH := 47
  const DOT := 46

  /** `(a) * HSHMUL + (b) & HSHMASK`: the mask applies to the sum. */
  function Hash(a: int, b: int): (h: nat)
    ensures h < HSHSIZ
  {
    (a * HSHMUL + b) % HSHSIZ
  }

  /** `hashname`. */
  function NameHash(name: Word): nat {
    if name == [] then 0 else Hash(NameHash(name[..|name| - 1]), name[|name| - 1])
  }

  function Mask(k: nat): bv8
    requires k < 8
  {
    1 << k
  }

  /** One bit of a byte is set, and no other changes. */
  lemma OneBit(x: bv8, k: nat, j: nat)
    requires k < 8 && j < 8
    ensures (x | Mask(k)) & Mask(j) != 0 <==> j == k || x & Mask(j) != 0
  {
    MaskIs(k);
    MaskIs(j);
  }

  lemma MaskIs(k: nat)
    requires k < 8
    ensures Mask(k) == if k == 0 then 1 else if k == 1 then 2 else if k == 2 then 4 else if k == 3 then 8
      else if k == 4 then 16 else if k == 5 then 32 else if k == 6 then 64 else 128
  {
  }

  /** `bit(h, b)`. */
  predicate Bit(h: seq<bv8>, b: nat)
    requires |h| == HSHSIZ / 8 && b < HSHSIZ
  {
    h[b / 8] & Mask(b % 8) != 0
  }

  /** A component of the path: its text, the names that reading the directory gives (none if it cannot be
      opened), and the names for which there is a command there. */
  datatype Component = Component(text: Word, names: seq<Word>, commands: set<Word>)

  predicate Absolute(c: Component) {
    c.text != [] && c.text[0] == SLASH
  }

  /** The entries of a directory that are hashed. */
  predicate Hashed(name: Word) {
    name != [DOT] && name != [DOT, DOT]
  }

  /** Every command in a directory of the path is among the entries that are hashed. */
  predicate Listed(path: seq<Component>) {
    forall i :: 0 <= i < |path| && Absolute(path[i]) ==>
      forall name <- path[i].commands :: name in path[i].names && Hashed(name)
  }

  /** Name m of component i is hashed to bit b. */
  predicate Asks(path: seq<Component>, i: nat, m: nat, b: nat) {
    && i < |path| && m < |path[i].names| && Absolute(path[i]) && Hashed(path[i].names[m])
    && Hash(NameHash(path[i].names[m]), i) == b
  }

  /** Some name of the first n components, or of the first k names of the next, is. */
  ghost predicate Asked(path: seq<Component>, n: nat, k: nat, b: nat) {
    exists i: nat, m: nat :: Asks(path, i, m, b) && (i < n || (i == n && m < k))
  }

  /** The bits that these ask for are set, and no others. */
  ghost predicate Marked(h: seq<bv8>, path: seq<Component>, n: nat, k: nat) {
    |h| == HSHSIZ / 8 && forall b: nat :: b < HSHSIZ ==> (Bit(h, b) <==> Asked(path, n, k, b))
  }

  lemma AskedMore(path: seq<Component>, n: nat, k: nat, b: nat)
    ensures Asked(path, n, k + 1, b) <==> Asked(path, n, k, b) || Asks(path, n, k, b)
  {
    hide Asks;
  }

  lemma AskedNext(path: seq<Component>, n: nat, k: nat, b: nat)
    requires n < |path| && (!Absolute(path[n]) || k == |path[n].names|)
    ensures Asked(path, n + 1, 0, b) <==> Asked(path, n, k, b)
  {
  }

  lemma MoreBits(was: seq<bv8>, h: seq<bv8>, path: seq<Component>, n: nat, k: nat)
    requires Marked(was, path, n, k) && |h| == |was|
    requires forall c: nat :: c < HSHSIZ ==> (Bit(h, c) <==> Asks(path, n, k, c) || Bit(was, c))
    ensures Marked(h, path, n, k + 1)
  {
    hide Bit, Asks, Asked;
    forall b: nat | b < HSHSIZ ensures Bit(h, b) <==> Asked(path, n, k + 1, b) {
      AskedMore(path, n, k, b);
    }
  }

  lemma Sized(h: seq<bv8>, path: seq<Component>, n: nat, k: nat)
    requires Marked(h, path, n, k)
    ensures |h| == HSHSIZ / 8
  {
  }

  lemma NextMarked(h: seq<bv8>, path: seq<Component>, n: nat, k: nat)
    requires n < |path| && Marked(h, path, n, k) && (!Absolute(path[n]) || k == |path[n].names|)
    ensures Marked(h, path, n + 1, 0)
  {
    hide Bit, Asks, Asked;
    forall b: nat | b < HSHSIZ ensures Bit(h, b) <==> Asked(path, n + 1, 0, b) {
      AskedNext(path, n, k, b);
    }
  }

  /** Some name in the directories of the path is hashed to bit b. */
  ghost predicate Wanted(path: seq<Component>, b: nat) {
    exists i: nat, m: nat :: Asks(path, i, m, b)
  }

  /** The table that `dohash` makes of these listings. */
  ghost predicate Filled(h: seq<bv8>, path: seq<Component>) {
    |h| == HSHSIZ / 8 && forall b: nat :: b < HSHSIZ ==> (Bit(h, b) <==> Wanted(path, b))
  }

  lemma MarkedAll(h: seq<bv8>, path: seq<Component>)
    requires Marked(h, path, |path|, 0)
    ensures Filled(h, path)
  {
    hide Bit;
    forall b: nat | b < HSHSIZ ensures Asked(path, |path|, 0, b) <==> Wanted(path, b) {
      if Wanted(path, b) {
        var i: nat, m: nat :| Asks(path, i, m, b);
        assert i < |path|;
      }
    }
  }

  /** The place of the first component with the command, counted from 1; zero if there is none. */
  function FirstCommand(path: seq<Component>, name: Word, i: nat): (p: nat)
    requires i <= |path|
    ensures p == 0 || i < p <= |path|
    decreases |path| - i
  {
    if i == |path| then 0 else if name in path[i].commands then i + 1 else FirstCommand(path, name, i + 1)
  }

  /** What comes of the attempt to execute a file: it runs, csh stops with an error, there is no such file, or the
      system has something else against it. */
  datatype Attempt = Runs | Stops | Absent | Fails(err: Word)

  /** How the search for a command to execute ends: with the component that it ends at, counted from 0, or
      without a command, but with the first thing that the system had against a file. */
  datatype Ending = Ran(place: nat) | Stopped(place: nat) | NotFound(exerr: Word)

  /** The attempts in one component after the other. */
  function TryAll(n: nat, texec: nat -> Attempt, i: nat, exerr: Word): Ending
    requires i <= n
    decreases n - i
  {
    if i == n then NotFound(exerr)
    else
      match texec(i)
      case Runs => Ran(i)
      case Stops => Stopped(i)
      case Absent => TryAll(n, texec, i + 1, exerr)
      case Fails(err) => TryAll(n, texec, i + 1, if exerr == [] then err else exerr)
  }

  /** Whatever there is to be executed in a directory of the path is among the entries that are hashed. */
  predicate Known(path: seq<Component>, name: Word, texec: nat -> Attempt) {
    forall i: nat :: i < |path| && Absolute(path[i]) && texec(i) != Absent ==> name in path[i].names && Hashed(name)
  }

  /** The filter passes over component i. */
  predicate Passed(h: seq<bv8>, havhash: bool, path: seq<Component>, i: nat, name: Word)
    requires i < |path| && |h| == HSHSIZ / 8
  {
    havhash && SLASH !in name && Absolute(path[i]) && !Bit(h, Hash(NameHash(name), i))
  }

  /** The same searches with the filter. */
  function FirstHashed(h: seq<bv8>, havhash: bool, path: seq<Component>, name: Word, i: nat): nat
    requires i <= |path| && |h| == HSHSIZ / 8
    decreases |path| - i
  {
    if i == |path| then 0
    else if !Passed(h, havhash, path, i, name) && name in path[i].commands then i + 1
    else FirstHashed(h, havhash, path, name, i + 1)
  }

  function TryHashed(h: seq<bv8>, havhash: bool, path: seq<Component>, name: Word, texec: nat -> Attempt, i: nat,
                     exerr: Word): Ending
    requires i <= |path| && |h| == HSHSIZ / 8
    decreases |path| - i
  {
    if i == |path| then NotFound(exerr)
    else if Passed(h, havhash, path, i, name) then TryHashed(h, havhash, path, name, texec, i + 1, exerr)
    else
      match texec(i)
      case Runs => Ran(i)
      case Stops => Stopped(i)
      case Absent => TryHashed(h, havhash, path, name, texec, i + 1, exerr)
      case Fails(err) => TryHashed(h, havhash, path, name, texec, i + 1, if exerr == [] then err else exerr)
  }

  /** Whatever the table is, the filter makes no difference to `iscommand` exactly if it does not pass over the first
      component that has the command. */
  lemma {:induction false} HashedFirst(h: seq<bv8>, havhash: bool, path: seq<Component>, name: Word, i: nat)
    requires i <= |path| && |h| == HSHSIZ / 8
    ensures FirstCommand(path, name, i) == 0 ==> FirstHashed(h, havhash, path, name, i) == 0
    ensures var p, q := FirstCommand(path, name, i), FirstHashed(h, havhash, path, name, i);
      (q == p <==> p == 0 || !Passed(h, havhash, path, p - 1, name)) && (q == 0 || q > i)
    decreases |path| - i
  {
    if i < |path| {
      HashedFirst(h, havhash, path, name, i + 1);
    }
  }

  /** The place, counted from 1, of the first component in which the search for a command to execute ends. */
  function Decides(n: nat, texec: nat -> Attempt, i: nat): (p: nat)
    requires i <= n
    ensures p == 0 || (i < p <= n && (texec(p - 1) == Runs || texec(p - 1) == Stops))
    decreases n - i
  {
    if i == n then 0 else if texec(i) == Runs || texec(i) == Stops then i + 1 else Decides(n, texec, i + 1)
  }

  predicate SameEnd(a: Ending, b: Ending) {
    a == b || (a.NotFound? && b.NotFound?)
  }

  /** Nor to what `doexec` executes, if it does not pass over the component in which the search ends. */
  lemma {:induction false} TriedFirst(h: seq<bv8>, havhash: bool, path: seq<Component>, name: Word,
                                      texec: nat -> Attempt, i: nat, e1: Word, e2: Word)
    requires i <= |path| && |h| == HSHSIZ / 8
    ensures var p := Decides(|path|, texec, i);
      SameEnd(TryHashed(h, havhash, path, name, texec, i, e1), TryAll(|path|, texec, i, e2)) <==>
      p == 0 || !Passed(h, havhash, path, p - 1, name)
    ensures var e := TryHashed(h, havhash, path, name, texec, i, e1); e.NotFound? || e.place >= i
    decreases |path| - i
  {
    if i < |path| {
      var f1 := if texec(i).Fails? && !Passed(h, havhash, path, i, name) && e1 == [] then texec(i).err else e1;
      var f2 := if texec(i).Fails? && e2 == [] then texec(i).err else e2;
      TriedFirst(h, havhash, path, name, texec, i + 1, f1, f2);
    }
  }

  /** The components that are searched: a name with a slash in it, or a search without a path, is looked for in
      `justabs`, the component without a text. */
  function Searched(path: seq<Component>, justabs: Component, name: Word): seq<Component> {
    if path == [] || SLASH in name then [justabs] else path
  }

  lemma {:induction false} HashedSame(h: seq<bv8>, havhash: bool, path: seq<Component>, name: Word, i: nat)
    requires i <= |path| && |h| == HSHSIZ / 8
    requires forall k: nat :: k < |path| && name in path[k].commands ==> !Passed(h, havhash, path, k, name)
    ensures FirstHashed(h, havhash, path, name, i) == FirstCommand(path, name, i)
    decreases |path| - i
  {
    if i < |path| {
      HashedSame(h, havhash, path, name, i + 1);
    }
  }

  lemma {:induction false} TriedSame(h: seq<bv8>, havhash: bool, path: seq<Component>, name: Word,
                                     texec: nat -> Attempt, i: nat, exerr: Word)
    requires i <= |path| && |h| == HSHSIZ / 8
    requires forall k: nat :: k < |path| && texec(k) != Absent ==> !Passed(h, havhash, path, k, name)
    ensures TryHashed(h, havhash, path, name, texec, i, exerr) == TryAll(|path|, texec, i, exerr)
    decreases |path| - i
  {
    if i < |path| {
      TriedSame(h, havhash, path, name, texec, i + 1,
                if texec(i).Fails? && exerr == [] then texec(i).err else exerr);
    }
  }

  /** No name in the directories of the path is hashed to the bit that the name is looked up at for component i. */
  ghost predicate Missed(path: seq<Component>, i: nat, name: Word)
    requires i < |path|
  {
    Absolute(path[i]) && SLASH !in name && !Wanted(path, Hash(NameHash(name), i))
  }

  /** Those are passed over, after `dohash`. */
  lemma PassedExactly(h: seq<bv8>, path: seq<Component>, justabs: Component, i: nat, name: Word)
    requires justabs.text == [] && Filled(h, path) && i < |Searched(path, justabs, name)|
    ensures Passed(h, true, Searched(path, justabs, name), i, name) <==>
            path != [] && SLASH !in name && Missed(path, i, name)
  {
    hide Bit, Hash, Wanted;
  }

  /** After `dohash` the filter makes no difference to `iscommand` exactly if some name in the directories of the path
      is hashed to the bit of the command in the first component that has it. */
  lemma HashedExactly(h: seq<bv8>, path: seq<Component>, justabs: Component, name: Word)
    requires justabs.text == [] && Filled(h, path)
    ensures var all := Searched(path, justabs, name);
      var p := FirstCommand(all, name, 0);
      FirstHashed(h, true, all, name, 0) == p <==>
      p == 0 || path == [] || SLASH in name || !Missed(path, p - 1, name)
  {
    var all := Searched(path, justabs, name);
    var p := FirstCommand(all, name, 0);
    HashedFirst(h, true, all, name, 0);
    if p > 0 {
      PassedExactly(h, path, justabs, p - 1, name);
    }
  }

  /** The same of what `doexec` executes, and the component in which that search ends. */
  lemma TriedExactly(h: seq<bv8>, path: seq<Component>, justabs: Component, name: Word, texec: nat -> Attempt)
    requires justabs.text == [] && Filled(h, path)
    ensures var all := Searched(path, justabs, name);
      var p := Decides(|all|, texec, 0);
      SameEnd(TryHashed(h, true, all, name, texec, 0, []), TryAll(|all|, texec, 0, [])) <==>
      p == 0 || path == [] || SLASH in name || !Missed(path, p - 1, name)
  {
    var all := Searched(path, justabs, name);
    var p := Decides(|all|, texec, 0);
    TriedFirst(h, true, all, name, texec, 0, [], []);
    if p > 0 {
      PassedExactly(h, path, justabs, p - 1, name);
    }
  }

  /** A command in a directory that cannot be listed is not found, if that is all of the path. */
  lemma UnlistedMissed(h: seq<bv8>, justabs: Component)
    requires justabs.text == []
    ensures var path, name := [Component([SLASH], [], {[97]})], [97];
      Filled(h, path) ==> FirstCommand(path, name, 0) == 1 && FirstHashed(h, true, path, name, 0) == 0
  {
    var path, name: Word := [Component([SLASH], [], {[97]})], [97];
    if Filled(h, path) {
      forall b: nat ensures !Wanted(path, b) {
      }
      HashedExactly(h, path, justabs, name);
      HashedFirst(h, true, path, name, 0);
    }
  }

  /** A dot is passed over though it is there and listed, and what the system has against it is not reported. */
  lemma DotMissed(h: seq<bv8>, texec: nat -> Attempt)
    requires texec(0).Fails? && texec(0).err != []
    ensures var path, name := [Component([SLASH], [[DOT]], {})], [DOT];
      Filled(h, path) ==> TryHashed(h, true, path, name, texec, 0, []) == NotFound([]) &&
                          TryAll(1, texec, 0, []) == NotFound(texec(0).err)
  {
    var path := [Component([SLASH], [[DOT]], {})];
    if Filled(h, path) {
      forall b: nat ensures !Wanted(path, b) {
      }
      assert TryAll(1, texec, 1, texec(0).err) == NotFound(texec(0).err);
    }
  }

  /** After `dohash` the filter passes over nothing that has been hashed. So it makes no difference if all commands
      have been. */
  lemma IscommandSame(h: seq<bv8>, havhash: bool, path: seq<Component>, justabs: Component, name: Word)
    requires justabs.text == [] && |h| == HSHSIZ / 8 && Listed(path) && (havhash ==> Filled(h, path))
    ensures var all := Searched(path, justabs, name);
      FirstHashed(h, havhash, all, name, 0) == FirstCommand(all, name, 0)
  {
    var all := Searched(path, justabs, name);
    forall k: nat | k < |all| && name in all[k].commands
      ensures !Passed(h, havhash, all, k, name)
    {
      if havhash && SLASH !in name && Absolute(all[k]) {
        CommandHasBit(h, path, k, name);
      }
    }
    HashedSame(h, havhash, all, name, 0);
  }

  /** Nor to what `doexec` does, to the error that it reports included, if whatever is there has been hashed. */
  lemma DoexecSame(h: seq<bv8>, havhash: bool, path: seq<Component>, justabs: Component, name: Word,
                   texec: nat -> Attempt)
    requires justabs.text == [] && |h| == HSHSIZ / 8 && Known(path, name, texec)
    requires havhash ==> Filled(h, path)
    ensures var all := Searched(path, justabs, name);
      TryHashed(h, havhash, all, name, texec, 0, []) == TryAll(|all|, texec, 0, [])
  {
    var all := Searched(path, justabs, name);
    forall k: nat | k < |all| && texec(k) != Absent
      ensures !Passed(h, havhash, all, k, name)
    {
      if havhash && SLASH !in name && Absolute(all[k]) {
        FileHasBit(h, path, k, name);
      }
    }
    TriedSame(h, havhash, all, name, texec, 0, []);
  }

  lemma NoneMarked(h: seq<bv8>, path: seq<Component>)
    requires |h| == HSHSIZ / 8 && forall k :: 0 <= k < |h| ==> h[k] == 0
    ensures Marked(h, path, 0, 0)
  {
  }

  class CommandTable {
    const xhash: array<bv8>
    var havhash: bool

    constructor ()
      ensures xhash.Length == HSHSIZ / 8 && !havhash && fresh(xhash)
    {
      xhash := new bv8[HSHSIZ / 8](_ => 0);
      havhash := false;
    }

    /** The loop of `hashname`. */
    static method HashName(name: Word) returns (h: int)
      ensures h == NameHash(name)
    {
      h := 0;
      var i := 0;
      while i < |name|
        invariant i <= |name| && h == NameHash(name[..i])
      {
        h := Hash(h, name[i]);
        assert name[..i + 1][..i] == name[..i];
        i := i + 1;
      }
      assert name[..i] == name;
    }

    /** `bis(xhash, b)`. */
    method SetBit(b: nat)
      requires xhash.Length == HSHSIZ / 8 && b < HSHSIZ
      modifies xhash
      ensures forall c: nat :: c < HSHSIZ ==> (Bit(xhash[..], c) <==> c == b || Bit(old(xhash[..]), c))
    {
      ghost var was := xhash[..];
      xhash[b / 8] := xhash[b / 8] | Mask(b % 8);
      forall c: nat | c < HSHSIZ ensures Bit(xhash[..], c) <==> c == b || Bit(was, c) {
        OneBit(was[b / 8], b % 8, c % 8);
        assert c == b <==> c / 8 == b / 8 && c % 8 == b % 8;
      }
    }

    /** The names of one directory. */
    method HashDirectory(path: seq<Component>, i: nat)
      requires i < |path| && Absolute(path[i]) && Marked(xhash[..], path, i, 0)
      modifies xhash
      ensures Marked(xhash[..], path, i + 1, 0)
    {
      hide Bit, Hash, Marked;
      Sized(xhash[..], path, i, 0);
      var k := 0;
      while k < |path[i].names|
        invariant xhash.Length == HSHSIZ / 8 && k <= |path[i].names| && Marked(xhash[..], path, i, k)
      {
        ghost var was := xhash[..];
        if Hashed(path[i].names[k]) {
          var h := HashName(path[i].names[k]);
          SetBit(Hash(h, i));
        }
        MoreBits(was, xhash[..], path, i, k);
        k := k + 1;
      }
      NextMarked(xhash[..], path, i, k);
    }

    /** `dohash`: the bits of the names in the directories of the path are set, and no others. */
    method Dohash(path: seq<Component>)
      requires xhash.Length == HSHSIZ / 8
      modifies this, xhash
      ensures havhash && Filled(xhash[..], path)
    {
      hide Bit, Marked, Filled;
      havhash := true;
      var cnt := 0;
      while cnt < xhash.Length
        invariant havhash && cnt <= xhash.Length && forall k :: 0 <= k < cnt ==> xhash[k] == 0
      {
        xhash[cnt] := 0;
        cnt := cnt + 1;
      }
      NoneMarked(xhash[..], path);
      var i := 0;
      while i < |path|
        invariant havhash && i <= |path| && Marked(xhash[..], path, i, 0)
      {
        if Absolute(path[i]) {
          HashDirectory(path, i);
        } else {
          NextMarked(xhash[..], path, i, 0);
        }
        i := i + 1;
      }
      MarkedAll(xhash[..], path);
    }

    /** Whether the filter passes over a component. */
    method Filtered(path: seq<Component>, i: nat, name: Word, hashval: nat) returns (skip: bool)
      requires i < |path| && xhash.Length == HSHSIZ / 8 && (havhash ==> hashval == NameHash(name))
      ensures skip == Passed(xhash[..], havhash, path, i, name)
    {
      skip := false;
      if SLASH !in name && Absolute(path[i]) && havhash {
        var hashval1 := Hash(hashval, i);
        skip := !Bit(xhash[..], hashval1);
      }
    }

    /** The search loop of `doexec`. Without a path only names that begin with a slash are looked for. */
    method Doexec(pathv: bool, path0: seq<Component>, justabs: Component, name: Word, texec: nat -> Attempt)
      returns (e: Ending)
      requires justabs.text == [] && (!pathv ==> path0 == []) && xhash.Length == HSHSIZ / 8
      ensures e == if name == [] || (!pathv && name[0] != SLASH) then NotFound([])
                   else TryHashed(xhash[..], havhash, Searched(path0, justabs, name), name, texec, 0, [])
    {
      if name == [] || (!pathv && name[0] != SLASH) {
        return NotFound([]);
      }
      var path := if path0 == [] || SLASH in name then [justabs] else path0;
      var hashval := 0;
      if havhash {
        hashval := HashName(name);
      }
      var exerr: Word := [];
      var i := 0;
      while true
        invariant i < |path|
        invariant TryHashed(xhash[..], havhash, path, name, texec, i, exerr) ==
                  TryHashed(xhash[..], havhash, path, name, texec, 0, [])
        decreases |path| - i
      {
        var skip := Filtered(path, i, name, hashval);
        if !skip {
          match texec(i) {
            case Runs => return Ran(i);
            case Stops => return Stopped(i);
            case Absent =>
            case Fails(err) => exerr := if exerr == [] then err else exerr;
          }
        }
        i := i + 1;
        if i == |path| {
          return NotFound(exerr);
        }
      }
    }

    /** `iscommand`. */
    method Iscommand(path0: seq<Component>, justabs: Component, name: Word) returns (place: nat)
      requires justabs.text == [] && xhash.Length == HSHSIZ / 8
      ensures place == FirstHashed(xhash[..], havhash, Searched(path0, justabs, name), name, 0)
    {
      var path := if path0 == [] || SLASH in name then [justabs] else path0;
      var hashval := 0;
      if havhash {
        hashval := HashName(name);
      }
      var i := 0;
      while true
        invariant i < |path|
        invariant FirstHashed(xhash[..], havhash, path, name, i) == FirstHashed(xhash[..], havhash, path, name, 0)
        decreases |path| - i
      {
        var skip := Filtered(path, i, name, hashval);
        if !skip && name in path[i].commands {
          return i + 1;
        }
        i := i + 1;
        if i == |path| {
          return 0;
        }
      }
    }
  }

  /** The bit of a hashed name is set, so that its component is not passed over. */
  lemma FileHasBit(h: seq<bv8>, path: seq<Component>, i: nat, name: Word)
    requires i < |path| && Absolute(path[i]) && Filled(h, path)
    ensures name in path[i].names && Hashed(name) ==> Bit(h, Hash(NameHash(name), i))
  {
    if name in path[i].names && Hashed(name) {
      var m: nat :| m < |path[i].names| && path[i].names[m] == name;
      assert Asks(path, i, m, Hash(NameHash(name), i));
    }
  }

  /** So is that of a command. */
  lemma CommandHasBit(h: seq<bv8>, path: seq<Component>, i: nat, name: Word)
    requires i < |path| && Absolute(path[i]) && Listed(path) && Filled(h, path)
    ensures name in path[i].commands ==> Bit(h, Hash(NameHash(name), i))
  {
    FileHasBit(h, path, i, name);
  }
}
