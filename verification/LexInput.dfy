/** The input of csh, when it can be positioned (bin/csh/lex.c). */
module LexInput {

  const BUFSIZ := 1024

  /** A character is read, or a place is sought. */
  datatype Op = Get | Seek(l: nat)

  /** What a file gives from place `at` on, without a buffer. */
  function Given(file: seq<nat>, script: seq<Op>, at: nat): seq<int> {
    if script == [] then []
    else
      match script[0]
      case Seek(l) => Given(file, script[1..], l)
      case Get =>
        if at < |file| then [file[at]] + Given(file, script[1..], at + 1) else [-1] + Given(file, script[1..], at)
  }

  /** The input file, and csh's buffer for it. */
  class Input {
    /** The characters of the file. */
    const file: seq<nat>
    /** Where the kernel reads next. */
    var offset: nat
    var fseekp: nat
    var fbobp: nat
    var feobp: nat
    const fbuf: array<nat>

    /** The buffer holds the file from `fbobp` to `feobp`, where the kernel goes on. */
    ghost predicate Valid()
      reads this, fbuf
    {
      && fbuf.Length == BUFSIZ && offset == feobp && fbobp <= feobp <= fbobp + BUFSIZ
      && (fbobp < feobp ==> feobp <= |file| && fbuf[..feobp - fbobp] == file[fbobp..feobp])
    }

    /** `settell`, where the kernel is at `start`. */
    constructor (file: seq<nat>, start: nat)
      ensures Valid() && this.file == file && fseekp == start && fresh(fbuf)
    {
      this.file, offset, fseekp, fbobp, feobp := file, start, start, start, start;
      fbuf := new nat[BUFSIZ](_ => 0);
    }

    /** `read`: at the end of the file nothing, otherwise any number of characters up to the size of the buffer;
        `some` is what it is asked to come to. */
    method ReadFile(some: nat) returns (c: nat)
      requires fbuf.Length == BUFSIZ
      modifies this`offset, fbuf
      ensures c == 0 <==> old(offset) >= |file|
      ensures c <= BUFSIZ && offset == old(offset) + c
      ensures c > 0 ==> offset <= |file| && fbuf[..c] == file[old(offset)..offset]
    {
      if offset >= |file| {
        return 0;
      }
      var left := |file| - offset;
      c := if some == 0 then 1 else if some > BUFSIZ then BUFSIZ else some;
      if c > left {
        c := left;
      }
      var i := 0;
      while i < c
        invariant i <= c && offset == old(offset) && fbuf[..i] == file[offset..offset + i]
      {
        fbuf[i] := file[offset + i];
        assert fbuf[..i + 1] == fbuf[..i] + [fbuf[i]];
        assert file[offset..offset + i + 1] == file[offset..offset + i] + [file[offset + i]];
        i := i + 1;
      }
      offset := offset + c;
    }

    /** `bgetc`: whatever has been sought before, and however much the kernel gives at a time, the next character
        is the one of the file at `fseekp`; -1 stands for the end of the file. */
    method Bgetc(some: nat) returns (c: int)
      requires Valid()
      modifies this, fbuf
      ensures Valid()
      ensures old(fseekp) < |file| ==> c == file[old(fseekp)] && fseekp == old(fseekp) + 1
      ensures old(fseekp) >= |file| ==> c == -1 && fseekp == old(fseekp)
    {
      if fseekp < fbobp || fseekp > feobp {
        fbobp, feobp := fseekp, fseekp;
        offset := fseekp;
      }
      if fseekp == feobp {
        fbobp := feobp;
        var n := ReadFile(some);
        if n == 0 {
          return -1;
        }
        feobp := feobp + n;
      }
      assert fbuf[..feobp - fbobp][fseekp - fbobp] == file[fbobp..feobp][fseekp - fbobp];
      c := fbuf[fseekp - fbobp];
      fseekp := fseekp + 1;
    }

    /** `bseek` to a place in the file. */
    method Bseek(l: nat)
      requires Valid()
      modifies this`fseekp
      ensures Valid() && fseekp == l
    {
      fseekp := l;
    }

    /** `btell`. */
    method Btell() returns (l: nat)
      ensures l == fseekp
    {
      l := fseekp;
    }

    /** Any calls of `bgetc` and `bseek` give what the file itself would give; `some(k)` is what a read in the k-th
        of them is asked to come to. */
    method Replay(script: seq<Op>, some: nat -> nat) returns (out: seq<int>)
      requires Valid()
      modifies this, fbuf
      ensures Valid() && out == Given(file, script, old(fseekp))
    {
      out := [];
      var k := 0;
      assert script[0..] == script;
      while k < |script|
        invariant Valid() && k <= |script|
        invariant out + Given(file, script[k..], fseekp) == Given(file, script, old(fseekp))
      {
        assert script[k..][1..] == script[k + 1..];
        match script[k] {
          case Get =>
            var c := Bgetc(some(k));
            out := out + [c];
          case Seek(l) =>
            Bseek(l);
        }
        k := k + 1;
      }
    }

    /** What is read from a place is read again after going back to it. */
    method ReadAgain(n: nat, some: nat -> nat) returns (first: seq<int>, again: seq<int>)
      requires Valid()
      modifies this, fbuf
      ensures Valid() && first == again && |first| == n
      ensures forall i :: 0 <= i < n ==> first[i] == if old(fseekp) + i < |file| then file[old(fseekp) + i] else -1
    {
      var l := Btell();
      first := ReadOn(n, some);
      Bseek(l);
      again := ReadOn(n, i => some(n + i));
    }

    method ReadOn(n: nat, some: nat -> nat) returns (s: seq<int>)
      requires Valid()
      modifies this, fbuf
      ensures Valid() && |s| == n
      ensures forall i :: 0 <= i < n ==> s[i] == if old(fseekp) + i < |file| then file[old(fseekp) + i] else -1
    {
      s := [];
      var start := fseekp;
      while |s| < n
        invariant Valid() && |s| <= n
        invariant fseekp == if start + |s| <= |file| then start + |s| else if start < |file| then |file| else start
        invariant forall i :: 0 <= i < |s| ==> s[i] == if start + i < |file| then file[start + i] else -1
      {
        var c := Bgetc(some(|s|));
        s := s + [c];
      }
    }
  }
}
