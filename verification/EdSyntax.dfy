/** How the text of a regular expression reads as a pattern (bin/ed/ed.c). */
module EdSyntax {
  import opened EdPattern

  const EOF := -1
  const NEWLINE := 10
  const DOLLAR := 36
  const STARCH := 42
  const HYPHEN := 45
  const PERIOD := 46
  const LBRACKET := 91
  const BACKSLASH := 92
  const RBRACKET := 93
  const CARET := 94

  /** What `getchr` delivers: the characters of a command, then end of file for ever. */
  function At(src: seq<int>, pos: nat): int {
    if pos < |src| then src[pos] else EOF
  }

  /** `\(`, `\)` and `\1` to `\5`. */
  predicate IsGroup(d: int) {
    d == 40 || d == 41 || 49 <= d < 54
  }

  datatype ClassText = ClassText(chars: seq<int>, end: nat) | BadClass

  /** The characters after `last` up to d. */
  function Range(last: int, d: int): seq<int>
    decreases d - last
  {
    if last < d then [last + 1] + Range(last + 1, d) else []
  }

  /** A class from its next character on, behind `chars`. A bracket cannot come here; it ends the class
      except in first place. A hyphen there, or before the closing bracket, stands for itself; elsewhere it
      fills up to the next character, and that one is put in once more. */
  function ReadClass(src: seq<int>, pos: nat, chars: seq<int>): (k: ClassText)
    ensures k.ClassText? ==> pos < k.end <= |src| && chars < k.chars
    decreases |src| - pos, 1
  {
    var c := At(src, pos);
    if c == EOF || c == NEWLINE then BadClass
    else if c == HYPHEN && chars != [] then
      var d := At(src, pos + 1);
      if d == EOF then BadClass
      else if d == RBRACKET then ClassText(chars + [HYPHEN], pos + 2)
      else NextInClass(src, pos + 2, chars + Range(chars[|chars| - 1], d) + [d])
    else NextInClass(src, pos + 1, chars + [c])
  }

  function NextInClass(src: seq<int>, pos: nat, chars: seq<int>): (k: ClassText)
    ensures k.ClassText? ==> pos < k.end <= |src| && chars <= k.chars
    decreases |src| - pos, 2
  {
    if At(src, pos) == RBRACKET then ClassText(chars, pos + 1) else ReadClass(src, pos, chars)
  }

  /** How text reads: whether it begins with stars that belong to what comes before it; the items; whether it
      ends in a dollar; and where, behind the delimiter, it ends. */
  datatype Reading = Reading(starred: bool, items: seq<Item>, dollar: bool, end: nat) | Bad | Beyond

  /** The atom in front of text: stars that this text begins with are the atom's. */
  function Before(a: Atom, r: Reading): Reading {
    if r.Reading? then Reading(false, [Item(a, r.starred)] + r.items, r.dollar, r.end) else r
  }

  /** The text from pos on; `prev` tells that a star here has something to belong to. Stars in first place
      stand for themselves, all of them. */
  function Read(src: seq<int>, pos: nat, eof: int, prev: bool): Reading
    decreases |src| - pos
  {
    var c := At(src, pos);
    if c == EOF then Bad
    else if c == eof then Reading(false, [], false, pos + 1)
    else if c == NEWLINE then Bad
    else if c == BACKSLASH then
      var d := At(src, pos + 1);
      if d == EOF || d == NEWLINE then Bad
      else if IsGroup(d) then Beyond
      else Before(Chr(d), Read(src, pos + 2, eof, true))
    else if c == PERIOD then Before(Dot, Read(src, pos + 1, eof, true))
    else if c == STARCH && prev then
      var r := Read(src, pos + 1, eof, true);
      if r.Reading? then r.(starred := true) else r
    else if c == DOLLAR && At(src, pos + 1) == eof then Reading(false, [], true, pos + 2)
    else if c == LBRACKET then
      var negated := At(src, pos + 1) == CARET;
      var k := ReadClass(src, if negated then pos + 2 else pos + 1, []);
      if k.BadClass? then Bad
      else Before(Class(k.chars, negated), Read(src, k.end, eof, true))
    else Before(Chr(c), Read(src, pos + 1, eof, c != STARCH))
  }
}
