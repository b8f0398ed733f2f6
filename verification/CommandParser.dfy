/**
 What a received line means (src/uart_handler.rs): the seven command names,
 surrounded by any white space.

 The source validates UTF-8, trims Unicode white space and compares. Working on
 the encoded bytes gives the same answer for every line: a line that trims to an
 ASCII name consists of that name and encoded white space only, which is valid
 UTF-8; any other line is Unknown either way.
 */
module CommandParser {
  import opened Nor
  import opened Register
  import opened Ascii

  datatype Command =
    | CmdPowerOn
    | CmdPowerOff
    | CmdRestoreOff
    | CmdRestoreOn
    | CmdRestoreLastState
    | CmdVersion
    | CmdFwUpdate
    | CmdUnknown

  /** "PWR_ON" and so on, in ASCII. */
  function Name(c: Command): seq<byte>
    requires c != CmdUnknown
  {
    match c
    case CmdPowerOn => [80, 87, 82, 95, 79, 78]
    case CmdPowerOff => [80, 87, 82, 95, 79, 70, 70]
    case CmdRestoreOff => RESTORE_MODE + [79, 70, 70]
    case CmdRestoreOn => RESTORE_MODE + [79, 78]
    case CmdRestoreLastState => RESTORE_MODE + [76, 65, 83, 84, 95, 83, 84, 65, 84, 69]
    case CmdVersion => [86, 69, 82, 83, 73, 79, 78]
    case CmdFwUpdate => [70, 87, 95, 85, 80, 68, 65, 84, 69]
  }

  /** "RESTORE_MODE_" */
  const RESTORE_MODE: seq<byte> := [82, 69, 83, 84, 79, 82, 69, 95, 77, 79, 68, 69, 95]

  // ------------------------------------------------------------ white space

  /** The UTF-8 encodings of the characters with the Unicode property White_Space. */
  predicate IsSpace1(a: byte) { 9 <= a <= 13 || a == 32 }

  predicate IsSpace2(a: byte, b: byte) { a == 0xC2 && (b == 0x85 || b == 0xA0) }

  predicate IsSpace3(a: byte, b: byte, c: byte) {
    || (a == 0xE1 && b == 0x9A && c == 0x80)
    || (a == 0xE2 && b == 0x80 && (0x80 <= c <= 0x8A || c == 0xA8 || c == 0xA9 || c == 0xAF))
    || (a == 0xE2 && b == 0x81 && c == 0x9F)
    || (a == 0xE3 && b == 0x80 && c == 0x80)
  }

  predicate IsSpace(s: seq<byte>) {
    || (|s| == 1 && IsSpace1(s[0]))
    || (|s| == 2 && IsSpace2(s[0], s[1]))
    || (|s| == 3 && IsSpace3(s[0], s[1], s[2]))
  }

  /** Length of the white-space character at the front, 0 if there is none. */
  function LeadingSpace(s: seq<byte>): (n: nat)
    ensures n <= |s| && n <= 3
    ensures n > 0 ==> IsSpace(s[..n])
  {
    if |s| >= 1 && IsSpace1(s[0]) then 1
    else if |s| >= 2 && IsSpace2(s[0], s[1]) then 2
    else if |s| >= 3 && IsSpace3(s[0], s[1], s[2]) then 3
    else 0
  }

  /** Length of the white-space character at the back, 0 if there is none. */
  function TrailingSpace(s: seq<byte>): (n: nat)
    ensures n <= |s| && n <= 3
    ensures n > 0 ==> IsSpace(s[|s| - n..])
  {
    if |s| >= 1 && IsSpace1(s[|s| - 1]) then 1
    else if |s| >= 2 && IsSpace2(s[|s| - 2], s[|s| - 1]) then 2
    else if |s| >= 3 && IsSpace3(s[|s| - 3], s[|s| - 2], s[|s| - 1]) then 3
    else 0
  }

  function TrimStart(s: seq<byte>): seq<byte>
    decreases |s|
  {
    if LeadingSpace(s) == 0 then s else TrimStart(s[LeadingSpace(s)..])
  }

  function TrimEnd(s: seq<byte>): seq<byte>
    decreases |s|
  {
    if TrailingSpace(s) == 0 then s else TrimEnd(s[..|s| - TrailingSpace(s)])
  }

  function ParseCommand(line: seq<byte>): Command {
    var s := TrimEnd(TrimStart(line));
    if s == Name(CmdPowerOn) then CmdPowerOn
    else if s == Name(CmdPowerOff) then CmdPowerOff
    else if s == Name(CmdRestoreOff) then CmdRestoreOff
    else if s == Name(CmdRestoreOn) then CmdRestoreOn
    else if s == Name(CmdRestoreLastState) then CmdRestoreLastState
    else if s == Name(CmdVersion) then CmdVersion
    else if s == Name(CmdFwUpdate) then CmdFwUpdate
    else CmdUnknown
  }

  // --------------------------------------------------------------- exactness

  ghost predicate AllSpaces(chars: seq<seq<byte>>) {
    forall i :: 0 <= i < |chars| ==> IsSpace(chars[i])
  }

  ghost predicate Spaces(s: seq<byte>) {
    exists chars :: AllSpaces(chars) && Flatten(chars) == s
  }

  /** White-space encodings cannot be confused, read from either end. */
  lemma SpacesDisjoint(a: byte, b: byte, c: byte)
    ensures IsSpace3(a, b, c) ==> !IsSpace1(a) && !IsSpace2(a, b) && !IsSpace1(c) && !IsSpace2(b, c)
    ensures IsSpace2(a, b) ==> !IsSpace1(a) && !IsSpace1(b)
    ensures IsSpace2(b, c) ==> !IsSpace1(c)
  {
  }

  lemma LeadingSpaceOf(c: seq<byte>, s: seq<byte>)
    requires IsSpace(c)
    ensures LeadingSpace(c + s) == |c|
  {
    hide IsSpace1, IsSpace2, IsSpace3;
    var t := c + s;
    assert t[..|c|] == c;
    assert t[0] == c[0];
    if |c| >= 2 {
      assert t[1] == c[1];
      SpacesDisjoint(c[0], c[1], c[1]);
    }
    if |c| == 3 {
      assert t[2] == c[2];
      SpacesDisjoint(c[0], c[1], c[2]);
    }
  }

  lemma TrailingSpaceOf(s: seq<byte>, c: seq<byte>)
    requires IsSpace(c)
    ensures TrailingSpace(s + c) == |c|
  {
    hide IsSpace1, IsSpace2, IsSpace3;
    var t := s + c;
    assert t[|t| - 1] == c[|c| - 1];
    if |c| >= 2 {
      assert t[|t| - 2] == c[|c| - 2];
      SpacesDisjoint(c[0], c[|c| - 2], c[|c| - 1]);
    }
    if |c| == 3 {
      assert t[|t| - 3] == c[0];
    }
  }

  lemma {:induction false} TrimStartDrops(chars: seq<seq<byte>>, s: seq<byte>)
    requires AllSpaces(chars)
    ensures TrimStart(Flatten(chars) + s) == TrimStart(s)
    decreases |chars|
  {
    if chars == [] {
      assert Flatten(chars) + s == s;
    } else {
      var rest := Flatten(chars[1..]) + s;
      assert Flatten(chars) + s == chars[0] + rest;
      LeadingSpaceOf(chars[0], rest);
      assert (chars[0] + rest)[|chars[0]|..] == rest;
      TrimStartDrops(chars[1..], s);
    }
  }

  lemma {:induction false} FlattenLast(chars: seq<seq<byte>>)
    requires chars != []
    ensures Flatten(chars) == Flatten(chars[..|chars| - 1]) + chars[|chars| - 1]
    decreases |chars|
  {
    if |chars| > 1 {
      FlattenLast(chars[1..]);
      assert chars[1..][..|chars| - 2] == chars[..|chars| - 1][1..];
    } else {
      assert chars[1..] == [];
    }
  }

  lemma {:induction false} TrimEndDrops(s: seq<byte>, chars: seq<seq<byte>>)
    requires AllSpaces(chars)
    ensures TrimEnd(s + Flatten(chars)) == TrimEnd(s)
    decreases |chars|
  {
    if chars == [] {
      assert s + Flatten(chars) == s;
    } else {
      var front, last := chars[..|chars| - 1], chars[|chars| - 1];
      FlattenLast(chars);
      var rest := s + Flatten(front);
      assert s + Flatten(chars) == rest + last;
      TrailingSpaceOf(rest, last);
      assert (rest + last)[..|rest + last| - |last|] == rest;
      TrimEndDrops(s, front);
    }
  }

  lemma SpaceInFront(c: seq<byte>, chars: seq<seq<byte>>)
    requires IsSpace(c) && AllSpaces(chars)
    ensures AllSpaces([c] + chars) && Flatten([c] + chars) == c + Flatten(chars)
  {
    hide IsSpace;
    assert ([c] + chars)[1..] == chars;
  }

  lemma SpaceBehind(chars: seq<seq<byte>>, c: seq<byte>)
    requires IsSpace(c) && AllSpaces(chars)
    ensures AllSpaces(chars + [c]) && Flatten(chars + [c]) == Flatten(chars) + c
  {
    hide IsSpace;
    FlattenLast(chars + [c]);
    assert (chars + [c])[..|chars|] == chars;
  }

  lemma {:induction false} TrimStartSplits(s: seq<byte>) returns (chars: seq<seq<byte>>)
    ensures AllSpaces(chars) && s == Flatten(chars) + TrimStart(s)
    decreases |s|
  {
    hide IsSpace, LeadingSpace, AllSpaces, Flatten;
    var n := LeadingSpace(s);
    chars := NoSpaces();
    if n > 0 {
      var rest := TrimStartSplits(s[n..]);
      SpaceInFront(s[..n], rest);
      chars := [s[..n]] + rest;
      assert s == s[..n] + s[n..];
    }
  }

  lemma NoSpaces() returns (chars: seq<seq<byte>>)
    ensures AllSpaces(chars) && Flatten(chars) == []
  {
    chars := [];
  }

  lemma {:induction false} TrimEndSplits(s: seq<byte>) returns (chars: seq<seq<byte>>)
    ensures AllSpaces(chars) && s == TrimEnd(s) + Flatten(chars)
    decreases |s|
  {
    hide IsSpace, TrailingSpace, AllSpaces, Flatten;
    var n := TrailingSpace(s);
    chars := NoSpaces();
    if n > 0 {
      var front := TrimEndSplits(s[..|s| - n]);
      SpaceBehind(front, s[|s| - n..]);
      chars := front + [s[|s| - n..]];
      assert s == s[..|s| - n] + s[|s| - n..];
    }
  }

  predicate Letter(b: byte) { 65 <= b <= 90 }

  /** A name begins and ends with a capital letter. */
  lemma NameEnds(c: Command)
    requires c != CmdUnknown
    ensures Name(c) != [] && Letter(Name(c)[0]) && Letter(Name(c)[|Name(c)| - 1])
  {
  }

  lemma LetterIsNoSpace(a: byte, b: byte, c: byte)
    ensures Letter(a) ==> !IsSpace1(a) && !IsSpace2(a, b) && !IsSpace3(a, b, c)
    ensures Letter(b) ==> !IsSpace2(a, b)
    ensures Letter(c) ==> !IsSpace3(a, b, c)
  {
  }

  lemma NameIsTrimmed(c: Command, s: seq<byte>)
    requires c != CmdUnknown
    ensures LeadingSpace(Name(c) + s) == 0
    ensures TrailingSpace(Name(c)) == 0
  {
    hide Name, Letter, IsSpace1, IsSpace2, IsSpace3;
    NameEnds(c);
    var n := Name(c);
    var t := n + s;
    assert t[0] == n[0];
    LetterIsNoSpace(t[0], if |t| >= 2 then t[1] else 0, if |t| >= 3 then t[2] else 0);
    LetterIsNoSpace(n[|n| - 1], 0, 0);
    LetterIsNoSpace(0, if |n| >= 2 then n[|n| - 2] else 0, n[|n| - 1]);
    LetterIsNoSpace(if |n| >= 2 then n[|n| - 2] else 0, n[|n| - 1], 0);
    LetterIsNoSpace(if |n| >= 3 then n[|n| - 3] else 0, if |n| >= 2 then n[|n| - 2] else 0, n[|n| - 1]);
  }

  lemma NamesDiffer(c: Command, d: Command)
    requires c != CmdUnknown && d != CmdUnknown && Name(c) == Name(d)
    ensures c == d
  {
    assert |Name(c)| == |Name(d)|;
  }

  lemma NameTrims(front: seq<seq<byte>>, c: Command, back: seq<seq<byte>>)
    requires c != CmdUnknown
    requires AllSpaces(front)
    requires AllSpaces(back)
    ensures ParseCommand(Flatten(front) + (Name(c) + Flatten(back))) == c
  {
    NameIsTrimmed(c, Flatten(back));
    TrimStartDrops(front, Name(c) + Flatten(back));
    TrimEndDrops(Name(c), back);
    assert TrimEnd(TrimStart(Flatten(front) + (Name(c) + Flatten(back)))) == Name(c);
    ParseOfName(c, Flatten(front) + (Name(c) + Flatten(back)));
  }

  lemma ParseOfName(c: Command, line: seq<byte>)
    requires c != CmdUnknown && TrimEnd(TrimStart(line)) == Name(c)
    ensures ParseCommand(line) == c
  {
    var d := ParseCommand(line);
    if d != CmdUnknown {
      NamesDiffer(c, d);
    }
  }

  lemma ParsedName(line: seq<byte>, c: Command)
    requires c != CmdUnknown && ParseCommand(line) == c
    ensures TrimEnd(TrimStart(line)) == Name(c)
  {
    hide Name, TrimStart, TrimEnd;
  }

  lemma Regroup(a: seq<byte>, b: seq<byte>, c: seq<byte>)
    ensures a + (b + c) == a + b + c
  {
  }

  lemma SpacesOf(chars: seq<seq<byte>>)
    requires AllSpaces(chars)
    ensures Spaces(Flatten(chars))
  {
    hide AllSpaces, Flatten;
  }

  lemma ParseSplits(line: seq<byte>, c: Command) returns (pre: seq<byte>, post: seq<byte>)
    requires c != CmdUnknown && ParseCommand(line) == c
    ensures Spaces(pre) && Spaces(post) && line == pre + Name(c) + post
  {
    hide *;
    ParsedName(line, c);
    var front := TrimStartSplits(line);
    var back := TrimEndSplits(TrimStart(line));
    pre, post := Flatten(front), Flatten(back);
    SpacesOf(front);
    SpacesOf(back);
    Regroup(pre, Name(c), post);
  }

  lemma SpacedNameParses(pre: seq<byte>, c: Command, post: seq<byte>)
    requires c != CmdUnknown && Spaces(pre) && Spaces(post)
    ensures ParseCommand(pre + Name(c) + post) == c
  {
    hide IsSpace, ParseCommand, Name;
    var front :| AllSpaces(front) && Flatten(front) == pre;
    var back :| AllSpaces(back) && Flatten(back) == post;
    NameTrims(front, c, back);
    assert pre + Name(c) + post == pre + (Name(c) + post);
  }

  /** A line is a command exactly when it is that command's name amid white space. */
  lemma ParseExact(line: seq<byte>, c: Command)
    requires c != CmdUnknown
    ensures ParseCommand(line) == c
       <==> exists pre, post :: Spaces(pre) && Spaces(post) && line == pre + Name(c) + post
  {
    hide ParseCommand, Name, Spaces;
    if ParseCommand(line) == c {
      var pre, post := ParseSplits(line, c);
    }
    if pre, post :| Spaces(pre) && Spaces(post) && line == pre + Name(c) + post {
      SpacedNameParses(pre, c, post);
    }
  }

  // ------------------------------------------------ white space by code point

  /** `s` is the UTF-8 encoding, of at most three bytes, of the character with code point `c`. */
  predicate Encodes(s: seq<byte>, c: nat) {
    if c < 0x80 then |s| == 1 && s[0] as int == c
    else if c < 0x800 then |s| == 2 && s[0] as int == 0xC0 + c / 64 && s[1] as int == 0x80 + c % 64
    else |s| == 3 && s[0] as int == 0xE0 + c / 4096 && s[1] as int == 0x80 + c / 64 % 64 && s[2] as int == 0x80 + c % 64
  }

  /** The code points with the Unicode property White_Space. */
  predicate WhiteSpace(c: nat) {
    || 0x09 <= c <= 0x0D || c == 0x20 || c == 0x85 || c == 0xA0 || c == 0x1680 || 0x2000 <= c <= 0x200A
    || c == 0x2028 || c == 0x2029 || c == 0x202F || c == 0x205F || c == 0x3000
  }

  lemma ByteOrder(a: byte, b: byte)
    ensures a <= b <==> a as int <= b as int
    ensures a == b <==> a as int == b as int
  {
  }

  lemma Space1AsInt(a: byte)
    ensures IsSpace1(a) <==> 9 <= a as int <= 13 || a as int == 32
  {
    ByteOrder(9, a);
    ByteOrder(a, 13);
    ByteOrder(a, 32);
  }

  lemma Space2AsInt(a: byte, b: byte)
    ensures IsSpace2(a, b) <==> a as int == 0xC2 && (b as int == 0x85 || b as int == 0xA0)
  {
    ByteOrder(a, 0xC2);
    ByteOrder(b, 0x85);
    ByteOrder(b, 0xA0);
  }

  lemma Space3AsInt(a: byte, b: byte, c: byte)
    ensures IsSpace3(a, b, c) <==>
      || (a as int == 0xE1 && b as int == 0x9A && c as int == 0x80)
      || (a as int == 0xE2 && b as int == 0x80
          && (0x80 <= c as int <= 0x8A || c as int == 0xA8 || c as int == 0xA9 || c as int == 0xAF))
      || (a as int == 0xE2 && b as int == 0x81 && c as int == 0x9F)
      || (a as int == 0xE3 && b as int == 0x80 && c as int == 0x80)
  {
    ByteOrder(a, 0xE1);
    ByteOrder(a, 0xE2);
    ByteOrder(a, 0xE3);
    ByteOrder(b, 0x9A);
    ByteOrder(b, 0x80);
    ByteOrder(b, 0x81);
    ByteOrder(0x80, c);
    ByteOrder(c, 0x8A);
    ByteOrder(c, 0xA8);
    ByteOrder(c, 0xA9);
    ByteOrder(c, 0xAF);
    ByteOrder(c, 0x9F);
  }

  /** The code point of three bytes that encode one. */
  function CodePoint(a: int, b: int, c: int): int {
    (a - 0xE0) * 4096 + (b - 0x80) * 64 + (c - 0x80)
  }

  lemma SpaceHasCodePoint(s: seq<byte>) returns (c: nat)
    requires IsSpace(s)
    ensures c < 0x1_0000 && WhiteSpace(c) && Encodes(s, c)
  {
    hide IsSpace1, IsSpace2, IsSpace3;
    if |s| == 1 {
      Space1AsInt(s[0]);
      c := s[0] as int;
    } else if |s| == 2 {
      Space2AsInt(s[0], s[1]);
      c := s[1] as int;
    } else {
      Space3AsInt(s[0], s[1], s[2]);
      var cp := CodePoint(s[0] as int, s[1] as int, s[2] as int);
      assert cp == 0x1680 || 0x2000 <= cp <= 0x200A || cp in {0x2028, 0x2029, 0x202F, 0x205F, 0x3000};
      c := cp;
    }
  }

  lemma ThreeByteParts(c: nat)
    requires 0x800 <= c < 0x1_0000 && WhiteSpace(c)
    ensures var x, y, z := 0xE0 + c / 4096, 0x80 + c / 64 % 64, 0x80 + c % 64;
            || (x == 0xE1 && y == 0x9A && z == 0x80)
            || (x == 0xE2 && y == 0x80 && (0x80 <= z <= 0x8A || z == 0xA8 || z == 0xA9 || z == 0xAF))
            || (x == 0xE2 && y == 0x81 && z == 0x9F)
            || (x == 0xE3 && y == 0x80 && z == 0x80)
  {
    if 0x2000 <= c <= 0x200A {
      assert c / 4096 == 2 && c / 64 == 128 && c % 64 == c - 0x2000;
    }
  }

  lemma CodePointIsSpace(s: seq<byte>, c: nat)
    requires c < 0x1_0000 && WhiteSpace(c) && Encodes(s, c)
    ensures IsSpace(s)
  {
    hide IsSpace1, IsSpace2, IsSpace3;
    if c < 0x80 {
      Space1AsInt(s[0]);
    } else if c < 0x800 {
      Space2AsInt(s[0], s[1]);
    } else {
      ThreeByteParts(c);
      Space3AsInt(s[0], s[1], s[2]);
    }
  }

  /** What is trimmed: exactly the encodings of white-space characters. */
  lemma SpaceIffWhiteSpace(s: seq<byte>)
    ensures IsSpace(s) <==> exists c: nat :: c < 0x1_0000 && WhiteSpace(c) && Encodes(s, c)
  {
    hide IsSpace, WhiteSpace, Encodes;
    if IsSpace(s) {
      var c := SpaceHasCodePoint(s);
    }
    if c: nat :| c < 0x1_0000 && WhiteSpace(c) && Encodes(s, c) {
      CodePointIsSpace(s, c);
    }
  }

  // ------------------------------------------------------- the lines as sent

  lemma NamesAsText()
    ensures Spells(Name(CmdPowerOn), "PWR_ON") && Spells(Name(CmdPowerOff), "PWR_OFF")
    ensures Spells(Name(CmdVersion), "VERSION") && Spells(Name(CmdFwUpdate), "FW_UPDATE")
  {
    hide Is;
    Capitals();
  }

  lemma ModeNamesAsText()
    ensures Spells(Name(CmdRestoreOff), "RESTORE_MODE_OFF") && Spells(Name(CmdRestoreOn), "RESTORE_MODE_ON")
    ensures Spells(Name(CmdRestoreLastState), "RESTORE_MODE_LAST_STATE")
  {
    hide Is;
    Capitals();
    assert Spells(RESTORE_MODE, "RESTORE_MODE_");
    SpellsConcat(RESTORE_MODE, "RESTORE_MODE_", [79, 70, 70], "OFF");
    SpellsConcat(RESTORE_MODE, "RESTORE_MODE_", [79, 78], "ON");
    SpellsConcat(RESTORE_MODE, "RESTORE_MODE_", [76, 65, 83, 84, 95, 83, 84, 65, 84, 69], "LAST_STATE");
    assert "RESTORE_MODE_OFF" == "RESTORE_MODE_" + "OFF";
    assert "RESTORE_MODE_ON" == "RESTORE_MODE_" + "ON";
    assert "RESTORE_MODE_LAST_STATE" == "RESTORE_MODE_" + "LAST_STATE";
  }

  lemma LineEnds()
    ensures Spells([10], "\n") && Spells([13, 10], "\r\n") && Spells([], "")
    ensures Spaces([10]) && Spaces([13, 10]) && Spaces([])
  {
    SmallLetters();
    SpacesOf([]);
    SpacesOf([[10]]);
    SpacesOf([[13], [10]]);
    assert [[10]][1..] == [] && [[13], [10]][1..] == [[10]];
    assert Flatten([[10]]) == [10] && Flatten([[13], [10]]) == [13, 10];
  }

  lemma NamedLine(c: Command, name: string, line: seq<byte>, end: string)
    requires c != CmdUnknown && Spells(Name(c), name) && end in {"", "\n", "\r\n"}
    ensures Spells(line, name + end) ==> ParseCommand(line) == c
  {
    hide Spells, Spaces, Name, ParseCommand, Is;
    LineEnds();
    var bytes: seq<byte> := if end == "" then [] else if end == "\n" then [10] else [13, 10];
    if Spells(line, name + end) {
      SpellsConcat(Name(c), name, bytes, end);
      SpelledOnce(line, Name(c) + bytes, name + end);
      SpacedNameParses([], c, bytes);
      assert [] + Name(c) + bytes == Name(c) + bytes;
    }
  }

  /** Every command, as the host sends it. */
  lemma CommandLines(line: seq<byte>, end: string)
    requires end in {"", "\n", "\r\n"}
    ensures Spells(line, "PWR_ON" + end) ==> ParseCommand(line) == CmdPowerOn
    ensures Spells(line, "PWR_OFF" + end) ==> ParseCommand(line) == CmdPowerOff
    ensures Spells(line, "RESTORE_MODE_OFF" + end) ==> ParseCommand(line) == CmdRestoreOff
    ensures Spells(line, "RESTORE_MODE_ON" + end) ==> ParseCommand(line) == CmdRestoreOn
    ensures Spells(line, "RESTORE_MODE_LAST_STATE" + end) ==> ParseCommand(line) == CmdRestoreLastState
    ensures Spells(line, "VERSION" + end) ==> ParseCommand(line) == CmdVersion
    ensures Spells(line, "FW_UPDATE" + end) ==> ParseCommand(line) == CmdFwUpdate
  {
    hide Spells, Name, ParseCommand;
    NamesAsText();
    ModeNamesAsText();
    NamedLine(CmdPowerOn, "PWR_ON", line, end);
    NamedLine(CmdPowerOff, "PWR_OFF", line, end);
    NamedLine(CmdRestoreOff, "RESTORE_MODE_OFF", line, end);
    NamedLine(CmdRestoreOn, "RESTORE_MODE_ON", line, end);
    NamedLine(CmdRestoreLastState, "RESTORE_MODE_LAST_STATE", line, end);
    NamedLine(CmdVersion, "VERSION", line, end);
    NamedLine(CmdFwUpdate, "FW_UPDATE", line, end);
  }
}
