/** Bytes as the text they stand for. */
module Ascii {
  import opened Nor

  predicate Is(b: byte, c: char) { b as int == c as int }

  /** `bytes` is `text` in ASCII. */
  predicate Spells(bytes: seq<byte>, text: string) {
    |bytes| == |text| && forall i :: 0 <= i < |text| ==> Is(bytes[i], text[i])
  }

  lemma OneByteEach(a: byte, b: byte, c: char)
    requires Is(a, c) && Is(b, c)
    ensures a == b
  {
  }

  lemma SpelledOnce(x: seq<byte>, y: seq<byte>, text: string)
    requires Spells(x, text) && Spells(y, text)
    ensures x == y
  {
    hide Is;
    forall i | 0 <= i < |text| ensures x[i] == y[i] {
      OneByteEach(x[i], y[i], text[i]);
    }
  }

  lemma SpellsConcat(x: seq<byte>, s: string, y: seq<byte>, t: string)
    requires Spells(x, s) && Spells(y, t)
    ensures Spells(x + y, s + t)
  {
    hide Is;
  }

  lemma Capitals()
    ensures Is(65, 'A') && Is(67, 'C') && Is(68, 'D') && Is(69, 'E') && Is(70, 'F') && Is(72, 'H') && Is(73, 'I')
    ensures Is(75, 'K') && Is(76, 'L') && Is(77, 'M') && Is(78, 'N') && Is(79, 'O') && Is(80, 'P') && Is(82, 'R')
    ensures Is(83, 'S') && Is(84, 'T') && Is(85, 'U') && Is(86, 'V') && Is(87, 'W') && Is(95, '_')
  {
  }

  lemma SmallLetters()
    ensures Is(97, 'a') && Is(99, 'c') && Is(101, 'e') && Is(102, 'f') && Is(104, 'h') && Is(105, 'i') && Is(108, 'l')
    ensures Is(109, 'm') && Is(111, 'o') && Is(114, 'r') && Is(115, 's') && Is(116, 't') && Is(117, 'u')
    ensures Is(118, 'v') && Is(121, 'y') && Is(122, 'z') && Is(58, ':') && Is(10, '\n') && Is(13, '\r')
  {
  }
}
