/**
 The replies of the device as text, and what the script's `wait_for` makes of
 each: its `case` patterns are substring tests.
 */
module Replies {
  import opened Nor
  import opened Ascii
  import opened FwUpdate
  import opened UpdateLink

  // ----------------------------------------------------- what the script sees

  predicate IsTelemetryChar(c: char) {
    '0' <= c <= '9' || c == '.' || c == ';' || c == '-'
  }

  /** The lines, without their newline, that `UpdateLink` calls by the name `r`. */
  predicate Reads(line: string, r: Reply) {
    match r
    case Telemetry => forall i :: 0 <= i < |line| ==> IsTelemetryChar(line[i])
    case Ok => line == "OK"
    case Recv => line == "RECV"
    case Ack => line == "ACK"
    case CrcOk => line == "CRCOK"
    case Flash => line == "FLASH"
    case Err => line in {"ERR:timeout", "ERR:size", "ERR:flash", "ERR:crc", "ERR:verify"}
  }

  /** The argument `wait_for` is called with. */
  function Word(want: Reply): string
    requires want.Ok? || want.Recv? || want.Ack? || want.CrcOk? || want.Flash?
  {
    match want
    case Ok => "OK"
    case Recv => "RECV"
    case Ack => "ACK"
    case CrcOk => "CRCOK"
    case Flash => "FLASH"
  }

  predicate StandsAt(line: string, word: string, i: nat) {
    i + |word| <= |line| && line[i..i + |word|] == word
  }

  /** `case "$line" in *"$word"*)` */
  ghost predicate Contains(line: string, word: string) {
    exists i: nat :: StandsAt(line, word, i)
  }

  lemma Lacks(line: string, word: string, k: nat)
    requires k < |word| && word[k] !in line
    ensures !Contains(line, word)
  {
    forall i: nat ensures !StandsAt(line, word, i) {
      if i + |word| <= |line| {
        assert line[i + k] == line[i..i + |word|][k];
      }
    }
  }

  lemma ContainsItself(word: string)
    ensures Contains(word, word)
  {
    assert StandsAt(word, word, 0);
  }

  lemma TelemetryLacks(line: string, word: string)
    requires Reads(line, Telemetry) && word != [] && !IsTelemetryChar(word[0])
    ensures !Contains(line, word)
  {
    Lacks(line, word, 0);
  }

  // Letters that tell the lines apart.

  lemma NoO(r: Reply, line: string)
    requires Reads(line, r) && r !in {Telemetry, Ok, CrcOk}
    ensures 'O' !in line
  {
  }

  lemma NoV(r: Reply, line: string)
    requires Reads(line, r) && r !in {Telemetry, Recv}
    ensures 'V' !in line
  {
  }

  lemma NoAOrNoK(r: Reply, line: string)
    requires Reads(line, r) && r !in {Telemetry, Ack}
    ensures if r == Flash then 'K' !in line else 'A' !in line
  {
  }

  lemma NoF(r: Reply, line: string)
    requires Reads(line, r) && r !in {Telemetry, Flash}
    ensures 'F' !in line
  {
  }

  /** `wait_for` succeeds on a line exactly when the link model says so. */
  lemma MatchesIsSubstring(want: Reply, r: Reply, line: string)
    requires want.Ok? || want.Recv? || want.Ack? || want.CrcOk? || want.Flash?
    requires Reads(line, r)
    ensures Contains(line, Word(want)) <==> Matches(want, r)
  {
    hide Contains;
    if r == want {
      ContainsItself(Word(want));
    } else if r == Telemetry {
      TelemetryLacks(line, Word(want));
    } else {
      MatchesAnother(want, r, line);
    }
  }

  lemma MatchesAnother(want: Reply, r: Reply, line: string)
    requires want.Ok? || want.Recv? || want.Ack? || want.CrcOk? || want.Flash?
    requires Reads(line, r) && r != want && r != Telemetry
    ensures Contains(line, Word(want)) <==> Matches(want, r)
  {
    hide Contains;
    match want
    case Ok => if r == CrcOk { OkInCrcOk(); } else { NoO(r, line); Lacks(line, "OK", 0); }
    case Recv => NoV(r, line); Lacks(line, "RECV", 3);
    case Ack => NoAOrNoK(r, line); Lacks(line, "ACK", if r == Flash then 2 else 0);
    case CrcOk => if r == Ok { TooShort(line, "CRCOK"); } else { NoO(r, line); Lacks(line, "CRCOK", 3); }
    case Flash => NoF(r, line); Lacks(line, "FLASH", 0);
  }

  lemma TooShort(line: string, word: string)
    requires |line| < |word|
    ensures !Contains(line, word)
  {
  }

  lemma OkInCrcOk()
    ensures Contains("CRCOK", "OK")
  {
    assert StandsAt("CRCOK", "OK", 3);
  }

  /** It gives up on exactly the error lines. */
  lemma ErrIsSubstring(r: Reply, line: string)
    requires Reads(line, r)
    ensures Contains(line, "ERR") <==> r == Err
  {
    match r
    case Telemetry => TelemetryLacks(line, "ERR");
    case Err => assert StandsAt(line, "ERR", 0);
    case Recv => NoErrInRecv();
    case _ => Lacks(line, "ERR", 0);
  }

  lemma NoErrInRecv()
    ensures !Contains("RECV", "ERR")
  {
    assert "RECV"[0..3][0] == 'R' && "RECV"[1..4][1] == 'C';
    forall i: nat ensures !StandsAt("RECV", "ERR", i) {
      assert i == 0 || i == 1 || i + 3 > 4;
    }
  }

  // --------------------------------------------------- what the device sends

  /** The last lines of a transaction. */
  function FinalText(o: Outcome): string {
    match o
    case Timeout => "ERR:timeout\n"
    case BadSize => "ERR:size\n"
    case Refused => "ERR:flash\n"
    case FlashFault => "ERR:flash\n"
    case BadCrc => "ERR:crc\n"
    case BadVerify => "ERR:verify\n"
    case MarkFailed => "ERR:flash\n"
    case Updated => "CRCOK\nFLASH\n"
  }

  function AckText(n: nat): string {
    if n == 0 then "" else AckText(n - 1) + "ACK\n"
  }

  /** All a transaction sends: one ACK for every started 4096 bytes acknowledged. */
  function TranscriptText(r: Report): string {
    "OK\n" + (if r.accepted then "RECV\n" + AckText((r.offset + 4095) / 4096) else "") + FinalText(r.outcome)
  }

  lemma ShortReplies()
    ensures Spells(OK_LINE, "OK\n") && Spells(RECV_LINE, "RECV\n") && Spells(ACK_LINE, "ACK\n")
    ensures Spells(CRCOK_FLASH_LINES, "CRCOK\nFLASH\n")
  {
    hide Is;
    Capitals();
    SmallLetters();
  }

  lemma ErrorReplies()
    ensures Spells(ERR_TIMEOUT, "ERR:timeout\n") && Spells(ERR_SIZE, "ERR:size\n") && Spells(ERR_FLASH, "ERR:flash\n")
    ensures Spells(ERR_CRC, "ERR:crc\n") && Spells(ERR_VERIFY, "ERR:verify\n")
  {
    hide Is;
    Capitals();
    SmallLetters();
  }

  lemma {:induction false} AcksAsText(n: nat)
    ensures Spells(Acks(n), AckText(n))
  {
    hide Is;
    if n > 0 {
      AcksAsText(n - 1);
      ShortReplies();
      SpellsConcat(Acks(n - 1), AckText(n - 1), ACK_LINE, "ACK\n");
    }
  }

  lemma FinalAsText(o: Outcome)
    ensures Spells(Final(o), FinalText(o))
  {
    hide Spells;
    ShortReplies();
    ErrorReplies();
  }

  /** The transcript of a transaction, as text. */
  lemma TranscriptReads(tx: seq<byte>, r: Report) returns (bytes: seq<byte>)
    ensures Transcript(tx, r) == tx + bytes && Spells(bytes, TranscriptText(r))
  {
    hide Spells, Final, FinalText, Acks, AckText;
    ShortReplies();
    FinalAsText(r.outcome);
    var middle, text := [], "";
    if r.accepted {
      var n := (r.offset + 4095) / 4096;
      assert ChunkCount(r.offset) == n;
      AcksAsText(n);
      SpellsConcat(RECV_LINE, "RECV\n", Acks(n), AckText(n));
      middle, text := RECV_LINE + Acks(n), "RECV\n" + AckText(n);
    } else {
      EmptyText();
    }
    SpellsConcat(OK_LINE, "OK\n", middle, text);
    SpellsConcat(OK_LINE + middle, "OK\n" + text, Final(r.outcome), FinalText(r.outcome));
    bytes := OK_LINE + middle + Final(r.outcome);
  }

  lemma EmptyText()
    ensures Spells([], "")
  {
  }
}
