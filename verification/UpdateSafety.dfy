/** What a firmware-update transaction guarantees, as consequences of its relation `FwUpdate.Transaction`. */
module UpdateSafety {
  import opened Nor
  import opened Layout
  import opened Crc32
  import opened Crc32Burst
  import opened BootContract
  import opened Staging
  import opened UartHandler
  import opened FwUpdate

  /** The fate of a complete exchange on a healthy chip. */
  function Verdict(l: Loader, s: seq<byte>, m: Memory): Outcome
    requires |s| >= 4
    requires GoodSize(ImageLen(s)) ==> HasAll(s)
  {
    if !GoodSize(ImageLen(s)) then BadSize
    else if Seen(PhaseOf(l, m)) == Swap then Refused
    else if Crc(Image(s)) != Trailer(s) then BadCrc
    else Updated
  }

  /** The memory it leaves. */
  function Installed(l: Loader, s: seq<byte>, m: Memory): seq<byte>
    requires |s| >= 4
    requires GoodSize(ImageLen(s)) ==> HasAll(s)
  {
    var v := Verdict(l, s, m);
    if v == BadSize || v == Refused then m
    else if v == BadCrc then Staged(m, Image(s))
    else l.markUpdated(Staged(m, Image(s)))
  }

  /**
   On a healthy chip a transaction in which the sender never goes quiet is a
   function of the stream and the memory: outcome, bytes consumed and final
   memory are all determined. In particular a complete, correct exchange marks
   the update, with exactly the image in the partition.
   */
  lemma HealthyVerdict(l: Loader, s: seq<byte>, m: Memory, r: Report, mv: Memory, rest: seq<byte>, m': Memory)
    requires Transaction(l, true, s, m, r, mv, rest, m')
    requires |s| >= 4 && (GoodSize(ImageLen(s)) ==> HasAll(s))
    requires r.outcome != Timeout
    ensures r.outcome == Verdict(l, s, m)
    ensures m' == Installed(l, s, m)
    ensures r.accepted <==> r.outcome in {BadCrc, Updated}
    ensures rest == if r.accepted then s[8 + ImageLen(s)..] else s[4..]
  {
    hide Crc, Staged, SameOutside, Le32Nat, Le32;
    if r.accepted && r.outcome in {BadVerify, Updated} {
      assert mv == Staged(m, Image(s));
      StagedKeeps(m, Image(s));
      assert ReadBack(mv, ImageLen(s)) == Image(s);
    }
  }

  /**
   The same without the proviso: when everything is on the stream and offered in
   time, there is no timeout to exclude.
   */
  lemma PromptVerdict(l: Loader, script: seq<Poll>, s: seq<byte>, m: Memory, r: Report, mv: Memory,
                      rest: seq<byte>, m': Memory)
    requires Transaction(l, true, s, m, r, mv, rest, m') && Timely(script, s, r.outcome)
    requires Prompt(script, s)
    ensures r.outcome == Verdict(l, s, m) && m' == Installed(l, s, m)
    ensures rest == if r.accepted then s[8 + ImageLen(s)..] else s[4..]
  {
    hide Transaction, Le32Nat, Eager, Verdict, Installed;
    HealthyVerdict(l, s, m, r, mv, rest, m');
  }

  /** Each verdict on a prompt exchange, in terms of its bytes and of the state sector. */
  lemma PromptVerdictMeans(l: Loader, script: seq<Poll>, s: seq<byte>, m: Memory, r: Report, mv: Memory,
                           rest: seq<byte>, m': Memory)
    requires Transaction(l, true, s, m, r, mv, rest, m') && Timely(script, s, r.outcome)
    requires Prompt(script, s)
    ensures r.outcome in {BadSize, Refused, BadCrc, Updated}
    ensures r.outcome == BadSize <==> ImageLen(s) == 0 || ImageLen(s) > 256 * 1024
    ensures r.outcome == Refused <==> 1 <= ImageLen(s) <= 256 * 1024 && PhaseOf(l, m) in {Marked, Swapped}
    ensures r.outcome == Updated <==>
              && 1 <= ImageLen(s) <= 256 * 1024
              && PhaseOf(l, m) !in {Marked, Swapped}
              && Trailer(s) == Rfc1952Crc(Image(s))
  {
    hide Transaction, Le32Nat, Le32, Eager, Installed, Crc, Rfc1952Crc, Image, Trailer;
    PromptVerdict(l, script, s, m, r, mv, rest, m');
    if HasAll(s) {
      ChecksumIsRfc1952(Image(s));
    }
  }

  /**
   A correct exchange is installed: on a healthy chip with no swap pending, an
   image of 1 to 262144 bytes followed by its CRC, sent in time, ends up in the
   partition byte by byte and marked.
   */
  lemma CorrectExchangeInstalls(l: Loader, script: seq<Poll>, s: seq<byte>, m: Memory, r: Report, mv: Memory,
                                rest: seq<byte>, m': Memory)
    requires Sound(l) && Transaction(l, true, s, m, r, mv, rest, m') && Timely(script, s, r.outcome)
    requires Prompt(script, s) && 1 <= ImageLen(s) <= 256 * 1024
    requires PhaseOf(l, m) !in {Marked, Swapped} && Trailer(s) == Rfc1952Crc(Image(s))
    ensures r.outcome == Updated
    ensures |m'| == FLASH_SIZE && PhaseOf(l, m') == Marked
    ensures DfuOf(m')[..ImageLen(s)] == Image(s)
    ensures rest == s[8 + ImageLen(s)..]
  {
    hide Le32Nat, Le32, Eager, Crc, Rfc1952Crc, Staged, SameOutside, Sound;
    PromptVerdictMeans(l, script, s, m, r, mv, rest, m');
    StagedKeeps(m, Image(s));
    CommitOnlyAfterVerification(l, true, s, m, r, mv, rest, m');
    assert DfuOf(mv)[..ImageLen(s)] == ReadBack(mv, ImageLen(s));
  }

  /**
   Commit only after verification, on any chip: the state sector can change
   only if the received stream, the flash read-back and the sender agree, and
   ACTIVE and the settings never change. A refused or rejected transaction
   changes nothing at all.
   */
  lemma CommitOnlyAfterVerification(l: Loader, healthy: bool, s: seq<byte>, m: Memory, r: Report,
                                    mv: Memory, rest: seq<byte>, m': Memory)
    requires Sound(l) && Transaction(l, healthy, s, m, r, mv, rest, m')
    ensures |m'| == FLASH_SIZE
    ensures ActiveOf(m') == ActiveOf(m) && SettingsOf(m') == SettingsOf(m)
    ensures StateOf(m') != StateOf(m) ==> r.outcome in {MarkFailed, Updated} && Verified(s, r, rest, mv)
    ensures !r.accepted ==> m' == m
    ensures r.outcome == Updated ==> PhaseOf(l, m') == Marked && DfuOf(m') == DfuOf(mv)
  {
    hide Crc, Staged, Le32Nat, Le32;
    OtherRegion(m, mv, DFU, DFU + DFU_SIZE, STATE, SECTOR_SIZE);
    OtherRegion(m, mv, DFU, DFU + DFU_SIZE, ACTIVE, ACTIVE_SIZE);
    OtherRegion(m, mv, DFU, DFU + DFU_SIZE, SETTINGS, SECTOR_SIZE);
    assert MarksUpdated(l, mv);
    if m' == l.markUpdated(mv) {
      MarkKeepsPartitions(mv, m');
    }
  }

  lemma CrcEqualIff(x: seq<byte>, y: seq<byte>)
    ensures Crc(x) == Crc(y) <==> Fold(INIT, x) == Fold(INIT, y)
  {
    ComplementInjective(Fold(INIT, x), Fold(INIT, y));
  }

  lemma ComplementInjective(a: bv32, b: bv32)
    ensures Complement(a) == Complement(b) <==> a == b
  {
  }

  /**
   A flash fault that damages the staged image within 32 consecutive bits is
   always caught: the update is not marked.
   */
  lemma FlashBurstNeverCommits(l: Loader, healthy: bool, s: seq<byte>, m: Memory, r: Report,
                               mv: Memory, rest: seq<byte>, m': Memory)
    requires Transaction(l, healthy, s, m, r, mv, rest, m')
    requires HasAll(s) && ImageLen(s) <= MAX_IMAGE_SIZE
    requires BurstApart(Image(s), ReadBack(mv, ImageLen(s))) && ReadBack(mv, ImageLen(s)) != Image(s)
    ensures r.outcome !in {MarkFailed, Updated}
  {
    hide Crc, Staged, SameOutside, Le32Nat, Le32, BurstApart, Fold;
    CrcEqualIff(Image(s), ReadBack(mv, ImageLen(s)));
    BurstDetected(INIT, Image(s), ReadBack(mv, ImageLen(s)));
  }

  /**
   So is a line error within 32 consecutive bits of the image, when the trailer
   is the CRC of the image that was sent.
   */
  lemma LineBurstNeverCommits(l: Loader, healthy: bool, sent: seq<byte>, s: seq<byte>, m: Memory, r: Report,
                              mv: Memory, rest: seq<byte>, m': Memory)
    requires Transaction(l, healthy, s, m, r, mv, rest, m')
    requires HasAll(s) && Trailer(s) == Crc(sent)
    requires BurstApart(sent, Image(s)) && Image(s) != sent
    ensures r.outcome !in {MarkFailed, Updated}
  {
    hide Crc, Staged, SameOutside, Le32Nat, Le32, BurstApart, Fold;
    CrcEqualIff(sent, Image(s));
    BurstDetected(INIT, sent, Image(s));
  }
}
