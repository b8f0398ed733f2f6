/** One firmware-update transaction, device side (src/fw_update.rs). */
module FwUpdate {
  import opened Nor
  import opened Layout
  import opened Crc32
  import opened DirectFlash
  import opened UartHandler
  import opened BootContract
  import opened Staging
  import opened Pacing

  // ------------------------------------------------------------- the wire

  /** `u32::from_le_bytes` */
  function Le32(b: seq<byte>): bv32
    requires |b| == 4
  {
    (b[0] as bv32) | ((b[1] as bv32) << 8) | ((b[2] as bv32) << 16) | ((b[3] as bv32) << 24)
  }

  /** The first byte counts least. */
  lemma LittleEndian(b: seq<byte>)
    requires |b| == 4
    ensures Le32(b) == (b[0] as bv32) + 0x100 * (b[1] as bv32) + 0x1_0000 * (b[2] as bv32) + 0x100_0000 * (b[3] as bv32)
  {
  }

  /** The number a little-endian word stands for. */
  function Le32Nat(b: seq<byte>): nat
    requires |b| == 4
  {
    Le32(b) as nat
  }

  const OK_LINE: seq<byte> := [79, 75, 10]
  const RECV_LINE: seq<byte> := [82, 69, 67, 86, 10]
  const ACK_LINE: seq<byte> := [65, 67, 75, 10]
  const CRCOK_FLASH_LINES: seq<byte> := [67, 82, 67, 79, 75, 10, 70, 76, 65, 83, 72, 10]
  const ERR_TIMEOUT: seq<byte> := [69, 82, 82, 58, 116, 105, 109, 101, 111, 117, 116, 10]
  const ERR_SIZE: seq<byte> := [69, 82, 82, 58, 115, 105, 122, 101, 10]
  const ERR_FLASH: seq<byte> := [69, 82, 82, 58, 102, 108, 97, 115, 104, 10]
  const ERR_CRC: seq<byte> := [69, 82, 82, 58, 99, 114, 99, 10]
  const ERR_VERIFY: seq<byte> := [69, 82, 82, 58, 118, 101, 114, 105, 102, 121, 10]

  datatype Outcome =
    | Timeout       // the sender went quiet
    | BadSize
    | Refused       // a swap is pending or unreadable
    | FlashFault    // an erase or write reported an error
    | BadCrc
    | BadVerify
    | MarkFailed
    | Updated       // marked; the device resets

  function Final(o: Outcome): seq<byte> {
    match o
    case Timeout => ERR_TIMEOUT
    case BadSize => ERR_SIZE
    case Refused => ERR_FLASH
    case FlashFault => ERR_FLASH
    case BadCrc => ERR_CRC
    case BadVerify => ERR_VERIFY
    case MarkFailed => ERR_FLASH
    case Updated => CRCOK_FLASH_LINES
  }

  function Acks(n: nat): seq<byte> {
    if n == 0 then [] else Acks(n - 1) + ACK_LINE
  }

  /** How many chunks carry the first `offset` bytes. */
  function ChunkCount(offset: nat): nat {
    RoundUp(offset) / CHUNK_SIZE
  }

  // --------------------------------------------------------- environment

  ghost predicate Ready(uart: UartHandler, flash: DirectFlash)
    reads uart
  {
    uart.Valid() && flash.Valid() && flash.size == FLASH_SIZE && uart.line != flash.cells
  }

  /** `with_timeout(RX_TIMEOUT, read_exact(..))` */
  method AwaitExact(uart: UartHandler, flash: DirectFlash, buf: array<byte>, n: nat) returns (done: bool)
    requires Ready(uart, flash) && n <= buf.Length && buf != uart.line && buf != flash.cells
    modifies uart`linePos, uart.rx, buf, flash`trace
    ensures Ready(uart, flash)
    ensures done ==> |old(uart.rx.stream)| >= n && uart.rx.stream == old(uart.rx.stream)[n..]
    ensures done ==> buf[..n] == old(uart.rx.stream)[..n]
    ensures old(uart.rx.drops) <= uart.rx.drops && (done <==> uart.rx.drops == old(uart.rx.drops))
    ensures Consumed(old(uart.rx.stream), uart.rx.stream)
    ensures uart.linePos == 0
    ensures var p := Polled(old(uart.rx.script), |old(uart.rx.stream)|, n, n);
            && uart.rx.stream == old(uart.rx.stream)[p.taken..] && uart.rx.script == old(uart.rx.script)[p.used..]
            && (done <==> p.done)
    ensures Enough(old(uart.rx.script), old(uart.rx.stream), n) ==>
      done && Spent(old(uart.rx.script), uart.rx.script, n)
    ensures flash.trace == old(flash.trace) + [Await]
  {
    hide Polled, Eager;
    flash.trace := flash.trace + [Await];
    done := uart.ReadExact(buf, n);
  }

  /** An erase of the DFU partition: bounds-checked, offset, and possibly failing on a faulty chip. */
  method DfuErase(flash: DirectFlash, from: nat, to: nat) returns (ok: bool)
    requires flash.Valid() && flash.size == FLASH_SIZE
    requires from <= to && from % SECTOR_SIZE == 0 && to % SECTOR_SIZE == 0
    modifies flash`trace, flash.cells
    ensures flash.healthy ==> (ok <==> to <= DFU_SIZE)
    ensures SameOutside(old(flash.Mem()), flash.Mem(), DFU + from, DFU + to)
    ensures ok ==> to <= DFU_SIZE
    ensures ok && flash.healthy ==> flash.Mem() == Erased(old(flash.Mem()), DFU + from, DFU + to)
    ensures Paced(old(flash.trace), flash.trace, 0, 0)
  {
    hide Erased, SameOutside, Paced;
    NothingChanged(flash.Mem(), DFU + from, DFU + to);
    var glitch: bool := *;
    if to > DFU_SIZE || (glitch && !flash.healthy) {
      PacedNothing(flash.trace);
      return false;
    }
    EraseIsQuiet(DFU + from, (to - from) / SECTOR_SIZE);
    PacedQuiet(flash.trace, EraseTrace(DFU + from, (to - from) / SECTOR_SIZE), 0);
    var r := flash.Erase(DFU + from, DFU + to);
    return r.Ok?;
  }

  /** A write to the DFU partition. */
  method DfuWrite(flash: DirectFlash, offset: nat, bytes: seq<byte>) returns (ok: bool)
    requires flash.Valid() && flash.size == FLASH_SIZE
    requires bytes != [] && offset % SECTOR_SIZE == 0
    modifies flash`trace, flash.cells
    ensures flash.healthy ==> (ok <==> offset + |bytes| <= DFU_SIZE)
    ensures SameOutside(old(flash.Mem()), flash.Mem(), DFU + offset, DFU + offset + RoundUp(|bytes|))
    ensures ok ==> offset + |bytes| <= DFU_SIZE
    ensures ok && flash.healthy ==> flash.Mem() == Programmed(old(flash.Mem()), DFU + offset, bytes)
    ensures Paced(old(flash.trace), flash.trace, 0, 0)
  {
    hide Programmed, SameOutside, WriteWindows, WindowEvents, Paced;
    ghost var m := flash.Mem();
    NothingChanged(m, DFU + offset, DFU + offset + RoundUp(|bytes|));
    var glitch: bool := *;
    if offset + |bytes| > DFU_SIZE || (glitch && !flash.healthy) {
      PacedNothing(flash.trace);
      return false;
    }
    WriteIsQuiet(WriteWindows(DFU + offset, |bytes|));
    PacedQuiet(flash.trace, WindowEvents(WriteWindows(DFU + offset, |bytes|)), 0);
    PagesOfSector(DFU + offset, |bytes|);
    var r := flash.Write(DFU + offset, bytes);
    ChangesCompose(m, m, flash.Mem(), DFU + offset, DFU + offset + RoundUp(|bytes|),
                   PageFloor(DFU + offset), PageCeil(DFU + offset + |bytes|));
    return r.Ok?;
  }

  lemma PagesOfSector(at: nat, len: nat)
    requires at % SECTOR_SIZE == 0
    ensures PageFloor(at) == at && PageCeil(at + len) <= at + RoundUp(len)
  {
    hide PageFloor, RoundUp;
    PageFloorShifts(at, 0);
    PageFloorShifts(at, len + PAGE_SIZE - 1);
    PagesRoundUp(len);
    assert at + len + PAGE_SIZE - 1 == at + (len + PAGE_SIZE - 1);
  }

  lemma PageFloorShifts(at: nat, x: nat)
    requires at % SECTOR_SIZE == 0
    ensures PageFloor(at + x) == at + PageFloor(x)
  {
    var q, a, b := at / SECTOR_SIZE, x / PAGE_SIZE, x % PAGE_SIZE;
    assert at == PAGE_SIZE * (16 * q) && x == PAGE_SIZE * a + b;
    PageRemainder(16 * q + a, b);
    assert at + x == PAGE_SIZE * (16 * q + a) + b;
  }

  lemma PageRemainder(k: nat, b: nat)
    requires b < PAGE_SIZE
    ensures (PAGE_SIZE * k + b) % PAGE_SIZE == b
  {
  }

  lemma PagesRoundUp(len: nat)
    ensures PageFloor(len + PAGE_SIZE - 1) <= RoundUp(len)
  {
    var q := RoundUp(len) / SECTOR_SIZE;
    assert RoundUp(len) == PAGE_SIZE * (16 * q) && len <= RoundUp(len);
    hide RoundUp;
    PageRemainder(16 * q, PAGE_SIZE - 1);
    PageFloorMonotone(len + PAGE_SIZE - 1, PAGE_SIZE * (16 * q) + PAGE_SIZE - 1);
  }

  // ------------------------------------------------------------- staging

  lemma SectorBelow(at: nat, goal: nat)
    requires at % SECTOR_SIZE == 0 && at < goal
    ensures at + SECTOR_SIZE <= RoundUp(goal) && (at + SECTOR_SIZE) % SECTOR_SIZE == 0
  {
  }

  lemma SectorsMeet(at: nat, goal: nat)
    requires at % SECTOR_SIZE == 0 && goal <= at <= RoundUp(goal)
    ensures at == RoundUp(goal)
  {
  }

  /** Erase sector by sector until `goal` bytes are erased. */
  method EraseAhead(flash: DirectFlash, erased0: nat, goal: nat) returns (ok: bool, erasedTo: nat)
    requires flash.Valid() && flash.size == FLASH_SIZE
    requires erased0 % SECTOR_SIZE == 0 && erased0 <= goal <= MAX_IMAGE_SIZE
    modifies flash`trace, flash.cells
    ensures ok ==> erasedTo == RoundUp(goal)
    ensures flash.healthy ==> ok
    ensures SameOutside(old(flash.Mem()), flash.Mem(), DFU, DFU + DFU_SIZE)
    ensures RoundUp(goal) <= MAX_IMAGE_SIZE
    ensures ok && flash.healthy ==> flash.Mem() == Erased(old(flash.Mem()), DFU + erased0, DFU + erasedTo)
    ensures Paced(old(flash.trace), flash.trace, 0, 0)
  {
    hide Erased, SameOutside, Paced, RoundUp;
    ghost var m, t := flash.Mem(), flash.trace;
    erasedTo := erased0;
    StagedFits(goal);
    EraseNothing(m, DFU + erased0);
    NothingChanged(m, DFU, DFU + DFU_SIZE);
    PacedNothing(t);
    while erasedTo < goal
      invariant erased0 <= erasedTo <= RoundUp(goal) && erasedTo % SECTOR_SIZE == 0
      invariant SameOutside(m, flash.Mem(), DFU, DFU + DFU_SIZE)
      invariant flash.healthy ==> flash.Mem() == Erased(m, DFU + erased0, DFU + erasedTo)
      invariant Paced(t, flash.trace, 0, 0)
    {
      ghost var before, trace := flash.Mem(), flash.trace;
      SectorBelow(erasedTo, goal);
      ok := DfuErase(flash, erasedTo, erasedTo + SECTOR_SIZE);
      PacedComposes(t, trace, flash.trace, 0, 0, 0);
      ChangesCompose(m, before, flash.Mem(), DFU, DFU + DFU_SIZE, DFU + erasedTo, DFU + erasedTo + SECTOR_SIZE);
      if !ok {
        return;
      }
      if flash.healthy {
        ErasesCompose(m, DFU + erased0, DFU + erasedTo, DFU + erasedTo + SECTOR_SIZE);
      }
      erasedTo := erasedTo + SECTOR_SIZE;
    }
    SectorsMeet(erasedTo, goal);
    ok := true;
  }

  /** Feed, erase ahead, write: one received chunk goes to flash. */
  method StoreChunk(flash: DirectFlash, erased0: nat, offset: nat, bytes: seq<byte>,
                    ghost staged: seq<byte>, ghost m: Memory)
    returns (ok: bool, erasedTo: nat)
    requires flash.Valid() && flash.size == FLASH_SIZE
    requires offset == |staged| && offset % SECTOR_SIZE == 0 && erased0 == offset
    requires 0 < |bytes| <= CHUNK_SIZE && offset + |bytes| <= MAX_IMAGE_SIZE
    requires flash.healthy ==> flash.Mem() == Staged(m, staged)
    modifies flash`trace, flash.cells
    ensures ok ==> erasedTo == RoundUp(offset + |bytes|)
    ensures flash.healthy ==> ok && flash.Mem() == Staged(m, staged + bytes)
    ensures SameOutside(old(flash.Mem()), flash.Mem(), DFU, DFU + DFU_SIZE)
    ensures old(flash.trace) + [Feed] <= flash.trace
    ensures forall s :: 0 <= s <= MAX_WAITS ==> Paced(old(flash.trace), flash.trace, s, 0)
  {
    hide Erased, Programmed, SameOutside, Paced, Staged;
    ghost var before, t := flash.Mem(), flash.trace;
    flash.FeedWatchdog();
    ghost var t1 := flash.trace;
    ok, erasedTo := EraseAhead(flash, erased0, offset + |bytes|);
    ghost var erased, t2 := flash.Mem(), flash.trace;
    AlignedRoundUp(offset, |bytes|);
    StageChunk(m, staged, bytes);
    PacedNothing(t2);
    NothingChanged(erased, DFU + offset, DFU + offset + RoundUp(|bytes|));
    if ok {
      ok := DfuWrite(flash, offset, bytes);
    }
    AlignedRoundUp(0, |bytes|);
    ChangesCompose(before, erased, flash.Mem(), DFU, DFU + DFU_SIZE, DFU + offset, DFU + offset + RoundUp(|bytes|));
    PacedComposes(t1, t2, flash.trace, 0, 0, 0);
    PacedGrows(t1, flash.trace, 0, 0);
    forall s | 0 <= s <= MAX_WAITS ensures Paced(t, flash.trace, s, 0) {
      PacedFeed(t, s);
      PacedComposes(t, t1, flash.trace, s, 0, 0);
    }
  }

  datatype StageResult = Complete | Stalled | Faulted

  function StageFinal(r: StageResult): seq<byte> {
    if r == Stalled then ERR_TIMEOUT else ERR_FLASH
  }

  /** How staging shows on the hardware: a read, and unless that already stalls, a feed. */
  ghost predicate StagingOpens(stalledAtOnce: bool, before: seq<Event>, after: seq<Event>) {
    if stalledAtOnce then after == before + [Await] else before + [Await, Feed] <= after
  }

  /** The size of the next chunk. */
  function ChunkLen(len: nat, offset: nat): (n: nat)
    requires offset < len
    ensures 0 < n <= CHUNK_SIZE && offset + n <= len
  {
    if CHUNK_SIZE < len - offset then CHUNK_SIZE else len - offset
  }

  /** One turn of the staging loop: read a chunk, fold it into the CRC, store it and acknowledge it. */
  method StageNext(uart: UartHandler, flash: DirectFlash, chunk: array<byte>, len: nat, offset: nat, erased0: nat,
                   crc0: bv32, ghost m: Memory, ghost s: seq<byte>, ghost waits: nat)
    returns (r: StageResult, crc: bv32, erasedTo: nat)
    requires Ready(uart, flash) && chunk.Length == CHUNK_SIZE && chunk != uart.line && chunk != flash.cells
    requires offset < len && waits < MAX_WAITS
    requires StagingInvariant(flash.healthy, m, s, len, offset, erased0, crc0, uart.rx.stream, flash.Mem())
    modifies uart`linePos, uart`tx, uart.rx, chunk, flash`trace, flash.cells
    ensures Ready(uart, flash) && uart.linePos == 0
    ensures StagingStops(flash.healthy, m, s, offset, r, uart.rx.stream, flash.Mem())
    ensures r.Complete? ==>
      StagingInvariant(flash.healthy, m, s, len, offset + ChunkLen(len, offset), erasedTo, crc,
                       uart.rx.stream, flash.Mem())
    ensures uart.tx == old(uart.tx) + if r.Complete? then ACK_LINE else StageFinal(r)
    ensures old(uart.rx.drops) <= uart.rx.drops && (r.Stalled? <==> uart.rx.drops > old(uart.rx.drops))
    ensures Enough(old(uart.rx.script), old(uart.rx.stream), ChunkLen(len, offset)) ==>
      !r.Stalled? && Spent(old(uart.rx.script), uart.rx.script, ChunkLen(len, offset))
    ensures Paced(old(flash.trace), flash.trace, waits, if r.Stalled? then waits + 1 else 0)
    ensures StagingOpens(r.Stalled?, old(flash.trace), flash.trace)
  {
    hide Paced, Fold, StagingInvariant, Consumed, Staged, SameOutside, Polled, Eager;
    StagingFacts(flash.healthy, m, s, len, offset, erased0, crc0, uart.rx.stream, flash.Mem());
    crc, erasedTo := crc0, erased0;
    var n := ChunkLen(len, offset);
    ghost var t, mem, rest := flash.trace, flash.Mem(), uart.rx.stream;
    var done := AwaitExact(uart, flash, chunk, n);
    ConsumedComposes(s, rest, uart.rx.stream);
    PacedAwait(t, waits);
    if !done {
      uart.WriteBytes(ERR_TIMEOUT);
      return Stalled, crc, erasedTo;
    }
    var bytes := chunk[..n];
    crc := Update(crc, bytes);
    ghost var t1 := flash.trace;
    var ok;
    ok, erasedTo := StoreChunk(flash, erasedTo, offset, bytes, s[..offset], m);
    PacedComposes(t, t1, flash.trace, waits, waits + 1, 0);
    ChangesCompose(m, mem, flash.Mem(), DFU, DFU + DFU_SIZE, DFU, DFU + DFU_SIZE);
    if !ok {
      uart.WriteBytes(ERR_FLASH);
      return Faulted, crc, erasedTo;
    }
    StagingStep(flash.healthy, m, s, len, offset, crc0, rest, mem, bytes, erasedTo, flash.Mem());
    uart.WriteBytes(ACK_LINE);
    r := Complete;
  }

  /** What a turn leaves when it is the last, having acknowledged `offset` bytes before. */
  ghost predicate StagingStops(healthy: bool, m: Memory, s: seq<byte>, offset: nat, r: StageResult,
                               rest: seq<byte>, mem: Memory) {
    && Consumed(s, rest)
    && SameOutside(m, mem, DFU, DFU + DFU_SIZE)
    && (healthy ==> !r.Faulted?)
    && (healthy && r.Stalled? ==> offset <= |s| && offset <= MAX_IMAGE_SIZE && mem == Staged(m, s[..offset]))
  }

  /**
   The staging loop. Whichever way it ends, `offset` bytes were acknowledged,
   one ACK per chunk; on a healthy chip exactly those bytes are staged, the rest
   of the last sector is blank, and nothing else was touched.
   */
  method StageImage(uart: UartHandler, flash: DirectFlash, len: nat)
    returns (r: StageResult, crc: bv32, offset: nat)
    requires Ready(uart, flash) && 0 < len <= MAX_IMAGE_SIZE
    modifies uart, uart.rx, flash`trace, flash.cells
    ensures Ready(uart, flash)
    ensures offset <= len && offset <= |old(uart.rx.stream)|
    ensures SameOutside(old(flash.Mem()), flash.Mem(), DFU, DFU + DFU_SIZE)
    ensures flash.healthy ==> !r.Faulted? && flash.Mem() == Staged(old(flash.Mem()), old(uart.rx.stream)[..offset])
    ensures r.Complete? ==> uart.tx == old(uart.tx) + Acks(ChunkCount(offset))
    ensures !r.Complete? ==> uart.tx == old(uart.tx) + Acks(ChunkCount(offset)) + StageFinal(r)
    ensures r.Complete? ==> offset == len && crc == Fold(INIT, old(uart.rx.stream)[..len])
    ensures r.Complete? ==> uart.rx.stream == old(uart.rx.stream)[len..]
    ensures Consumed(old(uart.rx.stream), uart.rx.stream)
    ensures old(uart.rx.drops) <= uart.rx.drops && (r.Stalled? <==> uart.rx.drops > old(uart.rx.drops))
    ensures uart.linePos == 0
    ensures Enough(old(uart.rx.script), old(uart.rx.stream), len) ==>
      !r.Stalled? && Spent(old(uart.rx.script), uart.rx.script, len)
    ensures Paced(old(flash.trace), flash.trace, 1, if r.Stalled? then MAX_WAITS else 0)
    ensures StagingOpens(r.Stalled? && offset == 0, old(flash.trace), flash.trace)
  {
    hide Paced, Fold, Acks, ChunkCount, StagingInvariant, Consumed, Staged, SameOutside, Eager, Polled;
    ghost var script := uart.rx.script;
    ghost var m, t, s, tx, healthy := flash.Mem(), flash.trace, uart.rx.stream, uart.tx, flash.healthy;
    var chunk := new byte[CHUNK_SIZE](_ => BLANK);
    crc := INIT;
    offset := 0;
    var erasedTo := 0;
    StagingStart(healthy, m, s, len);
    NoAcks();
    PacedStart(t);
    while offset < len
      invariant Ready(uart, flash) && uart.rx.drops == old(uart.rx.drops)
      invariant offset <= len
      invariant StagingInvariant(healthy, m, s, len, offset, erasedTo, crc, uart.rx.stream, flash.Mem())
      invariant uart.tx == tx + Acks(ChunkCount(offset))
      invariant Enough(script, s, len) ==> Spent(script, uart.rx.script, offset)
      invariant Paced(t, flash.trace, 1, if offset == 0 then 1 else 0)
      invariant if offset == 0 then flash.trace == t else uart.linePos == 0 && t + [Await, Feed] <= flash.trace
      decreases len - offset
    {
      StagingFacts(healthy, m, s, len, offset, erasedTo, crc, uart.rx.stream, flash.Mem());
      var n := ChunkLen(len, offset);
      ghost var trace := flash.trace;
      ghost var waits := if offset == 0 then 1 else 0;
      r, crc, erasedTo := StageNext(uart, flash, chunk, len, offset, erasedTo, crc, m, s, waits);
      StopFacts(healthy, m, s, offset, r, uart.rx.stream, flash.Mem());
      PacedComposes(t, trace, flash.trace, 1, waits, if r.Stalled? then waits + 1 else 0);
      if r != Complete {
        PacedRelax(t, flash.trace, 1, if r.Stalled? then waits + 1 else 0, if r.Stalled? then MAX_WAITS else 0);
        return;
      }
      OneMoreAck(tx, offset, n);
      offset := offset + n;
    }
    StagingFacts(healthy, m, s, len, offset, erasedTo, crc, uart.rx.stream, flash.Mem());
    r := Complete;
  }

  lemma StopFacts(healthy: bool, m: Memory, s: seq<byte>, offset: nat, r: StageResult, rest: seq<byte>, mem: Memory)
    requires StagingStops(healthy, m, s, offset, r, rest, mem)
    ensures Consumed(s, rest) && SameOutside(m, mem, DFU, DFU + DFU_SIZE) && (healthy ==> !r.Faulted?)
    ensures healthy && r.Stalled? ==> offset <= |s| && offset <= MAX_IMAGE_SIZE && mem == Staged(m, s[..offset])
  {
  }

  /**
   What holds at the top of the staging loop, that is after each ACK: exactly
   the acknowledged prefix of the stream was read and folded into the CRC, the
   erase cursor is the next sector boundary, and a healthy chip holds `Staged`.
   */
  ghost predicate StagingInvariant(healthy: bool, m: Memory, s: seq<byte>, len: nat, offset: nat, erasedTo: nat,
                                   crc: bv32, rest: seq<byte>, mem: Memory) {
    && offset <= len <= MAX_IMAGE_SIZE && offset <= |s|
    && rest == s[offset..]
    && (offset < len ==> offset % SECTOR_SIZE == 0)
    && erasedTo == RoundUp(offset)
    && crc == Fold(INIT, s[..offset])
    && SameOutside(m, mem, DFU, DFU + DFU_SIZE)
    && (healthy ==> mem == Staged(m, s[..offset]))
  }

  lemma StagingStart(healthy: bool, m: Memory, s: seq<byte>, len: nat)
    requires len <= MAX_IMAGE_SIZE
    ensures StagingInvariant(healthy, m, s, len, 0, 0, INIT, s, m)
  {
    assert s[..0] == [] && s[0..] == s && RoundUp(0) == 0;
    StagedNothing(m);
  }

  lemma StagingFacts(healthy: bool, m: Memory, s: seq<byte>, len: nat, offset: nat, erasedTo: nat,
                     crc: bv32, rest: seq<byte>, mem: Memory)
    requires StagingInvariant(healthy, m, s, len, offset, erasedTo, crc, rest, mem)
    ensures offset <= len <= MAX_IMAGE_SIZE && offset <= |s| && rest == s[offset..]
    ensures offset < len ==> offset % SECTOR_SIZE == 0 && erasedTo == offset
    ensures Consumed(s, rest)
    ensures crc == Fold(INIT, s[..offset])
    ensures SameOutside(m, mem, DFU, DFU + DFU_SIZE)
    ensures healthy ==> mem == Staged(m, s[..offset])
  {
    hide Staged, SameOutside, Fold;
  }

  lemma StagingStep(healthy: bool, m: Memory, s: seq<byte>, len: nat, offset: nat, crc: bv32, rest: seq<byte>,
                    mem: Memory, bytes: seq<byte>, erasedTo: nat, mem': Memory)
    requires StagingInvariant(healthy, m, s, len, offset, offset, crc, rest, mem) && offset % SECTOR_SIZE == 0
    requires offset < len && |bytes| == (if CHUNK_SIZE < len - offset then CHUNK_SIZE else len - offset)
    requires bytes <= rest && erasedTo == RoundUp(offset + |bytes|)
    requires SameOutside(m, mem', DFU, DFU + DFU_SIZE)
    requires healthy ==> mem' == Staged(m, s[..offset] + bytes)
    ensures StagingInvariant(healthy, m, s, len, offset + |bytes|, erasedTo, Fold(crc, bytes), rest[|bytes|..], mem')
  {
    hide Staged, SameOutside, Fold, RoundUp;
    assert s[..offset + |bytes|] == s[..offset] + bytes;
    FoldConcat(INIT, s[..offset], bytes);
  }

  /**
   The invariant spelled out: the received bytes are in the partition, blank up
   to the erase cursor, and every other region of the chip is as it was.
   */
  lemma StagingInvariantMeans(m: Memory, s: seq<byte>, len: nat, offset: nat, erasedTo: nat,
                              crc: bv32, rest: seq<byte>, mem: Memory)
    requires StagingInvariant(true, m, s, len, offset, erasedTo, crc, rest, mem)
    ensures mem[DFU..DFU + offset] == s[..offset]
    ensures DFU + erasedTo <= FLASH_SIZE && Blank(mem, DFU + offset, DFU + erasedTo)
    ensures mem[DFU + erasedTo..] == m[DFU + erasedTo..]
    ensures StateOf(mem) == StateOf(m) && ActiveOf(mem) == ActiveOf(m) && SettingsOf(mem) == SettingsOf(m)
    ensures s[..offset] + rest == s
  {
    hide Staged, SameOutside, Fold, RoundUp, StateOf, ActiveOf, SettingsOf;
    StagedMeans(m, s[..offset]);
    RegionsKept(m, mem);
  }

  /** Staged data is in the partition, blank up to the next sector boundary, and the rest is as it was. */
  lemma StagedMeans(m: Memory, data: seq<byte>)
    requires |data| <= MAX_IMAGE_SIZE
    ensures var mem, end := Staged(m, data), DFU + RoundUp(|data|);
            && end <= FLASH_SIZE && mem[DFU..DFU + |data|] == data
            && Blank(mem, DFU + |data|, end) && mem[end..] == m[end..]
  {
    hide RoundUp;
    StagedFits(|data|);
  }

  /** A change inside the DFU partition leaves the other regions alone. */
  lemma RegionsKept(m: Memory, mem: Memory)
    requires SameOutside(m, mem, DFU, DFU + DFU_SIZE)
    ensures StateOf(mem) == StateOf(m) && ActiveOf(mem) == ActiveOf(m) && SettingsOf(mem) == SettingsOf(m)
  {
    hide SameOutside;
    OtherRegion(m, mem, DFU, DFU + DFU_SIZE, STATE, SECTOR_SIZE);
    OtherRegion(m, mem, DFU, DFU + DFU_SIZE, ACTIVE, ACTIVE_SIZE);
    OtherRegion(m, mem, DFU, DFU + DFU_SIZE, SETTINGS, SECTOR_SIZE);
  }

  lemma PacedStart(t: seq<Event>)
    ensures Paced(t, t, 1, 1)
  {
  }

  lemma NoAcks()
    ensures forall tx: seq<byte> :: tx + Acks(ChunkCount(0)) == tx
  {
    assert RoundUp(0) == 0;
  }

  lemma OneMoreAck(tx: seq<byte>, offset: nat, n: nat)
    requires offset % CHUNK_SIZE == 0 && 0 < n <= CHUNK_SIZE
    ensures tx + Acks(ChunkCount(offset + n)) == tx + Acks(ChunkCount(offset)) + ACK_LINE
    ensures RoundUp(offset + n) == offset + CHUNK_SIZE
    ensures n == CHUNK_SIZE ==> (offset + n) % CHUNK_SIZE == 0 && RoundUp(offset + n) == offset + n
  {
    AlignedRoundUp(offset, n);
  }

  // ------------------------------------------------- embassy-boot operations

  /** `get_state`: none when the state sector cannot be read. */
  method GetState(flash: DirectFlash, l: Loader) returns (state: seq<State>)
    requires flash.Valid() && flash.size == FLASH_SIZE
    ensures state == [] || state == [Seen(PhaseOf(l, flash.Mem()))]
    ensures flash.healthy ==> state != []
  {
    var m := flash.cells[..];
    var glitch: bool := *;
    state := if glitch && !flash.healthy then [] else [Seen(l.phase(m[STATE..STATE + SECTOR_SIZE]))];
  }

  /** Overwrite the chip with a memory image computed by embassy-boot. */
  method WriteImage(flash: DirectFlash, m: Memory)
    requires flash.Valid() && flash.size == FLASH_SIZE
    modifies flash.cells
    ensures flash.Mem() == m
  {
    for i := 0 to FLASH_SIZE
      invariant flash.cells[..i] == m[..i]
    {
      flash.cells[i] := m[i];
      assert flash.cells[..i + 1] == flash.cells[..i] + [m[i]];
    }
    assert flash.cells[..] == flash.cells[..FLASH_SIZE];
  }

  /** `mark_updated`: on a faulty chip it may report an error, having taken effect or not. */
  method MarkUpdated(flash: DirectFlash, l: Loader) returns (ok: bool)
    requires flash.Valid() && flash.size == FLASH_SIZE && Sound(l)
    modifies flash`trace, flash.cells
    ensures ok ==> flash.Mem() == l.markUpdated(old(flash.Mem()))
    ensures !ok ==> flash.Mem() == old(flash.Mem()) || flash.Mem() == l.markUpdated(old(flash.Mem()))
    ensures flash.healthy ==> ok
    ensures flash.trace == old(flash.trace) + [Mark]
  {
    var m: Memory := flash.cells[..];
    assert MarksUpdated(l, m);
    flash.trace := flash.trace + [Mark];
    var takes: bool := *;
    var reported: bool := *;
    if flash.healthy || takes {
      WriteImage(flash, l.markUpdated(m));
    }
    ok := flash.healthy || (takes && reported);
  }

  // -------------------------------------------------------------- commit

  /** The image bytes a CRC is computed over when the DFU partition is read back. */
  function ReadBack(m: Memory, len: nat): seq<byte>
    requires len <= MAX_IMAGE_SIZE
  {
    m[DFU..DFU + len]
  }

  /**
   The trailer exchange and the only step that commits. A mark is attempted
   only when the CRC of the received stream, of what the partition really holds
   and of the sender all agree.
   */
  method Commit(uart: UartHandler, flash: DirectFlash, l: Loader, len: nat, received: bv32) returns (o: Outcome)
    requires Ready(uart, flash) && Sound(l) && len <= MAX_IMAGE_SIZE
    modifies uart, uart.rx, flash`trace, flash.cells
    ensures Ready(uart, flash)
    ensures o in {Timeout, BadCrc, BadVerify, MarkFailed, Updated}
    ensures old(uart.rx.drops) <= uart.rx.drops && (o == Timeout <==> uart.rx.drops > old(uart.rx.drops))
    ensures uart.tx == old(uart.tx) + Final(o)
    ensures o != Timeout ==> |old(uart.rx.stream)| >= 4 && uart.rx.stream == old(uart.rx.stream)[4..]
    ensures Consumed(old(uart.rx.stream), uart.rx.stream)
    ensures o != Timeout ==> (o == BadCrc <==> received != Le32(old(uart.rx.stream)[..4]))
    ensures o == BadVerify ==> Crc(ReadBack(old(flash.Mem()), len)) != Le32(old(uart.rx.stream)[..4])
    ensures o in {MarkFailed, Updated} ==> Crc(ReadBack(old(flash.Mem()), len)) == Le32(old(uart.rx.stream)[..4])
    ensures o in {Timeout, BadCrc, BadVerify} ==> flash.Mem() == old(flash.Mem())
    ensures o == Updated ==> flash.Mem() == l.markUpdated(old(flash.Mem()))
    ensures o == MarkFailed ==> flash.Mem() == old(flash.Mem()) || flash.Mem() == l.markUpdated(old(flash.Mem()))
    ensures flash.healthy ==> o != MarkFailed
    ensures uart.linePos == 0
    ensures Enough(old(uart.rx.script), old(uart.rx.stream), 4) ==> o != Timeout
    ensures flash.trace == old(flash.trace) + [Await] + (if o in {Timeout, BadCrc} then [] else InstallEvents(o))
    ensures Paced(old(flash.trace), flash.trace, 0, 1)
  {
    hide Crc, Sound, Paced, Le32, Le32Nat, Consumed, Polled, Enough, Spent;
    ghost var t := flash.trace;
    var word := new byte[4](_ => 0);
    var done := AwaitExact(uart, flash, word, 4);
    PacedAwait(t, 0);
    if !done {
      uart.WriteBytes(ERR_TIMEOUT);
      return Timeout;
    }
    assert word[..] == word[..4];
    var expected := Le32(word[..]);
    if received != expected {
      uart.WriteBytes(ERR_CRC);
      return BadCrc;
    }
    ghost var t1 := flash.trace;
    o := Install(uart, flash, l, len, expected);
    InstallPaced(t1, o);
    PacedComposes(t, t1, flash.trace, 0, 1, 0);
    PacedRelax(t, flash.trace, 0, 0, 1);
  }

  /** A feed before the read-back, and another before the mark. */
  function InstallEvents(o: Outcome): seq<Event> {
    if o == BadVerify then [Feed] else [Feed, Feed, Mark]
  }

  lemma InstallPaced(t: seq<Event>, o: Outcome)
    ensures Paced(t, t + InstallEvents(o), 1, 0)
  {
    PacedFeed(t, 1);
    if o != BadVerify {
      var t1 := t + [Feed];
      PacedFeed(t1, 0);
      PacedQuiet(t1 + [Feed], [Mark], 0);
      hide Paced;
      PacedComposes(t1, t1 + [Feed], t1 + [Feed] + [Mark], 0, 0, 0);
      PacedComposes(t, t1, t1 + [Feed] + [Mark], 1, 0, 0);
      assert t1 + [Feed] + [Mark] == t + InstallEvents(o);
    }
  }

  /** Verify what landed in the partition, then mark it. */
  method Install(uart: UartHandler, flash: DirectFlash, l: Loader, len: nat, expected: bv32) returns (o: Outcome)
    requires Ready(uart, flash) && Sound(l) && len <= MAX_IMAGE_SIZE
    modifies uart`tx, flash`trace, flash.cells
    ensures o in {BadVerify, MarkFailed, Updated}
    ensures uart.tx == old(uart.tx) + Final(o)
    ensures o == BadVerify <==> Crc(ReadBack(old(flash.Mem()), len)) != expected
    ensures o == BadVerify ==> flash.Mem() == old(flash.Mem())
    ensures o == Updated ==> flash.Mem() == l.markUpdated(old(flash.Mem()))
    ensures o == MarkFailed ==> flash.Mem() == old(flash.Mem()) || flash.Mem() == l.markUpdated(old(flash.Mem()))
    ensures flash.healthy ==> o != MarkFailed
    ensures flash.trace == old(flash.trace) + if o == BadVerify then [Feed] else [Feed, Feed, Mark]
  {
    hide Crc, Sound, Rfc1952Crc;
    ghost var t := flash.trace;
    flash.FeedWatchdog();
    var staged := flash.cells[DFU..DFU + len];
    assert staged == ReadBack(flash.Mem(), len);
    var stagedCrc := Checksum(staged);
    if stagedCrc != expected {
      uart.WriteBytes(ERR_VERIFY);
      return BadVerify;
    }
    flash.FeedWatchdog();
    var ok := MarkUpdated(flash, l);
    assert flash.trace == t + [Feed, Feed, Mark];
    if !ok {
      uart.WriteBytes(ERR_FLASH);
      return MarkFailed;
    }
    uart.WriteBytes(CRCOK_FLASH_LINES);
    return Updated;
  }

  // --------------------------------------------------------- transaction

  /** How a transaction ended, whether it got past RECV, and how many image bytes were acknowledged. */
  datatype Report = Report(outcome: Outcome, accepted: bool, offset: nat)

  function ImageLen(s: seq<byte>): nat
    requires |s| >= 4
  {
    Le32Nat(s[..4])
  }

  predicate GoodSize(len: nat) {
    0 < len <= MAX_IMAGE_SIZE
  }

  /** Length, image and trailer are all there. */
  predicate HasAll(s: seq<byte>) {
    |s| >= 4 && |s| >= 8 + ImageLen(s)
  }

  function Image(s: seq<byte>): seq<byte>
    requires HasAll(s)
  {
    s[4..4 + ImageLen(s)]
  }

  function Trailer(s: seq<byte>): bv32
    requires HasAll(s)
  {
    Le32(s[4 + ImageLen(s)..8 + ImageLen(s)])
  }

  /** Everything sent, `tx` being what was sent before the transaction. */
  function Transcript(tx: seq<byte>, r: Report): seq<byte> {
    (if r.accepted then tx + OK_LINE + RECV_LINE + Acks(ChunkCount(r.offset)) else tx + OK_LINE) + Final(r.outcome)
  }

  /**
   The transaction as a relation on values: `s` and `rest` are the receive
   stream before and after, `m` and `m'` the memory, and `mv` the memory as it
   was when verification ended - the last moment before a mark.
   */
  ghost predicate Transaction(l: Loader, healthy: bool, s: seq<byte>, m: Memory, r: Report,
                              mv: Memory, rest: seq<byte>, m': Memory) {
    && SameOutside(m, mv, DFU, DFU + DFU_SIZE)
    && (r.accepted ==>
          && |s| >= 4 && GoodSize(ImageLen(s)) && Seen(PhaseOf(l, m)) != Swap
          && r.offset <= ImageLen(s) && 4 + r.offset <= |s|
          && (healthy ==> mv == Staged(m, s[4..4 + r.offset])))
    && (!r.accepted ==> r.offset == 0 && mv == m)
    && (r.outcome in {MarkFailed, Updated} || m' == mv)
    && match r.outcome
       case Timeout => true
       case BadSize => !r.accepted && |s| >= 4 && rest == s[4..] && !GoodSize(ImageLen(s))
       case Refused => !r.accepted && |s| >= 4 && rest == s[4..] && GoodSize(ImageLen(s))
                       && (healthy ==> Seen(PhaseOf(l, m)) == Swap)
       case FlashFault => r.accepted && !healthy
       case BadCrc => Received(s, r, rest) && Crc(Image(s)) != Trailer(s)
       case BadVerify => Received(s, r, rest) && Crc(Image(s)) == Trailer(s) != Crc(ReadBack(mv, r.offset))
       case MarkFailed => !healthy && Verified(s, r, rest, mv) && (m' == mv || m' == l.markUpdated(mv))
       case Updated => Verified(s, r, rest, mv) && m' == l.markUpdated(mv)
  }

  /** The whole exchange was read, and no byte more. */
  ghost predicate Received(s: seq<byte>, r: Report, rest: seq<byte>) {
    r.accepted && HasAll(s) && r.offset == ImageLen(s) && rest == s[8 + ImageLen(s)..]
  }

  /** The received stream, the sender and the flash read-back all have the same CRC. */
  ghost predicate Verified(s: seq<byte>, r: Report, rest: seq<byte>, mv: Memory) {
    && Received(s, r, rest)
    && r.offset <= MAX_IMAGE_SIZE
    && Crc(Image(s)) == Trailer(s) == Crc(ReadBack(mv, r.offset))
  }

  // One lemma for each way to end.

  lemma EndsInHeader(l: Loader, healthy: bool, s: seq<byte>, m: Memory, o: Outcome, rest: seq<byte>)
    requires o in {Timeout, BadSize, Refused}
    requires o != Timeout ==> |s| >= 4 && rest == s[4..]
    requires o == BadSize ==> !GoodSize(ImageLen(s))
    requires o == Refused ==> GoodSize(ImageLen(s)) && (healthy ==> Seen(PhaseOf(l, m)) == Swap)
    ensures Transaction(l, healthy, s, m, Report(o, false, 0), m, rest, m)
  {
    NothingChanged(m, DFU, DFU + DFU_SIZE);
  }

  /** A transaction that was accepted and staged `offset` bytes. */
  ghost predicate StagedSoFar(l: Loader, healthy: bool, s: seq<byte>, m: Memory, offset: nat, mv: Memory) {
    && SameOutside(m, mv, DFU, DFU + DFU_SIZE)
    && |s| >= 4 && GoodSize(ImageLen(s)) && Seen(PhaseOf(l, m)) != Swap
    && offset <= ImageLen(s) && 4 + offset <= |s|
    && (healthy ==> mv == Staged(m, s[4..4 + offset]))
  }

  lemma SoFar(l: Loader, healthy: bool, s: seq<byte>, m: Memory, offset: nat, mv: Memory)
    requires SameOutside(m, mv, DFU, DFU + DFU_SIZE)
    requires |s| >= 4 && GoodSize(ImageLen(s)) && Seen(PhaseOf(l, m)) != Swap
    requires offset <= ImageLen(s) && 4 + offset <= |s|
    requires healthy ==> mv == Staged(m, s[4..4 + offset])
    ensures StagedSoFar(l, healthy, s, m, offset, mv)
  {
    hide SameOutside, Staged, Le32Nat;
  }

  lemma EndsStaging(l: Loader, healthy: bool, s: seq<byte>, m: Memory, offset: nat, mv: Memory, o: Outcome,
                    rest: seq<byte>)
    requires StagedSoFar(l, healthy, s, m, offset, mv)
    requires o == Timeout || (o == FlashFault && !healthy)
    ensures Transaction(l, healthy, s, m, Report(o, true, offset), mv, rest, mv)
  {
    hide Staged, SameOutside;
  }

  lemma EndsCommit(l: Loader, healthy: bool, s: seq<byte>, m: Memory, mv: Memory, o: Outcome,
                   received: bv32, tail: seq<byte>, rest: seq<byte>, m': Memory)
    requires |s| >= 4 && ImageLen(s) <= MAX_IMAGE_SIZE && 4 + ImageLen(s) <= |s|
    requires StagedSoFar(l, healthy, s, m, ImageLen(s), mv)
    requires received == Crc(s[4..4 + ImageLen(s)]) && tail == s[4..][ImageLen(s)..]
    requires o in {BadCrc, BadVerify, MarkFailed, Updated}
    requires |tail| >= 4 && rest == tail[4..]
    requires o == BadCrc <==> received != Le32(tail[..4])
    requires o == BadVerify ==> Crc(ReadBack(mv, ImageLen(s))) != Le32(tail[..4])
    requires o in {MarkFailed, Updated} ==> Crc(ReadBack(mv, ImageLen(s))) == Le32(tail[..4])
    requires o in {BadCrc, BadVerify} ==> m' == mv
    requires o == Updated ==> m' == l.markUpdated(mv)
    requires o == MarkFailed ==> !healthy && (m' == mv || m' == l.markUpdated(mv))
    ensures Transaction(l, healthy, s, m, Report(o, true, ImageLen(s)), mv, rest, m')
  {
    hide Crc, Le32, Le32Nat, Staged, SameOutside;
    Pieces(s, ImageLen(s));
  }

  datatype Header = Rejected(outcome: Outcome) | Accepted(len: nat)

  ghost predicate HeaderRead(l: Loader, healthy: bool, s: seq<byte>, m: Memory, h: Header, rest: seq<byte>) {
    && (h != Rejected(Timeout) ==> |s| >= 4 && rest == s[4..])
    && match h
       case Rejected(o) =>
         && o in {Timeout, BadSize, Refused}
         && (o == BadSize ==> !GoodSize(ImageLen(s)))
         && (o == Refused ==> GoodSize(ImageLen(s)) && (healthy ==> Seen(PhaseOf(l, m)) == Swap))
       case Accepted(len) => len == ImageLen(s) && GoodSize(len) && Seen(PhaseOf(l, m)) != Swap
  }

  /** OK, the image length, and the refusal to touch the partition while a swap is pending. */
  method ReadHeader(uart: UartHandler, flash: DirectFlash, l: Loader) returns (h: Header)
    requires Ready(uart, flash)
    modifies uart, uart.rx, flash`trace
    ensures Ready(uart, flash)
    ensures HeaderRead(l, flash.healthy, old(uart.rx.stream), flash.Mem(), h, uart.rx.stream)
    ensures Consumed(old(uart.rx.stream), uart.rx.stream)
    ensures old(uart.rx.drops) <= uart.rx.drops && (h == Rejected(Timeout) <==> uart.rx.drops > old(uart.rx.drops))
    ensures uart.tx == if h.Rejected? then old(uart.tx) + OK_LINE + Final(h.outcome) else old(uart.tx) + OK_LINE
    ensures uart.linePos == 0
    ensures Enough(old(uart.rx.script), old(uart.rx.stream), 4) ==>
      h != Rejected(Timeout) && Spent(old(uart.rx.script), uart.rx.script, 4)
    ensures flash.trace == old(flash.trace) + [Await]
  {
    hide Eager, Polled, Le32, Le32Nat, Consumed;
    uart.WriteBytes(OK_LINE);
    var word := new byte[4](_ => 0);
    var done := AwaitExact(uart, flash, word, 4);
    if !done {
      uart.WriteBytes(ERR_TIMEOUT);
      return Rejected(Timeout);
    }
    assert word[..] == word[..4];
    var len := Le32Nat(word[..]);
    if len == 0 || len > MAX_IMAGE_SIZE {
      uart.WriteBytes(ERR_SIZE);
      return Rejected(BadSize);
    }
    var state := GetState(flash, l);
    if state == [] || state[0] == Swap {
      uart.WriteBytes(ERR_FLASH);
      return Rejected(Refused);
    }
    return Accepted(len);
  }

  /**
   How a transaction shows on the hardware: the read of the length, then the
   staging. In every transaction that gets past both reads a feed follows.
   */
  ghost predicate Opens(r: Report, before: seq<Event>, after: seq<Event>) {
    if !r.accepted then after == before + [Await]
    else StagingOpens(r.outcome == Timeout && r.offset == 0, before + [Await], after)
  }

  /**
   Everything the exchange needs is on the stream, and enough polls offer some of
   it before a timer wins: all of length, image and trailer, or the length alone
   if it is refused.
   */
  predicate Prompt(script: seq<Poll>, s: seq<byte>) {
    Enough(script, s, 4) && (GoodSize(ImageLen(s)) ==> HasAll(s) && Enough(script, s, 8 + ImageLen(s)))
  }

  /** A sender that does not keep the device waiting is not timed out. */
  ghost predicate Timely(script: seq<Poll>, s: seq<byte>, o: Outcome) {
    Prompt(script, s) ==> o != Timeout
  }

  method Run(uart: UartHandler, flash: DirectFlash, l: Loader) returns (r: Report, ghost mv: Memory)
    requires Ready(uart, flash) && Sound(l)
    modifies uart, uart.rx, flash`trace, flash.cells
    ensures Ready(uart, flash)
    ensures Transaction(l, flash.healthy, old(uart.rx.stream), old(flash.Mem()), r, mv, uart.rx.stream, flash.Mem())
    ensures Consumed(old(uart.rx.stream), uart.rx.stream)
    ensures old(uart.rx.drops) <= uart.rx.drops && (r.outcome == Timeout <==> uart.rx.drops > old(uart.rx.drops))
    ensures uart.tx == Transcript(old(uart.tx), r)
    ensures uart.linePos == 0
    ensures Timely(old(uart.rx.script), old(uart.rx.stream), r.outcome)
    ensures Paced(old(flash.trace), flash.trace, 0, MAX_WAITS)
    ensures Opens(r, old(flash.trace), flash.trace)
  {
    hide Sound, Paced, Le32, Le32Nat, Acks, ChunkCount, Transaction, Consumed, Eager;
    ghost var t, m, s := flash.trace, flash.Mem(), uart.rx.stream;
    var h := ReadHeader(uart, flash, l);
    ghost var t1 := flash.trace;
    PacedAwait(t, 0);
    match h
    case Rejected(o) =>
      EndsInHeader(l, flash.healthy, s, m, o, uart.rx.stream);
      PacedRelax(t, t1, 0, 1, MAX_WAITS);
      r, mv := Report(o, false, 0), m;
    case Accepted(len) =>
      ghost var s1 := uart.rx.stream;
      r, mv := Transfer(uart, flash, l, len, s);
      ConsumedComposes(s, s1, uart.rx.stream);
      PacedComposes(t, t1, flash.trace, 0, 1, MAX_WAITS);
  }

  /** Everything after the header was accepted; `s` is the stream the transaction started with. */
  method Transfer(uart: UartHandler, flash: DirectFlash, l: Loader, len: nat, ghost s: seq<byte>)
    returns (r: Report, ghost mv: Memory)
    requires Ready(uart, flash) && Sound(l)
    requires |s| >= 4 && uart.rx.stream == s[4..] && ImageLen(s) == len && GoodSize(len)
    requires Seen(PhaseOf(l, flash.Mem())) != Swap
    modifies uart, uart.rx, flash`trace, flash.cells
    ensures Ready(uart, flash)
    ensures r.accepted
    ensures Transaction(l, flash.healthy, s, old(flash.Mem()), r, mv, uart.rx.stream, flash.Mem())
    ensures Consumed(old(uart.rx.stream), uart.rx.stream)
    ensures old(uart.rx.drops) <= uart.rx.drops && (r.outcome == Timeout <==> uart.rx.drops > old(uart.rx.drops))
    ensures uart.tx == old(uart.tx) + RECV_LINE + Acks(ChunkCount(r.offset)) + Final(r.outcome)
    ensures uart.linePos == 0
    ensures Enough(old(uart.rx.script), old(uart.rx.stream), len + 4) ==> r.outcome != Timeout
    ensures Paced(old(flash.trace), flash.trace, 1, MAX_WAITS)
    ensures StagingOpens(r.outcome == Timeout && r.offset == 0, old(flash.trace), flash.trace)
  {
    hide Sound, Paced, Le32, Le32Nat, Acks, ChunkCount, SameOutside, Staged, Transaction, Fold, Crc,
         Complement, Consumed, Enough, Spent, StagedSoFar;
    ghost var script := uart.rx.script;
    ghost var t, m, healthy, s1 := flash.trace, flash.Mem(), flash.healthy, uart.rx.stream;
    uart.WriteBytes(RECV_LINE);
    var stage, crc, offset := StageImage(uart, flash, len);
    mv := flash.Mem();
    Pieces(s, offset);
    SoFar(l, healthy, s, m, offset, mv);
    if Enough(script, s1, len + 4) {
      EnoughForParts(script, s1, len, 4, uart.rx.script);
    }
    ghost var t1, tail := flash.trace, uart.rx.stream;
    var o;
    if stage == Complete {
      CrcIsComplement(s[4..4 + len]);
      o := Commit(uart, flash, l, len, Complement(crc));
      ConsumedComposes(s1, tail, uart.rx.stream);
      PacedComposes(t, t1, flash.trace, 1, 0, 1);
      PacedRelax(t, flash.trace, 1, 1, MAX_WAITS);
    } else {
      PacedRelax(t, t1, 1, if stage.Stalled? then MAX_WAITS else 0, MAX_WAITS);
      o := if stage == Stalled then Timeout else FlashFault;
    }
    if o in {Timeout, FlashFault} {
      EndsStaging(l, healthy, s, m, offset, mv, o, uart.rx.stream);
    } else {
      EndsCommit(l, healthy, s, m, mv, o, Complement(crc), tail, uart.rx.stream, flash.Mem());
    }
    r := Report(o, true, offset);
  }

  lemma CrcIsComplement(data: seq<byte>)
    ensures Crc(data) == Complement(Fold(INIT, data))
  {
  }

  lemma Pieces(s: seq<byte>, len: nat)
    requires |s| >= 4 + len
    ensures s[4..][..len] == s[4..4 + len]
    ensures |s| >= 8 + len ==> s[4..][len..][..4] == s[4 + len..8 + len] && s[4..][len..][4..] == s[8 + len..]
  {
  }
}
