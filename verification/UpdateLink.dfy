/**
 The update protocol as two communicating machines: the sender
 (tools/uart-fw-update.sh) and the device (src/fw_update.rs), joined by a byte
 channel and a reply channel, in every interleaving.

 Bytes move in arbitrary portions. The device may still emit telemetry lines
 until it has read the request; the sender skips them, but each `wait_for` reads
 at most fifteen lines.
 */
module UpdateLink {
  import opened Nor
  import opened Register
  import opened Layout
  import opened Crc32
  import opened CommandParser
  import opened LineFraming
  import opened BootContract
  import opened Staging
  import opened FwUpdate

  /** What the two sides start with. */
  datatype Config = Config(image: seq<byte>, len: bv32, crc: bv32, m0: Memory, l: Loader, maxTicks: nat)

  ghost predicate Good(c: Config) {
    && GoodSize(|c.image|) && c.len as nat == |c.image|
    && Sound(c.l) && Seen(PhaseOf(c.l, c.m0)) != Swap
  }

  // ------------------------------------------------------------ the script

  /** "FW_UPDATE\n" */
  const REQUEST: seq<byte> := [70, 87, 95, 85, 80, 68, 65, 84, 69, 10]

  /** `le32`: a number as four little-endian bytes. */
  function Le32Bytes(v: bv32): (b: seq<byte>)
    ensures |b| == 4
  {
    [(v & 0xFF) as byte, ((v >> 8) & 0xFF) as byte, ((v >> 16) & 0xFF) as byte, ((v >> 24) & 0xFF) as byte]
  }

  /** What `le32` prints, `from_le_bytes` reads back. */
  lemma Le32RoundTrip(v: bv32)
    ensures Le32(Le32Bytes(v)) == v
  {
  }

  /** The stage in which the trailer is exchanged; the one after it only awaits FLASH. */
  function TrailerStage(c: Config): nat {
    2 + ChunkCount(|c.image|)
  }

  /** Bytes of an image of `len` bytes acknowledged before `stage`. */
  function Offset(len: nat, stage: nat): (r: nat)
    ensures r <= len
  {
    if stage < 2 then 0
    else if (stage - 2) * CHUNK_SIZE < len then (stage - 2) * CHUNK_SIZE else len
  }

  /** The chunk of `stage`: `dd bs=4096 skip=.. count=1`. */
  function ChunkOf(image: seq<byte>, stage: nat): seq<byte> {
    var at := Offset(|image|, stage);
    image[at..if at + CHUNK_SIZE < |image| then at + CHUNK_SIZE else |image|]
  }

  function Payload(c: Config, stage: nat): seq<byte> {
    if stage == 0 then REQUEST
    else if stage == 1 then Le32Bytes(c.len)
    else if stage < TrailerStage(c) then
      ChunkOf(c.image, stage)
    else if stage == TrailerStage(c) then Le32Bytes(c.crc)
    else []
  }

  datatype Reply = Telemetry | Ok | Recv | Ack | CrcOk | Flash | Err

  /** The word `wait_for` looks for after `stage`'s bytes. */
  function Expected(c: Config, stage: nat): Reply {
    if stage == 0 then Ok
    else if stage == 1 then Recv
    else if stage < TrailerStage(c) then Ack
    else if stage == TrailerStage(c) then CrcOk
    else Flash
  }

  /** `wait_for` matches a substring, so a line CRCOK also answers a wait for OK. */
  predicate Matches(want: Reply, line: Reply) {
    line == want || (want == Ok && line == CrcOk)
  }

  const PATIENCE: nat := 15

  // -------------------------------------------------------------- machines

  datatype Sender =
    | Sending(stage: nat, todo: seq<byte>, patience: nat)
    | Succeeded
    | Died

  /** `len` is the image length the device was told; it means nothing before stage 2. */
  datatype Device =
    | Reading(stage: nat, buf: seq<byte>, len: nat)
    | Busy(stage: nat, buf: seq<byte>, len: nat)  // in an erase, program or mark step, interrupts masked
    | Resetting                         // the update is marked
    | Aborted

  datatype Link = Link(sender: Sender, wire: seq<byte>, device: Device, replies: seq<Reply>,
                       ticks: nat, mem: Memory, crc: bv32)

  datatype Action = Send(n: nat) | Receive(n: nat) | Process | Finish | ReadLine | Tick

  // What the device does depends on the bytes it has read and on nothing of the sender's.

  /** The guard of the staging loop. */
  predicate Loading(len: nat, stage: nat) {
    stage >= 2 && Offset(len, stage) < len
  }

  /** How many bytes the device reads in a stage after the request. */
  function Wanted(len: nat, stage: nat): nat {
    if Loading(len, stage) then ChunkLen(len, Offset(len, stage)) else 4
  }

  /** The read of this stage is complete: a whole line for the request, a number of bytes after it. */
  predicate ReadDone(d: Device)
    requires d.Reading?
  {
    if d.stage == 0 then LineFraming.Complete(d.buf) else |d.buf| == Wanted(d.len, d.stage)
  }

  /** The read of this stage takes `more`, not stopping short of its last byte. */
  predicate Takes(d: Device, more: seq<byte>)
    requires d.Reading? && more != []
  {
    if d.stage == 0 then Unfinished(d.buf + more[..|more| - 1]) else |d.buf| + |more| <= Wanted(d.len, d.stage)
  }

  predicate Enabled(c: Config, st: Link, a: Action) {
    match a
    case Send(n) => st.sender.Sending? && 0 < n <= |st.sender.todo|
    case Receive(n) => st.device.Reading? && 0 < n <= |st.wire| && Takes(st.device, st.wire[..n])
    case Process => st.device.Reading? && ReadDone(st.device)
    case Finish => st.device.Busy?
    case ReadLine => st.sender.Sending? && st.sender.todo == [] && st.replies != []
    case Tick => st.device.Reading? && st.device.stage == 0 && st.ticks < c.maxTicks
  }

  function Reject(st: Link): Link {
    st.(device := Aborted, replies := st.replies + [Err])
  }

  /** A completed read is acted on. */
  function DoProcess(c: Config, st: Link): Link
    requires Enabled(c, st, Process)
  {
    var k, buf, len := st.device.stage, st.device.buf, st.device.len;
    if k == 0 then
      if ParseCommand(buf) == CmdFwUpdate then st.(device := Reading(1, [], 0), replies := st.replies + [Ok])
      else st.(device := Reading(0, [], 0))
    else if k == 1 then
      if GoodSize(Le32Nat(buf)) && Seen(PhaseOf(c.l, st.mem)) != Swap
      then st.(device := Reading(2, [], Le32Nat(buf)), replies := st.replies + [Recv])
      else Reject(st)
    else if Loading(len, k) then st.(device := Busy(k, buf, len))
    else if len <= MAX_IMAGE_SIZE && Complement(st.crc) == Le32(buf) == Crc(ReadBack(st.mem, len))
    then st.(device := Busy(k, buf, len))
    else Reject(st)
  }

  function StoredMem(m: Memory, at: nat, bytes: seq<byte>): Memory
    requires DFU + at + SECTOR_SIZE <= FLASH_SIZE && |bytes| <= SECTOR_SIZE
  {
    Programmed(Erased(m, DFU + at, DFU + at + SECTOR_SIZE), DFU + at, bytes)
  }

  function AsMemory(m: seq<byte>, fallback: Memory): Memory {
    if |m| == FLASH_SIZE then m else fallback
  }

  /** A flash step ends: the chunk is acknowledged, or the update is marked and the device resets. */
  function DoFinish(c: Config, st: Link): Link
    requires Enabled(c, st, Finish)
  {
    var k, buf, len := st.device.stage, st.device.buf, st.device.len;
    if Loading(len, k) && DFU + Offset(len, k) + SECTOR_SIZE <= FLASH_SIZE && |buf| <= SECTOR_SIZE then
      st.(device := Reading(k + 1, [], len), replies := st.replies + [Ack],
          mem := StoredMem(st.mem, Offset(len, k), buf), crc := Fold(st.crc, buf))
    else
      st.(device := Resetting, replies := st.replies + [CrcOk, Flash], mem := AsMemory(c.l.markUpdated(st.mem), st.mem))
  }

  /** One turn of the `wait_for` loop: the next script stage, one line less of patience, or failure. */
  function NextSender(c: Config, s: Sender, line: Reply): Sender
    requires s.Sending?
  {
    if Matches(Expected(c, s.stage), line) then
      if s.stage > TrailerStage(c) then Succeeded else Sending(s.stage + 1, Payload(c, s.stage + 1), PATIENCE)
    else if line == Err || s.patience <= 1 then Died
    else s.(patience := s.patience - 1)
  }

  function DoReadLine(c: Config, st: Link): Link
    requires Enabled(c, st, ReadLine)
  {
    st.(sender := NextSender(c, st.sender, st.replies[0]), replies := st.replies[1..])
  }

  function Do(c: Config, st: Link, a: Action): Link
    requires Enabled(c, st, a)
  {
    match a
    case Send(n) => st.(sender := st.sender.(todo := st.sender.todo[n..]), wire := st.wire + st.sender.todo[..n])
    case Receive(n) =>
      st.(device := Reading(st.device.stage, st.device.buf + st.wire[..n], st.device.len), wire := st.wire[n..])
    case Process => DoProcess(c, st)
    case Finish => DoFinish(c, st)
    case ReadLine => DoReadLine(c, st)
    case Tick => st.(replies := st.replies + [Telemetry], ticks := st.ticks + 1)
  }

  function Start(c: Config): Link {
    Link(Sending(0, REQUEST, PATIENCE), [], Reading(0, [], 0), [], 0, c.m0, INIT)
  }

  /** `actions` lead from `st` to `end`, each enabled in its turn. */
  ghost predicate Leads(c: Config, st: Link, actions: seq<Action>, end: Link)
    decreases |actions|
  {
    if actions == [] then st == end
    else Enabled(c, st, actions[0]) && Leads(c, Do(c, st, actions[0]), actions[1..], end)
  }

  // -------------------------------------------------------------- invariant

  function Telemetries(n: nat): seq<Reply> {
    seq(n, _ => Telemetry)
  }

  /** Telemetry lines at the front of the reply channel; only the first stage has any. */
  ghost predicate Waiting(ticks: nat, stage: nat, patience: nat, lines: nat) {
    if stage == 0 then patience + ticks == PATIENCE + lines else lines == 0 && patience == PATIENCE
  }

  /** From stage 2 on the device knows the length of the image. */
  ghost predicate Informed(c: Config, d: Device)
    requires d.Reading? || d.Busy?
  {
    d.stage >= 2 ==> d.len == |c.image|
  }

  /** Sender and device are in the same stage: its bytes are somewhere between them. */
  ghost predicate InStep(c: Config, st: Link) {
    && st.sender.Sending? && st.device.Reading? && Informed(c, st.device)
    && st.device.stage == st.sender.stage <= TrailerStage(c)
    && st.device.buf + st.wire + st.sender.todo == Payload(c, st.sender.stage)
    && st.replies == Telemetries(|st.replies|)
    && Waiting(st.ticks, st.sender.stage, st.sender.patience, |st.replies|)
  }

  /** The device works on flash: everything sent was received, and nothing more is sent. */
  ghost predicate Working(c: Config, st: Link) {
    && st.sender.Sending? && st.device.Busy? && Informed(c, st.device)
    && 2 <= st.device.stage == st.sender.stage <= TrailerStage(c)
    && st.device.buf == Payload(c, st.sender.stage)
    && st.wire == [] && st.sender.todo == [] && st.replies == [] && st.sender.patience == PATIENCE
    && (st.device.stage == TrailerStage(c) ==> c.crc == Crc(c.image))
  }

  /** The device has answered and is one stage ahead. */
  ghost predicate Answered(c: Config, st: Link) {
    && st.sender.Sending? && st.device.Reading? && Informed(c, st.device)
    && st.device.stage == st.sender.stage + 1 <= TrailerStage(c)
    && st.device.buf == [] && st.wire == [] && st.sender.todo == []
    && st.replies != []
    && st.replies == Telemetries(|st.replies| - 1) + [Expected(c, st.sender.stage)]
    && Waiting(st.ticks, st.sender.stage, st.sender.patience, |st.replies| - 1)
  }

  /** The device is done: committed, or it rejected the trailer. */
  ghost predicate Over(c: Config, st: Link) {
    && st.wire == []
    && if st.device.Resetting? then
         c.crc == Crc(c.image)
         && match st.sender
            case Sending(k, todo, p) =>
              todo == [] && ((k == TrailerStage(c) && st.replies == [CrcOk, Flash])
                          || (k == TrailerStage(c) + 1 && st.replies == [Flash]))
            case Succeeded => st.replies == []
            case Died => false
       else
         st.device.Aborted? && c.crc != Crc(c.image)
         && match st.sender
            case Sending(k, todo, p) => todo == [] && k == TrailerStage(c) && st.replies == [Err]
            case Succeeded => false
            case Died => st.replies == []
  }

  /** The image is staged up to the chunk of stage `k`, and so far in the CRC register. */
  ghost predicate HoldsUpTo(c: Config, st: Link, k: nat)
    requires |c.image| <= MAX_IMAGE_SIZE
  {
    var done := c.image[..Offset(|c.image|, k)];
    st.mem == Staged(c.m0, done) && st.crc == Fold(INIT, done)
  }

  /** What is in flash and in the CRC register, by how far the device has come. */
  ghost predicate FlashHolds(c: Config, st: Link)
    requires |c.image| <= MAX_IMAGE_SIZE
  {
    match st.device
    case Reading(k, _, _) => HoldsUpTo(c, st, k)
    case Busy(k, _, _) => HoldsUpTo(c, st, k)
    case Resetting => st.mem == c.l.markUpdated(Staged(c.m0, c.image))
    case Aborted => st.mem == Staged(c.m0, c.image)
  }

  ghost predicate Context(c: Config, st: Link) {
    && Good(c) && c.maxTicks < PATIENCE
    && st.ticks <= c.maxTicks
    && FlashHolds(c, st)
  }

  ghost predicate Inv(c: Config, st: Link) {
    Context(c, st) && (InStep(c, st) || Working(c, st) || Answered(c, st) || Over(c, st))
  }

  lemma StartInv(c: Config)
    requires Good(c) && c.maxTicks < PATIENCE
    ensures Inv(c, Start(c))
  {
    StagedNothing(c.m0);
    hide Staged, Sound;
    assert c.image[..0] == [];
    assert [] + [] + REQUEST == REQUEST;
  }

  /** Which phase each action belongs to. */
  lemma WhoActs(c: Config, st: Link, a: Action)
    requires Inv(c, st) && Enabled(c, st, a)
    ensures Context(c, st)
    ensures a.Send? || a.Receive? || a.Process? || a.Tick? ==> InStep(c, st)
    ensures a.Finish? ==> Working(c, st)
    ensures a.ReadLine? ==> InStep(c, st) || Answered(c, st) || Over(c, st)
  {
    hide Context, Payload, TrailerStage, Expected, Offset, Takes, Loading, Waiting, Unfinished;
  }

  /** A step that leaves the chip alone and the device as far as it was. */
  lemma SameFlash(c: Config, st: Link, st': Link)
    requires Context(c, st)
    requires st'.mem == st.mem && st'.crc == st.crc && (st'.ticks == st.ticks || st'.ticks <= c.maxTicks)
    requires
      || st'.device == st.device
      || (&& (st.device.Reading? || st.device.Busy?) && (st'.device.Reading? || st'.device.Busy?)
          && Offset(|c.image|, st'.device.stage) == Offset(|c.image|, st.device.stage))
    ensures Context(c, st')
  {
    hide Staged, Fold, Sound, Offset;
  }

  // -------------------------------------------------------- moving the bytes

  lemma SendKeeps(c: Config, st: Link, n: nat)
    requires Context(c, st) && InStep(c, st) && Enabled(c, st, Send(n))
    ensures Context(c, Do(c, st, Send(n))) && InStep(c, Do(c, st, Send(n)))
  {
    hide DoProcess, DoFinish, DoReadLine, Context, Payload, TrailerStage, Waiting, Telemetries, Offset, Informed;
    Regroup(st.device.buf, st.wire, st.sender.todo, n);
    SameFlash(c, st, Do(c, st, Send(n)));
  }

  lemma Regroup(a: seq<byte>, b: seq<byte>, s: seq<byte>, n: nat)
    requires n <= |s|
    ensures a + (b + s[..n]) + s[n..] == a + b + s
  {
  }

  lemma ReceiveKeeps(c: Config, st: Link, n: nat)
    requires Context(c, st) && InStep(c, st) && Enabled(c, st, Receive(n))
    ensures Context(c, Do(c, st, Receive(n))) && InStep(c, Do(c, st, Receive(n)))
  {
    hide DoProcess, DoFinish, DoReadLine, Takes, ReadDone, Context, Payload, TrailerStage, Waiting, Telemetries, Offset;
    assert (st.device.buf + st.wire[..n]) + st.wire[n..] == st.device.buf + st.wire;
    SameFlash(c, st, Do(c, st, Receive(n)));
  }

  lemma TickKeeps(c: Config, st: Link)
    requires Context(c, st) && InStep(c, st) && Enabled(c, st, Tick)
    ensures Context(c, Do(c, st, Tick)) && InStep(c, Do(c, st, Tick))
  {
    hide DoProcess, DoFinish, DoReadLine, Context, Payload, TrailerStage, Offset, Informed, ReadDone, Takes;
    assert Telemetries(|st.replies|) + [Telemetry] == Telemetries(|st.replies| + 1);
    SameFlash(c, st, Do(c, st, Tick));
  }

  // ------------------------------------------------------------ what is read

  /** The request line is the FW_UPDATE command. */
  lemma RequestParses()
    ensures ParseCommand(REQUEST) == CmdFwUpdate
  {
    hide ParseCommand, Spaces;
    SpacesOf([]);
    SpacesOf([[NEWLINE]]);
    assert Flatten([[NEWLINE]]) == [NEWLINE] by { assert [[NEWLINE]][1..] == []; }
    assert REQUEST == [] + Name(CmdFwUpdate) + [NEWLINE];
    SpacedNameParses([], CmdFwUpdate, [NEWLINE]);
  }

  /** The request is one line: its only newline is its last byte. */
  lemma RequestIsLine(front: seq<byte>, rest: seq<byte>)
    requires front + rest == REQUEST
    ensures LineFraming.Complete(front) <==> rest == []
    ensures rest != [] ==> Unfinished(front)
  {
    assert |front| + |rest| == 10;
    assert front == REQUEST[..|front|];
  }

  lemma LastOffset(c: Config)
    requires Good(c)
    ensures Offset(|c.image|, TrailerStage(c)) == |c.image|
    ensures TrailerStage(c) > 2
  {
    hide Sound;
  }

  lemma NextOffset(len: nat, k: nat)
    requires 2 <= k < 2 + ChunkCount(len)
    ensures var at, next := Offset(len, k), Offset(len, k + 1);
            && at % CHUNK_SIZE == 0 && at < next <= at + CHUNK_SIZE
            && next == if at + CHUNK_SIZE < len then at + CHUNK_SIZE else len
  {
    assert (k - 2) * CHUNK_SIZE < len;
  }

  /** A chunk stage carries the next at most 4096 bytes of the image. */
  lemma ChunkStage(c: Config, k: nat)
    requires Good(c) && 2 <= k < TrailerStage(c)
    ensures var at, next := Offset(|c.image|, k), Offset(|c.image|, k + 1);
            && at % CHUNK_SIZE == 0 && at < next <= at + CHUNK_SIZE
            && Payload(c, k) == c.image[at..next]
            && c.image[..at] + Payload(c, k) == c.image[..next]
  {
    hide Sound, Offset;
    NextOffset(|c.image|, k);
  }

  /** The device goes round its loop in the chunk stages and no other, and reads in each what is sent in it. */
  lemma SameScript(c: Config, d: Device)
    requires Good(c) && d.Reading? && Informed(c, d) && d.stage <= TrailerStage(c)
    ensures Loading(d.len, d.stage) <==> 2 <= d.stage < TrailerStage(c)
    ensures d.stage >= 1 ==> Wanted(d.len, d.stage) == |Payload(c, d.stage)|
    ensures Payload(c, d.stage) != []
  {
    hide Sound, Good;
    LastOffset(c);
    if 2 <= d.stage < TrailerStage(c) {
      ChunkStage(c, d.stage);
    }
  }

  /** What the bytes of a stage say about a device that has some of them, `rest` being still on the way. */
  lemma DoneWhenAllThere(c: Config, d: Device, rest: seq<byte>)
    requires Good(c) && d.Reading? && Informed(c, d) && d.stage <= TrailerStage(c)
    requires d.buf + rest == Payload(c, d.stage)
    ensures ReadDone(d) <==> rest == []
    ensures !ReadDone(d) ==> Takes(d, rest[..1])
  {
    hide Payload, Informed, Good, TrailerStage, Loading, LineFraming.Complete, Unfinished;
    SameScript(c, d);
    StageZero(c);
    assert |d.buf| + |rest| == |Payload(c, d.stage)|;
    if d.stage == 0 {
      RequestIsLine(d.buf, rest);
      if rest != [] {
        assert d.buf + rest[..1][..0] == d.buf;
      }
    }
  }

  /** A read is complete when all bytes of its stage are there, and no sooner. */
  lemma DoneIff(c: Config, st: Link)
    requires Context(c, st) && InStep(c, st)
    ensures ReadDone(st.device) <==> st.wire == [] && st.sender.todo == []
    ensures ReadDone(st.device) ==> st.device.buf == Payload(c, st.device.stage)
    ensures !ReadDone(st.device) && st.wire != [] ==> Takes(st.device, st.wire[..1])
  {
    hide Context, Good, Payload, TrailerStage, Waiting, Takes, ReadDone, Informed, Telemetries;
    GoodContext(c, st);
    var d, rest := st.device, st.wire + st.sender.todo;
    assert d.buf + rest == d.buf + st.wire + st.sender.todo;
    DoneWhenAllThere(c, d, rest);
    assert rest == [] ==> d.buf + rest == d.buf;
    assert st.wire != [] ==> rest[..1] == st.wire[..1];
  }

  lemma GoodContext(c: Config, st: Link)
    requires Context(c, st)
    ensures Good(c) && st.ticks < PATIENCE
  {
    hide FlashHolds, Good;
  }

  lemma StageZero(c: Config)
    ensures Payload(c, 0) == REQUEST
  {
  }

  lemma StageOne(c: Config)
    ensures Payload(c, 1) == Le32Bytes(c.len)
  {
    hide Le32Bytes;
  }

  // --------------------------------------------------------- acting on a read

  lemma ProcessRequest(c: Config, st: Link)
    requires Context(c, st) && InStep(c, st) && Enabled(c, st, Process) && st.device.stage == 0
    ensures Context(c, Do(c, st, Process)) && Answered(c, Do(c, st, Process))
  {
    hide DoFinish, DoReadLine, Takes, Context, Good, ParseCommand, Payload, TrailerStage, LineFraming.Complete,
         Telemetries;
    GoodContext(c, st);
    DoneIff(c, st);
    StageZero(c);
    RequestParses();
    LastOffset(c);
    SameFlash(c, st, Do(c, st, Process));
  }

  lemma ProcessLength(c: Config, st: Link)
    requires Context(c, st) && InStep(c, st) && Enabled(c, st, Process) && st.device.stage == 1
    ensures Context(c, Do(c, st, Process)) && Answered(c, Do(c, st, Process))
  {
    hide DoFinish, DoReadLine, Takes;
    LengthRoundTrip(c.len);
    DoneIff(c, st);
    LastOffset(c);
    StatePreserved(c, st);
    StageOne(c);
    hide Staged, Fold, Sound, PhaseOf, Le32, Le32Nat, Le32Bytes, TrailerStage, Payload;
    SameFlash(c, st, Do(c, st, Process));
    hide Context;
    assert Telemetries(0) + [Recv] == [Recv];
  }

  /** Before the first chunk the chip is as it was, so the swap guard reads what it read at the start. */
  lemma StatePreserved(c: Config, st: Link)
    requires Context(c, st) && st.device.Reading? && st.device.stage <= 2
    ensures st.mem == c.m0
  {
    StagedNothing(c.m0);
    hide Staged, Sound;
    assert c.image[..0] == [];
  }

  lemma LengthRoundTrip(v: bv32)
    ensures Le32Nat(Le32Bytes(v)) == v as nat
  {
    hide Le32, Le32Bytes;
    Le32RoundTrip(v);
  }

  lemma ProcessChunk(c: Config, st: Link)
    requires Context(c, st) && InStep(c, st) && Enabled(c, st, Process) && 2 <= st.device.stage < TrailerStage(c)
    ensures Context(c, Do(c, st, Process)) && Working(c, Do(c, st, Process))
  {
    hide DoFinish, DoReadLine, Takes, Loading, Wanted, Offset, Payload, TrailerStage, Context, Good, Crc, Telemetries;
    GoodContext(c, st);
    DoneIff(c, st);
    SameScript(c, st.device);
    SameFlash(c, st, Do(c, st, Process));
  }

  /** With the whole image staged, the device accepts the trailer exactly if it is the image's CRC. */
  lemma ProcessTrailer(c: Config, st: Link)
    requires Context(c, st) && InStep(c, st) && Enabled(c, st, Process) && st.device.stage == TrailerStage(c)
    ensures Inv(c, Do(c, st, Process))
  {
    hide DoFinish, DoReadLine, Takes, Staged, Fold, Sound, Crc, Le32, Le32Bytes, Complement, Payload, TrailerStage,
         Loading, Wanted, Offset, ReadBack, Telemetries;
    DoneIff(c, st);
    SameScript(c, st.device);
    LastOffset(c);
    TrailerPayload(c);
    WholeImage(c, st);
    assert [] + [Err] == [Err];
  }

  lemma TrailerPayload(c: Config)
    ensures Payload(c, TrailerStage(c)) == Le32Bytes(c.crc)
    ensures Le32(Le32Bytes(c.crc)) == c.crc
  {
    Le32RoundTrip(c.crc);
    hide Le32, Le32Bytes;
  }

  /** Before the trailer the whole image is in the partition and in the CRC register. */
  lemma WholeImage(c: Config, st: Link)
    requires Good(c) && HoldsUpTo(c, st, TrailerStage(c))
    ensures st.mem == Staged(c.m0, c.image)
    ensures Complement(st.crc) == Crc(c.image)
    ensures ReadBack(st.mem, |c.image|) == c.image
  {
    hide Staged, Fold, Crc, Complement, TrailerStage, Sound;
    LastOffset(c);
    StagedKeeps(c.m0, c.image);
    CrcIsComplement(c.image);
    assert c.image[..|c.image|] == c.image;
  }

  // --------------------------------------------------------- flash steps end

  lemma LoadingThere(len: nat, k: nat)
    requires k >= 2 && Offset(len, k) < Offset(len, k + 1)
    ensures Loading(len, k)
  {
  }

  /** The chunk that was read is the next of the image, and it fits. */
  lemma ChunkLands(c: Config, st: Link)
    requires Context(c, st) && Working(c, st) && st.device.stage < TrailerStage(c)
    ensures var k, len := st.device.stage, st.device.len;
            && Loading(len, k) && DFU + Offset(len, k) + SECTOR_SIZE <= FLASH_SIZE && |st.device.buf| <= SECTOR_SIZE
            && StoredMem(st.mem, Offset(len, k), st.device.buf) == Staged(c.m0, c.image[..Offset(|c.image|, k + 1)])
            && Fold(st.crc, st.device.buf) == Fold(INIT, c.image[..Offset(|c.image|, k + 1)])
  {
    hide Staged, Fold, Sound, Crc, Payload, Programmed, Erased, TrailerStage, Offset, Waiting, Expected, Loading;
    var k := st.device.stage;
    var at := Offset(|c.image|, k);
    var done, chunk := c.image[..at], Payload(c, k);
    ChunkStage(c, k);
    LoadingThere(|c.image|, k);
    assert |done| == at;
    StageChunk(c.m0, done, chunk);
    FoldConcat(INIT, done, chunk);
  }

  lemma ChunkStored(c: Config, st: Link)
    requires Enabled(c, st, Finish) && Context(c, st) && Working(c, st) && st.device.stage < TrailerStage(c)
    ensures var k, done := st.device.stage, c.image[..Offset(|c.image|, st.device.stage + 1)];
            DoFinish(c, st) == st.(device := Reading(k + 1, [], |c.image|), replies := [Ack],
                                   mem := Staged(c.m0, done), crc := Fold(INIT, done))
  {
    hide Context, Staged, Fold, Payload, StoredMem, TrailerStage, Offset, Loading, Expected, Crc, Telemetries;
    ChunkLands(c, st);
    assert [] + [Ack] == [Ack];
  }

  lemma FinishChunk(c: Config, st: Link)
    requires Enabled(c, st, Finish) && Context(c, st) && Working(c, st) && st.device.stage < TrailerStage(c)
    ensures Context(c, Do(c, st, Finish)) && Answered(c, Do(c, st, Finish))
  {
    hide DoFinish, DoProcess, DoReadLine, Staged, Fold, Sound, Crc, Payload, TrailerStage, Offset;
    ChunkStored(c, st);
    assert Telemetries(0) + [Ack] == [Ack];
  }

  lemma FinishMark(c: Config, st: Link)
    requires Enabled(c, st, Finish) && Context(c, st) && Working(c, st) && st.device.stage == TrailerStage(c)
    ensures Context(c, Do(c, st, Finish)) && Over(c, Do(c, st, Finish))
  {
    hide DoProcess, DoReadLine, Takes, Staged, Fold, Crc, Payload, TrailerStage, Offset, Complement,
         ReadBack, Telemetries;
    WholeImage(c, st);
    LastOffset(c);
    assert MarksUpdated(c.l, st.mem);
    assert [] + [CrcOk, Flash] == [CrcOk, Flash];
  }

  // -------------------------------------------------------- reading a reply

  lemma FrontTelemetry(n: nat, rest: seq<Reply>)
    ensures n > 0 ==> (Telemetries(n) + rest)[0] == Telemetry
    ensures n > 0 ==> (Telemetries(n) + rest)[1..] == Telemetries(n - 1) + rest
    ensures Telemetries(0) + rest == rest && rest + [] == rest
  {
  }

  lemma AllTelemetry(replies: seq<Reply>)
    requires replies == Telemetries(|replies|) && replies != []
    ensures replies[0] == Telemetry && replies[1..] == Telemetries(|replies[1..]|)
  {
  }

  lemma TelemetryRead(c: Config, st: Link)
    requires Enabled(c, st, ReadLine) && st.replies[0] == Telemetry && st.sender.patience > 1
    ensures Do(c, st, ReadLine)
         == st.(sender := st.sender.(patience := st.sender.patience - 1), replies := st.replies[1..])
  {
    hide TrailerStage, Payload;
  }

  /** A telemetry line costs patience the sender still has. */
  lemma SkipTelemetry(c: Config, st: Link)
    requires Context(c, st) && InStep(c, st) && Enabled(c, st, ReadLine)
    ensures Context(c, Do(c, st, ReadLine)) && InStep(c, Do(c, st, ReadLine))
  {
    hide Do, Context, Good, Payload, TrailerStage, Offset, Informed, ReadDone, Takes, Telemetries, Expected;
    GoodContext(c, st);
    AllTelemetry(st.replies);
    TelemetryRead(c, st);
    SameFlash(c, st, Do(c, st, ReadLine));
  }

  /** So does one in front of the answer. */
  lemma SkipBeforeAnswer(c: Config, st: Link)
    requires Enabled(c, st, ReadLine) && Context(c, st) && Answered(c, st) && |st.replies| > 1
    ensures Context(c, Do(c, st, ReadLine)) && Answered(c, Do(c, st, ReadLine))
  {
    hide Do, Context, Good, Payload, TrailerStage, Offset, Informed, ReadDone, Takes, Telemetries, Expected;
    GoodContext(c, st);
    FrontTelemetry(|st.replies| - 1, [Expected(c, st.sender.stage)]);
    TelemetryRead(c, st);
    SameFlash(c, st, Do(c, st, ReadLine));
  }

  lemma TakeAnswer(c: Config, st: Link)
    requires Enabled(c, st, ReadLine) && Context(c, st) && Answered(c, st) && |st.replies| == 1
    ensures Context(c, Do(c, st, ReadLine)) && InStep(c, Do(c, st, ReadLine))
  {
    hide DoProcess, DoFinish, Context, Payload, TrailerStage, Offset, Informed, ReadDone, Takes, Telemetries, Expected;
    FrontTelemetry(0, [Expected(c, st.sender.stage)]);
    FrontTelemetry(0, []);
    var todo := Payload(c, st.sender.stage + 1);
    assert [] + [] + todo == todo;
    SameFlash(c, st, Do(c, st, ReadLine));
  }

  lemma TakeVerdict(c: Config, st: Link)
    requires Context(c, st) && Over(c, st) && Enabled(c, st, ReadLine)
    ensures Context(c, Do(c, st, ReadLine)) && Over(c, Do(c, st, ReadLine))
  {
    BeyondTrailer(c);
    hide DoProcess, DoFinish, Context, Payload, Offset, ReadDone, Takes, Crc, ChunkCount;
    assert [CrcOk, Flash][1..] == [Flash] && [Flash][1..] == [] && [Err][1..] == [];
    SameFlash(c, st, Do(c, st, ReadLine));
  }

  lemma BeyondTrailer(c: Config)
    ensures Payload(c, TrailerStage(c) + 1) == []
  {
  }

  lemma StepKeeps(c: Config, st: Link, a: Action)
    requires Inv(c, st) && Enabled(c, st, a)
    ensures Inv(c, Do(c, st, a))
  {
    hide Do, Context, InStep, Working, Answered, Over, ReadDone, Takes;
    WhoActs(c, st, a);
    StageInRange(c, st);
    match a
    case Send(n) => SendKeeps(c, st, n);
    case Receive(n) => ReceiveKeeps(c, st, n);
    case Tick => TickKeeps(c, st);
    case ReadLine => ReadLineKeeps(c, st);
    case Process =>
      if st.device.stage == 0 { ProcessRequest(c, st); }
      else if st.device.stage == 1 { ProcessLength(c, st); }
      else if st.device.stage < TrailerStage(c) { ProcessChunk(c, st); }
      else { ProcessTrailer(c, st); }
    case Finish =>
      if st.device.stage < TrailerStage(c) { FinishChunk(c, st); } else { FinishMark(c, st); }
  }

  lemma ReadLineKeeps(c: Config, st: Link)
    requires Context(c, st) && (InStep(c, st) || Answered(c, st) || Over(c, st)) && Enabled(c, st, ReadLine)
    ensures Inv(c, Do(c, st, ReadLine))
  {
    hide Do, Context, InStep, Answered, Over, Working;
    if InStep(c, st) { SkipTelemetry(c, st); }
    else if Over(c, st) { TakeVerdict(c, st); }
    else if |st.replies| > 1 { SkipBeforeAnswer(c, st); }
    else { TakeAnswer(c, st); }
  }

  lemma StageInRange(c: Config, st: Link)
    requires Inv(c, st)
    ensures st.device.Reading? || st.device.Busy? ==> st.device.stage <= TrailerStage(c)
    ensures st.ticks <= c.maxTicks
  {
    hide FlashHolds, Good, Payload, TrailerStage, Waiting, Expected, Informed;
  }

  lemma {:induction false} RunKeepsInv(c: Config, st: Link, actions: seq<Action>, end: Link)
    requires Inv(c, st) && Leads(c, st, actions, end)
    ensures Inv(c, end)
    decreases |actions|
  {
    hide Inv, Do, Enabled;
    if actions != [] {
      StepKeeps(c, st, actions[0]);
      RunKeepsInv(c, Do(c, st, actions[0]), actions[1..], end);
    }
  }

  // ------------------------------------------------------------ termination

  /** Bytes the script still sends from stage `k` on. */
  function Rest(c: Config, k: nat): nat
    decreases TrailerStage(c) + 1 - k
  {
    if k > TrailerStage(c) then 0 else |Payload(c, k)| + Rest(c, k + 1)
  }

  function SenderWork(c: Config, s: Sender): nat {
    match s
    case Sending(k, todo, _) => |todo| + Rest(c, k + 1)
    case _ => 0
  }

  /** Each stage costs the device a read and a flash step, and yields at most two replies. */
  function DeviceWork(c: Config, d: Device): int {
    match d
    case Reading(k, _, _) => 4 * (TrailerStage(c) + 1 - k)
    case Busy(k, _, _) => 4 * (TrailerStage(c) + 1 - k) - 1
    case _ => 0
  }

  /** Every step makes this smaller. */
  function Work(c: Config, st: Link): int {
    2 * SenderWork(c, st.sender) + |st.wire| + DeviceWork(c, st.device) + |st.replies| + 2 * (c.maxTicks - st.ticks)
  }

  /** The script's next stage brings in the bytes that were counted for it. */
  lemma NextSenderShrinks(c: Config, s: Sender, line: Reply)
    requires s.Sending? && s.todo == []
    ensures SenderWork(c, NextSender(c, s, line)) <= SenderWork(c, s)
  {
    hide Payload, TrailerStage, Rest, Matches, Expected;
    RestOf(c, s.stage + 1);
    assert s == Sending(s.stage, [], s.patience);
  }

  lemma RestOf(c: Config, k: nat)
    ensures |Payload(c, k)| + Rest(c, k + 1) == Rest(c, k)
  {
    if k > TrailerStage(c) {
      assert Payload(c, k) == [];
    }
    hide Payload, TrailerStage;
  }

  lemma ReadLineWorks(c: Config, st: Link)
    requires Enabled(c, st, ReadLine)
    ensures Work(c, Do(c, st, ReadLine)) < Work(c, st)
  {
    hide TrailerStage, DeviceWork, SenderWork, NextSender, Payload, Rest;
    NextSenderShrinks(c, st.sender, st.replies[0]);
  }

  /** Acting on a completed read answers and moves on, starts a flash step, or rejects. */
  lemma ProcessWorks(c: Config, st: Link)
    requires Enabled(c, st, Process) && st.device.stage <= TrailerStage(c)
    requires st.device.stage == 0 ==> ParseCommand(st.device.buf) == CmdFwUpdate
    ensures Work(c, Do(c, st, Process)) < Work(c, st)
  {
    hide TrailerStage, SenderWork, Rest, ParseCommand, Le32, Le32Nat, ReadBack, Crc, Complement, GoodSize, Seen,
         PhaseOf, Loading, Wanted, LineFraming.Complete, Payload;
  }

  /** A finished flash step is answered. */
  lemma FinishWorks(c: Config, st: Link)
    requires Enabled(c, st, Finish) && st.device.stage <= TrailerStage(c)
    ensures Work(c, Do(c, st, Finish)) < Work(c, st)
  {
    hide TrailerStage, SenderWork, Rest, Loading, Offset, StoredMem, AsMemory, Fold, Payload;
  }

  lemma RequestWasRead(c: Config, st: Link)
    requires Inv(c, st) && Enabled(c, st, Process) && st.device.stage == 0
    ensures ParseCommand(st.device.buf) == CmdFwUpdate
  {
    hide Inv, Context, InStep, ParseCommand, Payload;
    WhoActs(c, st, Process);
    DoneIff(c, st);
    StageZero(c);
    RequestParses();
  }

  lemma SendWorks(c: Config, st: Link, n: nat)
    requires Enabled(c, st, Send(n))
    ensures Work(c, Do(c, st, Send(n))) < Work(c, st)
  {
    hide TrailerStage, Rest, Payload, DeviceWork;
  }

  lemma ReceiveWorks(c: Config, st: Link, n: nat)
    requires Enabled(c, st, Receive(n))
    ensures Work(c, Do(c, st, Receive(n))) < Work(c, st)
  {
    hide TrailerStage, Rest, Payload, SenderWork, Takes;
  }

  lemma TickWorks(c: Config, st: Link)
    requires Enabled(c, st, Tick)
    ensures Work(c, Do(c, st, Tick)) < Work(c, st)
  {
    hide TrailerStage, SenderWork, DeviceWork;
  }

  lemma StepWorks(c: Config, st: Link, a: Action)
    requires Inv(c, st) && Enabled(c, st, a)
    ensures Work(c, Do(c, st, a)) < Work(c, st)
  {
    hide Inv, Work, Do, TrailerStage, ReadDone, Takes, ParseCommand;
    StageInRange(c, st);
    match a
    case Send(n) => SendWorks(c, st, n);
    case Receive(n) => ReceiveWorks(c, st, n);
    case Tick => TickWorks(c, st);
    case ReadLine => ReadLineWorks(c, st);
    case Process =>
      if st.device.stage == 0 { RequestWasRead(c, st); }
      ProcessWorks(c, st);
    case Finish => FinishWorks(c, st);
  }

  lemma WorkIsPositive(c: Config, st: Link)
    requires Inv(c, st)
    ensures Work(c, st) >= 0
  {
    hide Inv, TrailerStage, SenderWork;
    StageInRange(c, st);
  }

  lemma {:induction false} RunWorks(c: Config, st: Link, actions: seq<Action>, end: Link)
    requires Inv(c, st) && Leads(c, st, actions, end)
    ensures Inv(c, end) && |actions| + Work(c, end) <= Work(c, st)
    decreases |actions|
  {
    hide Inv, Do, Enabled, Work;
    if actions != [] {
      StepKeeps(c, st, actions[0]);
      StepWorks(c, st, actions[0]);
      RunWorks(c, Do(c, st, actions[0]), actions[1..], end);
    }
  }

  // --------------------------------------------------------------- progress

  predicate Finished(st: Link) {
    !st.sender.Sending? && (st.device.Resetting? || st.device.Aborted?)
  }

  lemma InStepMoves(c: Config, st: Link) returns (a: Action)
    requires Context(c, st) && InStep(c, st)
    ensures Enabled(c, st, a)
  {
    hide Context, Payload, TrailerStage, ReadDone, Takes, Waiting, Informed, Telemetries;
    DoneIff(c, st);
    a := if st.sender.todo != [] then Send(1) else if st.wire != [] then Receive(1) else Process;
  }

  lemma OverMoves(c: Config, st: Link)
    requires Over(c, st) && !Finished(st)
    ensures Enabled(c, st, ReadLine)
  {
    hide Crc, TrailerStage;
  }

  /** No reachable state is deadlocked before both sides are finished. */
  lemma NoDeadlock(c: Config, st: Link)
    requires Inv(c, st) && !Finished(st)
    ensures exists a :: Enabled(c, st, a)
  {
    hide Context, Over, InStep, Finished, Payload, TrailerStage, Expected, Waiting, Informed, Telemetries, Crc;
    if InStep(c, st) {
      var a := InStepMoves(c, st);
    } else if Over(c, st) {
      OverMoves(c, st);
    } else {
      assert Enabled(c, st, if Working(c, st) then Finish else ReadLine);
    }
  }

  lemma FinishedMeans(c: Config, st: Link)
    requires Inv(c, st) && Finished(st)
    ensures if c.crc == Crc(c.image)
            then st.sender.Succeeded? && st.device.Resetting? && st.mem == c.l.markUpdated(Staged(c.m0, c.image))
            else st.sender.Died? && st.device.Aborted? && st.mem == Staged(c.m0, c.image)
  {
    hide Staged, Fold, Sound, Crc, Payload, TrailerStage, Telemetries;
  }

  /**
   The composition theorem. For every image of 1 to 262144 bytes and every
   interleaving with at most fourteen telemetry lines before the request is
   read: whenever the device is in a flash step the line to it is silent; the
   run is bounded; and where it cannot go on, sender and device agree - the
   image is in the partition and marked if the announced CRC is the image's, and
   otherwise nothing is marked and both gave up.
   */
  lemma UpdateCompletes(c: Config, actions: seq<Action>, end: Link)
    requires Good(c) && c.maxTicks <= 14
    requires Leads(c, Start(c), actions, end)
    ensures end.device.Busy? ==> end.wire == [] && end.sender.Sending? && end.sender.todo == []
    ensures |actions| <= Work(c, Start(c))
    ensures (forall a :: !Enabled(c, end, a)) ==>
              if c.crc == Crc(c.image)
              then end.sender.Succeeded? && end.device.Resetting? && end.mem == c.l.markUpdated(Staged(c.m0, c.image))
              else end.sender.Died? && end.device.Aborted? && end.mem == Staged(c.m0, c.image)
  {
    hide Staged, Fold, Sound, Crc, Payload, Good, FlashHolds, Work, Leads, Do, Enabled;
    StartInv(c);
    RunWorks(c, Start(c), actions, end);
    WorkIsPositive(c, end);
    if forall a :: !Enabled(c, end, a) {
      if !Finished(end) { NoDeadlock(c, end); }
      FinishedMeans(c, end);
    }
  }

  /** From wherever a run has got to, it can be finished. */
  lemma {:induction false} RunsFinish(c: Config, st: Link) returns (actions: seq<Action>, end: Link)
    requires Inv(c, st)
    ensures Leads(c, st, actions, end) && Finished(end)
    decreases Work(c, st)
  {
    hide Inv, Do, Enabled, Work;
    WorkIsPositive(c, st);
    if Finished(st) {
      return [], st;
    }
    NoDeadlock(c, st);
    var a :| Enabled(c, st, a);
    StepKeeps(c, st, a);
    StepWorks(c, st, a);
    var rest;
    rest, end := RunsFinish(c, Do(c, st, a));
    actions := [a] + rest;
    assert actions[1..] == rest;
  }

  /** No step an interleaving has taken can spoil a correct update: every run so far extends to a successful one. */
  lemma SuccessStaysReachable(c: Config, actions: seq<Action>, st: Link)
    requires Good(c) && c.maxTicks <= 14 && c.crc == Crc(c.image)
    requires Leads(c, Start(c), actions, st)
    ensures exists more, end :: Leads(c, st, more, end) && end.sender.Succeeded?
                             && end.mem == c.l.markUpdated(Staged(c.m0, c.image))
  {
    hide Staged, Crc, Inv, Good, Leads, Finished;
    StartInv(c);
    RunKeepsInv(c, Start(c), actions, st);
    var more, end := RunsFinish(c, st);
    RunKeepsInv(c, st, more, end);
    FinishedMeans(c, end);
  }

  // ------------------------------------------------------- the sender's limit

  function Times(a: Action, n: nat): (r: seq<Action>)
    ensures |r| == n
  {
    seq(n, _ => a)
  }

  lemma {:induction false} LeadsOn(c: Config, st: Link, x: seq<Action>, mid: Link, y: seq<Action>, end: Link)
    requires Leads(c, st, x, mid) && Leads(c, mid, y, end)
    ensures Leads(c, st, x + y, end)
    decreases |x|
  {
    hide Do, Enabled;
    if x == [] {
      assert x + y == y;
    } else {
      assert (x + y)[1..] == x[1..] + y;
      LeadsOn(c, Do(c, st, x[0]), x[1..], mid, y, end);
    }
  }

  /** `n` telemetry lines queue up while the request is on its way. */
  lemma {:induction false} ManyTicks(c: Config, st: Link, n: nat)
    requires st.device.Reading? && st.device.stage == 0 && st.ticks + n <= c.maxTicks
    ensures Leads(c, st, Times(Tick, n), st.(replies := st.replies + Telemetries(n), ticks := st.ticks + n))
    decreases n
  {
    if n == 0 {
      assert st.replies + Telemetries(0) == st.replies;
    } else {
      var next := Do(c, st, Tick);
      ManyTicks(c, next, n - 1);
      assert next.replies + Telemetries(n - 1) == st.replies + Telemetries(n);
      assert Times(Tick, n)[1..] == Times(Tick, n - 1);
    }
  }

  /** The sender reads telemetry until its patience is gone. */
  lemma {:induction false} ManyReads(c: Config, st: Link)
    requires st.sender.Sending? && st.sender.stage == 0 && st.sender.todo == [] && 0 < st.sender.patience
    requires st.replies == Telemetries(st.sender.patience)
    ensures Leads(c, st, Times(ReadLine, st.sender.patience), st.(sender := Died, replies := []))
    decreases st.sender.patience
  {
    hide DoProcess, DoFinish, Payload;
    var next := Do(c, st, ReadLine);
    var p := st.sender.patience;
    assert st.replies[1..] == Telemetries(p - 1);
    assert Times(ReadLine, p)[1..] == Times(ReadLine, p - 1);
    if p > 1 {
      ManyReads(c, next);
    } else {
      assert Leads(c, next, [], next);
    }
  }

  /**
   Fourteen is exact: one more telemetry line before the answer, and there is a
   run in which the sender gives up on a healthy device and a good image.
   */
  lemma FifteenLinesDefeatTheSender(c: Config)
    requires c.maxTicks >= 15
    ensures exists actions, end :: Leads(c, Start(c), actions, end) && end.sender.Died?
  {
    var st0 := Start(c);
    var st1 := Do(c, st0, Send(|REQUEST|));
    assert Times(Send(|REQUEST|), 1)[1..] == [];
    assert Leads(c, st0, Times(Send(|REQUEST|), 1), st1);
    ManyTicks(c, st1, PATIENCE);
    var st2 := st1.(replies := st1.replies + Telemetries(PATIENCE), ticks := st1.ticks + PATIENCE);
    assert st2.replies == Telemetries(PATIENCE);
    ManyReads(c, st2);
    var st3 := st2.(sender := Died, replies := []);
    LeadsOn(c, st0, Times(Send(|REQUEST|), 1), st1, Times(Tick, PATIENCE), st2);
    LeadsOn(c, st0, Times(Send(|REQUEST|), 1) + Times(Tick, PATIENCE), st2, Times(ReadLine, PATIENCE), st3);
  }
}
