/**
 The A/B life cycle of the device over whole runs: the application (first-tick
 confirmation in src/main.rs, transactions of src/fw_update.rs, settings), the
 bootloader (bootloader/src/main.rs) and resets at any moment.

 The guards that live in this repository - stage only when no swap is pending,
 mark only after verification, confirm only in `Swap` and only on the first
 tick - are what keeps a confirmed image recoverable.
 */
module Lifecycle {
  import opened Nor
  import opened Layout
  import opened Crc32
  import opened BootContract
  import opened Staging
  import opened FwUpdate
  import opened UpdateSafety

  /** What was verified when an update was last marked. */
  datatype Candidate = Candidate(partition: seq<byte>, len: nat, crc: bv32)

  /**
   `m` and `ticked` (`boot_confirmed` of the main loop) are the device; `up` is
   false from a commit until the reset that follows it. `good` is the image that
   was last confirmed, `candidate` the last one marked.
   */
  datatype Device = Device(m: Memory, up: bool, ticked: bool, good: seq<byte>, candidate: Candidate)

  /** One complete transaction; committing resets the device. */
  ghost predicate Transact(l: Loader, d: Device, d': Device, healthy: bool, s: seq<byte>, r: Report, mv: Memory,
                           rest: seq<byte>) {
    && d.up
    && Transaction(l, healthy, s, d.m, r, mv, rest, d'.m)
    && d' == d.(m := d'.m,
                up := r.outcome != Updated,
                candidate := if r.outcome in {MarkFailed, Updated}
                             then Candidate(DfuOf(mv), r.offset, Trailer(s)) else d.candidate)
  }

  /**
   Power is cut inside a transaction before the mark: any part of the partition
   may have changed, if staging had begun. A cut after the mark is a `Transact`
   followed by a `Reset`.
   */
  ghost predicate CutUpdate(l: Loader, d: Device, d': Device) {
    && d.up
    && (Seen(PhaseOf(l, d.m)) == Swap ==> d'.m == d.m)
    && SameOutside(d.m, d'.m, DFU, DFU + DFU_SIZE)
    && d' == d.(m := d'.m, up := false)
  }

  /** A telemetry tick. Only the first after a boot looks at the state, and it confirms only a swap. */
  ghost predicate Tick(l: Loader, d: Device, d': Device, marked: bool) {
    && d.up
    && var confirms := !d.ticked && Seen(PhaseOf(l, d.m)) == Swap && marked;
       && |l.markBooted(d.m)| == FLASH_SIZE
       && d' == d.(m := if confirms then l.markBooted(d.m) else d.m,
                   ticked := true,
                   good := if confirms then ActiveOf(d.m) else d.good)
  }

  /** Any write of the settings store, complete or torn. */
  ghost predicate SettingsWrite(d: Device, d': Device) {
    && d.up
    && SameOutside(d.m, d'.m, SETTINGS, SETTINGS + SECTOR_SIZE)
    && d' == d.(m := d'.m)
  }

  /** Watchdog, power loss, panic or commit: the bootloader runs and starts what is in ACTIVE. */
  ghost predicate Reset(l: Loader, d: Device, d': Device) {
    && |l.prepare(d.m)| == FLASH_SIZE
    && d' == d.(m := l.prepare(d.m), up := true, ticked := false)
  }

  ghost predicate Next(l: Loader, d: Device, d': Device) {
    || (exists healthy, s, r, mv, rest :: Transact(l, d, d', healthy, s, r, mv, rest))
    || CutUpdate(l, d, d')
    || (exists marked :: Tick(l, d, d', marked))
    || SettingsWrite(d, d')
    || Reset(l, d, d')
  }

  // -------------------------------------------------------------- invariant

  /** The CRC the sender announced is the CRC of the bytes that were in the partition when it was marked. */
  ghost predicate Vetted(c: Candidate) {
    c.len <= MAX_IMAGE_SIZE && |c.partition| == DFU_SIZE && Crc(c.partition[..c.len]) == c.crc
  }

  ghost predicate Inv(l: Loader, d: Device) {
    match PhaseOf(l, d.m)
    case Marked => ActiveOf(d.m) == d.good && DfuOf(d.m) == d.candidate.partition && Vetted(d.candidate)
    case Swapped =>
      && l.saved(DfuOf(d.m)) == d.good
      && Vetted(d.candidate) && ActiveOf(d.m) == d.candidate.partition[..ACTIVE_SIZE]
    case _ => ActiveOf(d.m) == d.good
  }

  lemma UpdateKeepsInv(l: Loader, d: Device, d': Device, healthy: bool, s: seq<byte>, r: Report, mv: Memory,
                       rest: seq<byte>)
    requires Sound(l) && Inv(l, d) && Transact(l, d, d', healthy, s, r, mv, rest)
    ensures Inv(l, d')
  {
    hide Crc, Staged, Le32Nat, Le32;
    CommitOnlyAfterVerification(l, healthy, s, d.m, r, mv, rest, d'.m);
    OtherRegion(d.m, mv, DFU, DFU + DFU_SIZE, STATE, SECTOR_SIZE);
    OtherRegion(d.m, mv, DFU, DFU + DFU_SIZE, ACTIVE, ACTIVE_SIZE);
    assert MarksUpdated(l, mv);
    if r.outcome in {MarkFailed, Updated} {
      assert DfuOf(mv)[..r.offset] == ReadBack(mv, r.offset);
      if d'.m == l.markUpdated(mv) {
        MarkKeepsPartitions(mv, d'.m);
      }
    }
  }

  lemma CutKeepsInv(l: Loader, d: Device, d': Device)
    requires Inv(l, d) && CutUpdate(l, d, d')
    ensures Inv(l, d')
  {
    hide Crc;
    OtherRegion(d.m, d'.m, DFU, DFU + DFU_SIZE, STATE, SECTOR_SIZE);
    OtherRegion(d.m, d'.m, DFU, DFU + DFU_SIZE, ACTIVE, ACTIVE_SIZE);
  }

  lemma TickKeepsInv(l: Loader, d: Device, d': Device, marked: bool)
    requires Sound(l) && Inv(l, d) && Tick(l, d, d', marked)
    ensures Inv(l, d')
  {
    hide Crc;
    assert MarksBooted(l, d.m);
    MarkKeepsPartitions(d.m, l.markBooted(d.m));
  }

  lemma SettingsKeepInv(l: Loader, d: Device, d': Device)
    requires Inv(l, d) && SettingsWrite(d, d')
    ensures Inv(l, d')
  {
    hide Crc;
    OtherRegion(d.m, d'.m, SETTINGS, SETTINGS + SECTOR_SIZE, STATE, SECTOR_SIZE);
    OtherRegion(d.m, d'.m, SETTINGS, SETTINGS + SECTOR_SIZE, ACTIVE, ACTIVE_SIZE);
    OtherRegion(d.m, d'.m, SETTINGS, SETTINGS + SECTOR_SIZE, DFU, DFU_SIZE);
  }

  lemma ResetKeepsInv(l: Loader, d: Device, d': Device)
    requires Sound(l) && Inv(l, d) && Reset(l, d, d')
    ensures Inv(l, d')
  {
    hide Crc;
    assert Prepares(l, d.m);
  }

  lemma NextKeepsInv(l: Loader, d: Device, d': Device)
    requires Sound(l) && Inv(l, d) && Next(l, d, d')
    ensures Inv(l, d')
  {
    hide Inv, Transact, CutUpdate, Tick, SettingsWrite, Reset, Sound;
    if healthy, s, r, mv, rest :| Transact(l, d, d', healthy, s, r, mv, rest) {
      UpdateKeepsInv(l, d, d', healthy, s, r, mv, rest);
    } else if CutUpdate(l, d, d') {
      CutKeepsInv(l, d, d');
    } else if marked :| Tick(l, d, d', marked) {
      TickKeepsInv(l, d, d', marked);
    } else if SettingsWrite(d, d') {
      SettingsKeepInv(l, d, d');
    } else {
      ResetKeepsInv(l, d, d');
    }
  }

  // ------------------------------------------------------------------ runs

  /** A device as installed: a known good image and no update pending. */
  ghost predicate AsInstalled(l: Loader, d: Device) {
    PhaseOf(l, d.m) == Idle && d.good == ActiveOf(d.m)
  }

  ghost predicate IsRun(l: Loader, run: seq<Device>) {
    && run != []
    && AsInstalled(l, run[0])
    && forall i :: 0 <= i < |run| - 1 ==> Next(l, run[i], run[i + 1])
  }

  lemma {:induction false} RunKeepsInv(l: Loader, run: seq<Device>, i: nat)
    requires Sound(l) && IsRun(l, run) && i < |run|
    ensures Inv(l, run[i])
  {
    if i > 0 {
      RunKeepsInv(l, run, i - 1);
      assert Next(l, run[i - 1], run[i - 1 + 1]);
      NextKeepsInv(l, run[i - 1], run[i]);
    }
  }

  /**
   Rollback safety: at every moment of every run the last confirmed image is in
   ACTIVE, or it is kept in the DFU partition and the next unconfirmed reset
   brings it back. Whatever else ACTIVE holds has passed verification.
   */
  lemma RollbackSafety(l: Loader, run: seq<Device>, i: nat)
    requires Sound(l) && IsRun(l, run) && i < |run|
    ensures var d := run[i];
            || ActiveOf(d.m) == d.good
            || (&& PhaseOf(l, d.m) == Swapped
                && l.saved(DfuOf(d.m)) == d.good
                && |l.prepare(d.m)| == FLASH_SIZE
                && ActiveOf(l.prepare(d.m)) == d.good
                && Vetted(d.candidate)
                && ActiveOf(d.m) == d.candidate.partition[..ACTIVE_SIZE])
  {
    hide Crc;
    RunKeepsInv(l, run, i);
    assert Prepares(l, run[i].m);
  }

  /** Two resets in a row, with no confirming tick between them, restore the last confirmed image for good. */
  lemma TwoResetsRestore(l: Loader, run: seq<Device>, i: nat, d1: Device, d2: Device, d3: Device)
    requires Sound(l) && IsRun(l, run) && i < |run|
    requires Reset(l, run[i], d1) && Reset(l, d1, d2) && Reset(l, d2, d3)
    ensures ActiveOf(d2.m) == run[i].good == d2.good
    ensures Seen(PhaseOf(l, d2.m)) != Swap
    ensures d3.m == d2.m
  {
    hide Crc;
    RunKeepsInv(l, run, i);
    ResetKeepsInv(l, run[i], d1);
    ResetKeepsInv(l, d1, d2);
    assert Prepares(l, run[i].m) && Prepares(l, d1.m) && Prepares(l, d2.m);
  }

  /**
   Updating works: a committed transaction followed by a reset runs exactly the
   image that was received, and the first tick makes it the good one.
   */
  lemma UpdateTakesEffect(l: Loader, d: Device, d1: Device, d2: Device, d3: Device,
                          s: seq<byte>, r: Report, mv: Memory, rest: seq<byte>)
    requires Sound(l) && Inv(l, d)
    requires Transact(l, d, d1, true, s, r, mv, rest) && r.outcome == Updated
    requires Reset(l, d1, d2) && Tick(l, d2, d3, true)
    ensures ActiveOf(d2.m)[..ImageLen(s)] == Image(s)
    ensures d2.good == ActiveOf(d.m)
    ensures d3.good == ActiveOf(d3.m) == ActiveOf(d2.m) && PhaseOf(l, d3.m) == Idle
  {
    hide Crc, Staged, Le32Nat, Le32;
    CommitOnlyAfterVerification(l, true, s, d.m, r, mv, rest, d1.m);
    StagedKeeps(d.m, Image(s));
    assert DfuOf(mv)[..ImageLen(s)] == mv[DFU..DFU + ImageLen(s)];
    assert MarksUpdated(l, mv) && Prepares(l, d1.m) && MarksBooted(l, d2.m);
    MarkKeepsPartitions(d2.m, d3.m);
    assert DfuOf(mv)[..ACTIVE_SIZE][..ImageLen(s)] == DfuOf(mv)[..ImageLen(s)];
  }

  /** What confirming means: exactly the first tick after booting into a swap makes the running image the good one. */
  lemma ConfirmationIff(l: Loader, run: seq<Device>, i: nat, marked: bool, d': Device)
    requires Sound(l) && IsRun(l, run) && i < |run|
    requires Tick(l, run[i], d', marked)
    ensures Inv(l, d')
    ensures PhaseOf(l, run[i].m) == Swapped ==> (Seen(PhaseOf(l, d'.m)) != Swap <==> !run[i].ticked && marked)
    ensures d'.good != run[i].good ==> PhaseOf(l, run[i].m) == Swapped
    ensures d'.good != run[i].good ==> d'.good == ActiveOf(run[i].m) && Vetted(run[i].candidate)
  {
    hide Crc;
    RunKeepsInv(l, run, i);
    TickKeepsInv(l, run[i], d', marked);
    assert MarksBooted(l, run[i].m);
  }

  /** Where the reference loader keeps the first byte of the image to fall back to. */
  lemma FirstSavedByte(m: Memory)
    ensures REFERENCE_LOADER.saved(DfuOf(m)) != []
    ensures REFERENCE_LOADER.saved(DfuOf(m))[0] == m[DFU + SECTOR_SIZE]
  {
    assert REFERENCE_LOADER.saved(DfuOf(m)) == ReferenceSaved(DfuOf(m)) == DfuOf(m)[SECTOR_SIZE..];
    assert DfuOf(m)[SECTOR_SIZE] == m[DFU + SECTOR_SIZE];
  }

  /**
   The staging guard is needed: if a transaction could touch the partition while
   a swap is unconfirmed, the image to fall back to would be lost.
   */
  lemma StagingGuardNeeded(m: Memory)
    requires PhaseOf(REFERENCE_LOADER, m) == Swapped
    ensures exists m': Memory :: SameOutside(m, m', DFU, DFU + DFU_SIZE)
              && PhaseOf(REFERENCE_LOADER, m') == Swapped
              && |REFERENCE_LOADER.prepare(m')| == FLASH_SIZE
              && ActiveOf(REFERENCE_LOADER.prepare(m')) != REFERENCE_LOADER.saved(DfuOf(m))
  {
    hide StateOf, ActiveOf, DfuOf, SettingsOf, ReferencePhase, ReferencePrepare, ReferenceSaved;
    var at := DFU + SECTOR_SIZE;
    FlippedByteDiffers(m[at]);
    var m': Memory := m[at := !m[at]];
    SameState(m, m');
    ReferenceLoaderMeets(m');
    FirstSavedByte(m);
    FirstSavedByte(m');
  }

  lemma SameState(m: Memory, m': Memory)
    requires SameOutside(m, m', DFU, DFU + DFU_SIZE)
    ensures StateOf(m') == StateOf(m)
  {
    hide SameOutside;
    OtherRegion(m, m', DFU, DFU + DFU_SIZE, STATE, SECTOR_SIZE);
  }

  lemma FlippedByteDiffers(b: byte)
    ensures !b != b
  {
  }
}
