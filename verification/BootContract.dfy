/**
 What this firmware relies on of embassy-boot, which is not part of the
 repository: the bootloader's `prepare` and the state-sector operations, as the
 comments of bootloader/src/main.rs and src/fw_update.rs describe them.

 A swap or a revert is atomic here: a power cut inside `prepare` is taken to be
 resumed at the next boot. Everything proved about whole runs is proved for
 every loader that meets `Sound`, and `REFERENCE_LOADER` shows that one does.
 */
module BootContract {
  import opened Nor
  import opened Layout

  /** How far an update has come, as recorded in the state sector. */
  datatype Phase =
    | Idle      // nothing pending
    | Marked    // DFU holds a new image, not yet swapped in
    | Swapped   // the new image is in ACTIVE, unconfirmed
    | Reverted  // the previous image was brought back
    | Detached

  /** What `get_state` tells the application. */
  datatype State = Boot | Swap | Revert | DfuDetach

  function Seen(p: Phase): State {
    match p
    case Idle => Boot
    case Marked => Swap
    case Swapped => Swap
    case Reverted => Revert
    case Detached => DfuDetach
  }

  datatype Loader = Loader(
    phase: seq<byte> -> Phase,         // read off the state sector
    saved: seq<byte> -> seq<byte>,     // the image a swapped DFU partition holds
    prepare: seq<byte> -> seq<byte>,   // memory after `BootLoader::prepare`
    markUpdated: seq<byte> -> seq<byte>,
    markBooted: seq<byte> -> seq<byte>
  )

  function PhaseOf(l: Loader, m: Memory): Phase {
    l.phase(StateOf(m))
  }

  ghost predicate MarksUpdated(l: Loader, m: Memory) {
    var r := l.markUpdated(m);
    SameOutside(m, r, STATE, STATE + SECTOR_SIZE) && PhaseOf(l, r) == Marked
  }

  ghost predicate MarksBooted(l: Loader, m: Memory) {
    var r := l.markBooted(m);
    SameOutside(m, r, STATE, STATE + SECTOR_SIZE) && PhaseOf(l, r) == Idle
  }

  ghost predicate Prepares(l: Loader, m: Memory) {
    var r := l.prepare(m);
    && |r| == FLASH_SIZE
    && SettingsOf(r) == SettingsOf(m)
    && match PhaseOf(l, m)
       case Marked =>
         && ActiveOf(r) == DfuOf(m)[..ACTIVE_SIZE]
         && l.saved(DfuOf(r)) == ActiveOf(m)
         && PhaseOf(l, r) == Swapped
       case Swapped =>
         && ActiveOf(r) == l.saved(DfuOf(m))
         && PhaseOf(l, r) == Reverted
       case _ => r == m
  }

  ghost predicate Sound(l: Loader) {
    forall m: Memory :: MarksUpdated(l, m) && MarksBooted(l, m) && Prepares(l, m)
  }

  /** A mark touches the state sector only. */
  lemma MarkKeepsPartitions(m: Memory, r: Memory)
    requires SameOutside(m, r, STATE, STATE + SECTOR_SIZE)
    ensures ActiveOf(r) == ActiveOf(m) && DfuOf(r) == DfuOf(m) && SettingsOf(r) == SettingsOf(m)
  {
    OtherRegion(m, r, STATE, STATE + SECTOR_SIZE, ACTIVE, ACTIVE_SIZE);
    OtherRegion(m, r, STATE, STATE + SECTOR_SIZE, DFU, DFU_SIZE);
    OtherRegion(m, r, STATE, STATE + SECTOR_SIZE, SETTINGS, SECTOR_SIZE);
  }

  // ------------------------------------------------------------- a sound one

  function Splice(m: seq<byte>, at: nat, data: seq<byte>): (r: seq<byte>)
    requires at + |data| <= |m|
    ensures |r| == |m|
    ensures r[at..at + |data|] == data
    ensures SameOutside(m, r, at, at + |data|)
  {
    m[..at] + data + m[at + |data|..]
  }

  function Magic(p: Phase): byte {
    match p
    case Idle => 0xD0
    case Marked => 0xF0
    case Swapped => 0xF1
    case Reverted => 0xC0
    case Detached => 0xE0
  }

  function ReferencePhase(s: seq<byte>): Phase {
    if s == [] then Idle
    else if s[0] == 0xF0 then Marked
    else if s[0] == 0xF1 then Swapped
    else if s[0] == 0xC0 then Reverted
    else if s[0] == 0xE0 then Detached
    else Idle
  }

  function WithPhase(m: seq<byte>, p: Phase): seq<byte> {
    if |m| == FLASH_SIZE then Splice(m, STATE, [Magic(p)]) else m
  }

  /** The old image is kept one sector into the DFU partition, which is why DFU is a sector larger than ACTIVE. */
  function ReferenceSaved(dfu: seq<byte>): seq<byte> {
    if |dfu| == DFU_SIZE then dfu[SECTOR_SIZE..] else []
  }

  function Exchange(m: Memory, active: seq<byte>, saved: seq<byte>, p: Phase): (r: seq<byte>)
    requires |active| == ACTIVE_SIZE && |saved| == ACTIVE_SIZE
  {
    WithPhase(Splice(Splice(m, ACTIVE, active), DFU + SECTOR_SIZE, saved), p)
  }

  function ReferencePrepare(m: seq<byte>): seq<byte> {
    if |m| != FLASH_SIZE then m
    else match ReferencePhase(StateOf(m))
      case Marked => Exchange(m, DfuOf(m)[..ACTIVE_SIZE], ActiveOf(m), Swapped)
      case Swapped => Exchange(m, ReferenceSaved(DfuOf(m)), ActiveOf(m), Reverted)
      case _ => m
  }

  const REFERENCE_LOADER: Loader := Loader(
    ReferencePhase, ReferenceSaved, ReferencePrepare,
    (m: seq<byte>) => WithPhase(m, Marked),
    (m: seq<byte>) => WithPhase(m, Idle))

  lemma WithPhaseSets(m: Memory, p: Phase)
    ensures SameOutside(m, WithPhase(m, p), STATE, STATE + SECTOR_SIZE)
    ensures ReferencePhase(StateOf(WithPhase(m, p))) == p
  {
    assert StateOf(WithPhase(m, p))[0] == WithPhase(m, p)[STATE..STATE + 1][0];
  }

  lemma ExchangeSets(m: Memory, active: seq<byte>, saved: seq<byte>, p: Phase)
    requires |active| == ACTIVE_SIZE && |saved| == ACTIVE_SIZE
    ensures var r := Exchange(m, active, saved, p);
            && |r| == FLASH_SIZE
            && ActiveOf(r) == active && ReferenceSaved(DfuOf(r)) == saved
            && SettingsOf(r) == SettingsOf(m) && ReferencePhase(StateOf(r)) == p
  {
    hide Splice, SameOutside, ReferencePhase, StateOf;
    var m1: Memory := Splice(m, ACTIVE, active);
    var m2: Memory := Splice(m1, DFU + SECTOR_SIZE, saved);
    OtherRegion(m, m1, ACTIVE, ACTIVE + ACTIVE_SIZE, SETTINGS, SECTOR_SIZE);
    OtherRegion(m1, m2, DFU + SECTOR_SIZE, DFU + DFU_SIZE, SETTINGS, SECTOR_SIZE);
    OtherRegion(m1, m2, DFU + SECTOR_SIZE, DFU + DFU_SIZE, ACTIVE, ACTIVE_SIZE);
    WithPhaseSets(m2, p);
    MarkKeepsPartitions(m2, WithPhase(m2, p));
    assert DfuOf(m2)[SECTOR_SIZE..] == m2[DFU + SECTOR_SIZE..DFU + SECTOR_SIZE + ACTIVE_SIZE];
  }

  /** The contract can be met. */
  lemma ReferenceLoaderIsSound()
    ensures Sound(REFERENCE_LOADER)
  {
    forall m: Memory
      ensures MarksUpdated(REFERENCE_LOADER, m) && MarksBooted(REFERENCE_LOADER, m) && Prepares(REFERENCE_LOADER, m)
    {
      ReferenceLoaderMeets(m);
    }
  }

  lemma ReferenceLoaderMeets(m: Memory)
    ensures MarksUpdated(REFERENCE_LOADER, m) && MarksBooted(REFERENCE_LOADER, m) && Prepares(REFERENCE_LOADER, m)
  {
    hide Splice, SameOutside, Exchange, WithPhase, ReferencePhase, StateOf, ActiveOf, DfuOf, SettingsOf;
    WithPhaseSets(m, Marked);
    WithPhaseSets(m, Idle);
    ExchangeSets(m, DfuOf(m)[..ACTIVE_SIZE], ActiveOf(m), Swapped);
    ExchangeSets(m, ReferenceSaved(DfuOf(m)), ActiveOf(m), Reverted);
  }
}
