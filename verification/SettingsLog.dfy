/**
 The settings log (src/flash_store.rs) as a value: sixteen one-page slots in a
 single flash sector stand in for a two-field record.

 Main results: over every history of commands, clean reboots, sector wraps and
 power cuts the log behaves as a record and a slot counter; exactly when a cut
 can lose the setting; exactly which sectors the log works on; and exactly how
 many erases a history costs.
 */
module SettingsLog {
  import opened Nor
  import opened Wrappers

  const SLOTS: nat := 16

  datatype PowerState = PowerOff | PowerOn
  datatype RestoreMode = RestoreOff | RestoreOn | RestoreLastState
  datatype Entry = Entry(power: PowerState, mode: RestoreMode)

  const DEFAULT: Entry := Entry(PowerOff, RestoreOff)

  function PowerByte(p: PowerState): byte {
    match p
    case PowerOff => 0
    case PowerOn => 1
  }

  function ModeByte(m: RestoreMode): byte {
    match m
    case RestoreOff => 0
    case RestoreOn => 1
    case RestoreLastState => 2
  }

  function PowerFromByte(b: byte): Option<PowerState> {
    if b == 0 then Some(PowerOff) else if b == 1 then Some(PowerOn) else None
  }

  function ModeFromByte(b: byte): Option<RestoreMode> {
    if b == 0 then Some(RestoreOff) else if b == 1 then Some(RestoreOn)
    else if b == 2 then Some(RestoreLastState) else None
  }

  /** What a slot beginning with bytes `b0`, `b1` says. */
  function Decode(b0: byte, b1: byte): Option<Entry> {
    if b0 != BLANK && PowerFromByte(b0).Some? && ModeFromByte(b1).Some?
    then Some(Entry(PowerFromByte(b0).value, ModeFromByte(b1).value))
    else None
  }

  type Sector = s: seq<byte> | |s| == SECTOR_SIZE witness seq(SECTOR_SIZE, _ => BLANK)

  function SlotEntry(s: Sector, i: nat): Option<Entry>
    requires i < SLOTS
  {
    Decode(s[i * PAGE_SIZE], s[i * PAGE_SIZE + 1])
  }

  /** The format on flash: a slot holds an entry exactly if its first two bytes are that entry's codes. */
  lemma FormatIff(s: Sector, i: nat, e: Entry)
    requires i < SLOTS
    ensures SlotEntry(s, i) == Some(e) <==>
      && (s[256 * i] == (match e.power case PowerOff => 0 case PowerOn => 1))
      && (s[256 * i + 1] == (match e.mode case RestoreOff => 0 case RestoreOn => 1 case RestoreLastState => 2))
  {
    assert i * PAGE_SIZE == 256 * i;
  }

  /** The highest valid entry among the first `k` slots. */
  function LastBelow(s: Sector, k: nat): Entry
    requires k <= SLOTS
  {
    if k == 0 then DEFAULT
    else match SlotEntry(s, k - 1)
      case Some(e) => e
      case None => LastBelow(s, k - 1)
  }

  /** What `read_last_entry` recovers. */
  function LastEntry(s: Sector): Entry {
    LastBelow(s, SLOTS)
  }

  function FreeFrom(s: Sector, i: nat): (k: nat)
    requires i <= SLOTS
    ensures i <= k <= SLOTS
    ensures forall j :: i <= j < k ==> s[j * PAGE_SIZE] != BLANK
    ensures k < SLOTS ==> s[k * PAGE_SIZE] == BLANK
    decreases SLOTS - i
  {
    if i == SLOTS || s[i * PAGE_SIZE] == BLANK then i else FreeFrom(s, i + 1)
  }

  /** The first slot whose first byte is blank; `SLOTS` when there is none. */
  function Used(s: Sector): nat {
    FreeFrom(s, 0)
  }

  lemma FreeStep(s: Sector, i: nat)
    requires i <= SLOTS
    ensures i == SLOTS ==> FreeFrom(s, i) == SLOTS
    ensures i < SLOTS ==> FreeFrom(s, i) == if s[i * PAGE_SIZE] == BLANK then i else FreeFrom(s, i + 1)
  {
  }

  predicate Full(s: Sector) {
    Used(s) == SLOTS
  }

  /** The page `write_entry` programs. */
  function Page(e: Entry): (page: seq<byte>)
    ensures |page| == PAGE_SIZE
  {
    [PowerByte(e.power), ModeByte(e.mode)] + seq(PAGE_SIZE - 2, _ => BLANK)
  }

  /** The sector `write_entry` programs into, erased first when it is full. */
  function Target(s: Sector): Sector {
    if Full(s) then Erased(s, 0, SECTOR_SIZE) else s
  }

  function TargetSlot(s: Sector): (k: nat)
    ensures k < SLOTS
  {
    if Full(s) then 0 else Used(s)
  }

  /** The sector after `write_entry`. */
  function Append(s: Sector, e: Entry): Sector {
    Programmed(Target(s), TargetSlot(s) * PAGE_SIZE, Page(e))
  }

  /**
   The invariant of the log: behind the used prefix everything is blank. Used
   slots may hold junk.
   */
  ghost predicate WellFormed(s: Sector) {
    Blank(s, Used(s) * PAGE_SIZE, SECTOR_SIZE)
  }

  // -------------------------------------------------- one program into a slot

  lemma {:induction false} SameSlotsSameEntry(s: Sector, r: Sector, k: nat)
    requires k <= SLOTS
    requires forall i :: 0 <= i < k ==> SlotEntry(s, i) == SlotEntry(r, i)
    ensures LastBelow(s, k) == LastBelow(r, k)
  {
    if k > 0 { SameSlotsSameEntry(s, r, k - 1); }
  }

  lemma {:induction false} SkipInvalid(s: Sector, lo: nat, hi: nat)
    requires lo <= hi <= SLOTS
    requires forall i :: lo <= i < hi ==> SlotEntry(s, i) == None
    ensures LastBelow(s, hi) == LastBelow(s, lo)
  {
    if lo < hi { SkipInvalid(s, lo, hi - 1); }
  }

  lemma UsedIs(s: Sector, k: nat)
    requires k <= SLOTS
    requires forall i :: 0 <= i < k ==> s[i * PAGE_SIZE] != BLANK
    requires k < SLOTS ==> s[k * PAGE_SIZE] == BLANK
    ensures Used(s) == k
  {
  }

  lemma DecodeEncoded(e: Entry)
    ensures Decode(PowerByte(e.power), ModeByte(e.mode)) == Some(e)
    ensures PowerByte(e.power) != BLANK
  {
  }

  lemma DecodeBlank(b: byte)
    ensures Decode(b, BLANK) == None && Decode(BLANK, b) == None
  {
  }

  /** The bytes of slot `k` after the first `j` bytes of a page were programmed into it. */
  lemma TornBytes(s: Sector, k: nat, e: Entry, j: nat)
    requires k < SLOTS && j <= PAGE_SIZE
    ensures var r := Programmed(s, k * PAGE_SIZE, Page(e)[..j]);
            && (forall i :: 0 <= i < SECTOR_SIZE && !(k * PAGE_SIZE <= i < k * PAGE_SIZE + 2) ==> r[i] == s[i])
            && r[k * PAGE_SIZE] == (if j >= 1 then s[k * PAGE_SIZE] & PowerByte(e.power) else s[k * PAGE_SIZE])
            && r[k * PAGE_SIZE + 1]
               == (if j >= 2 then s[k * PAGE_SIZE + 1] & ModeByte(e.mode) else s[k * PAGE_SIZE + 1])
  {
    var r := Programmed(s, k * PAGE_SIZE, Page(e)[..j]);
    forall i | 0 <= i < SECTOR_SIZE && !(k * PAGE_SIZE <= i < k * PAGE_SIZE + 2) ensures r[i] == s[i] {
      AndBlank(s[i]);
    }
  }

  /** The slots after a cut `j` bytes into the page going into the free slot of a well-formed sector. */
  lemma TornSlots(s: Sector, e: Entry, j: nat, r: Sector)
    requires WellFormed(s) && !Full(s) && j <= PAGE_SIZE
    requires r == Programmed(s, Used(s) * PAGE_SIZE, Page(e)[..j])
    ensures forall i :: 0 <= i < SLOTS && i != Used(s) ==> SlotEntry(r, i) == SlotEntry(s, i)
    ensures SlotEntry(r, Used(s)) == if j >= 2 then Some(e) else None
    ensures r[Used(s) * PAGE_SIZE] == if j >= 1 then PowerByte(e.power) else BLANK
    ensures Blank(r, Used(s) * PAGE_SIZE + 2, SECTOR_SIZE)
    ensures j == 0 ==> r == s
  {
    hide Programmed, Page, PowerByte, ModeByte, PowerFromByte, ModeFromByte, FreeFrom;
    var k := Used(s);
    assert s[k * PAGE_SIZE] == BLANK && s[k * PAGE_SIZE + 1] == BLANK;
    TornBytes(s, k, e, j);
    AndBlank(PowerByte(e.power));
    AndBlank(ModeByte(e.mode));
    DecodeEncoded(e);
    DecodeBlank(PowerByte(e.power));
    forall i | 0 <= i < SLOTS && i != k ensures SlotEntry(r, i) == SlotEntry(s, i) {
      assert r[i * PAGE_SIZE] == s[i * PAGE_SIZE] && r[i * PAGE_SIZE + 1] == s[i * PAGE_SIZE + 1];
    }
    if j == 0 {
      ProgramNothing(s, k * PAGE_SIZE);
    }
  }

  /** A cut after `j` bytes of the page going into the free slot of a well-formed, not full sector. */
  lemma TornSlot(s: Sector, e: Entry, j: nat)
    requires WellFormed(s) && !Full(s) && j <= PAGE_SIZE
    ensures var r: Sector := Programmed(s, Used(s) * PAGE_SIZE, Page(e)[..j]);
            && WellFormed(r)
            && Used(r) == (if j == 0 then Used(s) else Used(s) + 1)
            && LastEntry(r) == (if j >= 2 then e else LastEntry(s))
  {
    var k := Used(s);
    var r: Sector := Programmed(s, k * PAGE_SIZE, Page(e)[..j]);
    TornSlots(s, e, j, r);
    TornPrefix(s, e, j, r);
    hide Programmed, Page, PowerByte, ModeByte, Decode;
    forall i | k < i < SLOTS ensures SlotEntry(s, i) == None {
      BlankSlot(s, i);
    }
    BlankSlot(s, k);
    SameSlotsSameEntry(s, r, k);
    SkipInvalid(s, k, SLOTS);
    SkipInvalid(r, k + 1, SLOTS);
  }

  lemma BlankSlot(s: Sector, i: nat)
    requires i < SLOTS && s[i * PAGE_SIZE] == BLANK
    ensures SlotEntry(s, i) == None
  {
  }

  lemma TornPrefix(s: Sector, e: Entry, j: nat, r: Sector)
    requires WellFormed(s) && !Full(s) && j <= PAGE_SIZE
    requires r == Programmed(s, Used(s) * PAGE_SIZE, Page(e)[..j])
    ensures Used(r) == if j == 0 then Used(s) else Used(s) + 1
    ensures WellFormed(r)
  {
    hide Programmed, Page, PowerByte, SlotEntry, FreeFrom, Decode;
    var k := Used(s);
    TornBytes(s, k, e, j);
    TornSlots(s, e, j, r);
    DecodeEncoded(e);
    if j > 0 {
      forall i | 0 <= i < k ensures r[i * PAGE_SIZE] != BLANK {
        assert r[i * PAGE_SIZE] == s[i * PAGE_SIZE];
      }
      UsedIs(r, k + 1);
    }
  }

  lemma BlankSector(s: Sector)
    requires Blank(s, 0, SECTOR_SIZE)
    ensures WellFormed(s) && Used(s) == 0 && LastEntry(s) == DEFAULT
  {
    UsedIs(s, 0);
    SkipInvalid(s, 0, SLOTS);
  }

  // ------------------------------------------------------------- power cuts

  /**
   Where power fails inside `write_entry`. Sector erases are all or nothing;
   a page program proceeds byte by byte, `Torn(j)` being a cut after `j` bytes.
   */
  datatype Cut = BeforeErase | Torn(programmed: nat)

  ghost predicate ValidCut(cut: Cut) {
    cut.Torn? ==> cut.programmed <= PAGE_SIZE
  }

  /** The sector found at the next boot. */
  function Crashed(s: Sector, e: Entry, cut: Cut): Sector
    requires cut.Torn? ==> cut.programmed <= PAGE_SIZE
  {
    match cut
    case BeforeErase => s
    case Torn(j) => Programmed(Target(s), TargetSlot(s) * PAGE_SIZE, Page(e)[..j])
  }

  /** What each cut recovers, and how many slots it leaves used. */
  lemma CrashRecovery(s: Sector, e: Entry, cut: Cut)
    requires WellFormed(s) && ValidCut(cut)
    ensures var r := Crashed(s, e, cut);
            && WellFormed(r)
            && LastEntry(r) == (if cut.BeforeErase? then LastEntry(s)
                                else if cut.programmed >= 2 then e
                                else if Full(s) then DEFAULT
                                else LastEntry(s))
            && Used(r) == (if cut.BeforeErase? then Used(s)
                           else (if Full(s) then 0 else Used(s)) + (if cut.programmed == 0 then 0 else 1))
  {
    if cut.Torn? {
      if Full(s) {
        BlankSector(Target(s));
      }
      TornSlot(Target(s), e, cut.programmed);
    }
  }

  /** A completed write is the cut after the last byte. */
  lemma AppendIsLastCut(s: Sector, e: Entry)
    ensures Append(s, e) == Crashed(s, e, Torn(PAGE_SIZE))
  {
    assert Page(e)[..PAGE_SIZE] == Page(e);
  }

  /** From a well-formed sector a write reads back, keeps the sector well formed and uses one slot. */
  lemma AppendReadsBack(s: Sector, e: Entry)
    requires WellFormed(s)
    ensures WellFormed(Append(s, e))
    ensures LastEntry(Append(s, e)) == e
    ensures Used(Append(s, e)) == if Full(s) then 1 else Used(s) + 1
  {
    AppendIsLastCut(s, e);
    CrashRecovery(s, e, Torn(PAGE_SIZE));
  }

  /** Every program lands on a fully erased page. */
  lemma AppendProgramsBlankPage(s: Sector)
    requires WellFormed(s)
    ensures Blank(Target(s), TargetSlot(s) * PAGE_SIZE, TargetSlot(s) * PAGE_SIZE + PAGE_SIZE)
  {
    if Full(s) {
      BlankSector(Target(s));
    }
    assert TargetSlot(s) * PAGE_SIZE + PAGE_SIZE <= SECTOR_SIZE;
  }

  /**
   Exactly when a power cut cannot lose the setting: unless the sector is full
   and the default differs from both the old and the new entry.
   */
  lemma CrashSafeIff(s: Sector, e: Entry)
    requires WellFormed(s)
    ensures (forall cut :: ValidCut(cut) ==> LastEntry(Crashed(s, e, cut)) in {LastEntry(s), e})
       <==> !Full(s) || LastEntry(s) == DEFAULT || e == DEFAULT
  {
    if !Full(s) || LastEntry(s) == DEFAULT || e == DEFAULT {
      forall cut | ValidCut(cut) ensures LastEntry(Crashed(s, e, cut)) in {LastEntry(s), e} {
        CrashRecovery(s, e, cut);
      }
    } else {
      CrashRecovery(s, e, Torn(0));
      assert ValidCut(Torn(0));
      assert LastEntry(Crashed(s, e, Torn(0))) == DEFAULT;
    }
  }

  // ------------------------------------------------------- arbitrary sectors

  /** No slot behind the free one decodes, and the free slot's mode bits are still erased. */
  predicate Clean(s: Sector)
    requires !Full(s)
  {
    && s[Used(s) * PAGE_SIZE + 1] & 1 == 1
    && s[Used(s) * PAGE_SIZE + 1] & 2 == 2
    && forall i :: Used(s) < i < SLOTS ==> SlotEntry(s, i) == None
  }

  /**
   From an arbitrary sector, exactly when the log works: every entry reads back
   after it is written if and only if the sector is full or its tail is clean.
   */
  lemma ReadsBackIff(s: Sector)
    ensures (forall e :: LastEntry(Append(s, e)) == e) <==> Full(s) || Clean(s)
  {
    if Full(s) {
      forall e ensures LastEntry(Append(s, e)) == e {
        FullReadsBack(s, e);
      }
    } else if Clean(s) {
      forall e ensures LastEntry(Append(s, e)) == e {
        CleanReadsBack(s, e);
      }
    } else if i :| Used(s) < i < SLOTS && SlotEntry(s, i) != None {
      StaleEntryWins(s, i);
    } else {
      var m := if s[Used(s) * PAGE_SIZE + 1] & 1 != 1 then RestoreOn else RestoreLastState;
      StuckModeBit(s, m);
    }
  }

  lemma FullReadsBack(s: Sector, e: Entry)
    requires Full(s)
    ensures LastEntry(Append(s, e)) == e
  {
    AppendIsLastCut(s, e);
    BlankSector(Target(s));
    TornSlot(Target(s), e, PAGE_SIZE);
  }

  lemma AppendSlots(s: Sector, e: Entry)
    requires !Full(s)
    ensures var r := Append(s, e);
            && SlotEntry(r, Used(s)) == Decode(PowerByte(e.power), s[Used(s) * PAGE_SIZE + 1] & ModeByte(e.mode))
            && forall i :: 0 <= i < SLOTS && i != Used(s) ==> SlotEntry(r, i) == SlotEntry(s, i)
  {
    hide Programmed, Page, PowerByte, ModeByte, PowerFromByte, ModeFromByte, Decode, FreeFrom;
    AppendIsLastCut(s, e);
    TornBytes(s, Used(s), e, PAGE_SIZE);
    AndBlank(PowerByte(e.power));
    var r := Append(s, e);
    forall i | 0 <= i < SLOTS && i != Used(s) ensures SlotEntry(r, i) == SlotEntry(s, i) {
      assert r[i * PAGE_SIZE] == s[i * PAGE_SIZE] && r[i * PAGE_SIZE + 1] == s[i * PAGE_SIZE + 1];
    }
  }

  lemma MaskKeepsMode(b: byte, m: RestoreMode)
    requires b & 1 == 1 && b & 2 == 2
    ensures b & ModeByte(m) == ModeByte(m)
  {
    assert b & 0 == 0;
  }

  lemma CleanReadsBack(s: Sector, e: Entry)
    requires !Full(s) && Clean(s)
    ensures LastEntry(Append(s, e)) == e
  {
    AppendSlots(s, e);
    MaskKeepsMode(s[Used(s) * PAGE_SIZE + 1], e.mode);
    DecodeEncoded(e);
    SkipInvalid(Append(s, e), Used(s) + 1, SLOTS);
  }

  lemma {:induction false} HighestValid(s: Sector, i: nat, k: nat)
    requires i < k <= SLOTS && SlotEntry(s, i) != None
    ensures exists j :: i <= j < k && SlotEntry(s, j) == Some(LastBelow(s, k))
  {
    if SlotEntry(s, k - 1) == None {
      HighestValid(s, i, k - 1);
    } else {
      assert SlotEntry(s, k - 1) == Some(LastBelow(s, k));
    }
  }

  lemma {:induction false} SameTailSameEntry(s: Sector, r: Sector, lo: nat, i: nat, k: nat)
    requires lo <= i < k <= SLOTS && SlotEntry(s, i) != None
    requires forall j :: lo <= j < SLOTS ==> SlotEntry(r, j) == SlotEntry(s, j)
    ensures LastBelow(r, k) == LastBelow(s, k)
  {
    if SlotEntry(s, k - 1) == None {
      SameTailSameEntry(s, r, lo, i, k - 1);
    }
  }

  /** A valid slot behind the free one hides every later write. */
  lemma StaleEntryWins(s: Sector, i: nat)
    requires Used(s) < i < SLOTS && SlotEntry(s, i) != None
    ensures exists e :: LastEntry(Append(s, e)) != e
  {
    var stale := LastEntry(s);
    var e := if stale == DEFAULT then Entry(PowerOn, RestoreOn) else DEFAULT;
    AppendSlots(s, e);
    SameTailSameEntry(s, Append(s, e), Used(s) + 1, i, SLOTS);
    assert LastEntry(Append(s, e)) != e;
  }

  lemma ZeroMask(b: byte)
    ensures b & 1 != 1 ==> b & 1 == 0
    ensures b & 2 != 2 ==> b & 2 == 0
  {
  }

  /** A cleared bit under the mode byte turns a write of that mode into another entry. */
  lemma StuckModeBit(s: Sector, m: RestoreMode)
    requires !Full(s)
    requires forall i :: Used(s) < i < SLOTS ==> SlotEntry(s, i) == None
    requires m != RestoreOff && s[Used(s) * PAGE_SIZE + 1] & ModeByte(m) != ModeByte(m)
    ensures exists e :: LastEntry(Append(s, e)) != e
  {
    var e := Entry(PowerOn, m);
    ZeroMask(s[Used(s) * PAGE_SIZE + 1]);
    AppendSlots(s, e);
    SkipInvalid(Append(s, e), Used(s) + 1, SLOTS);
    assert SlotEntry(Append(s, e), Used(s)) == Some(Entry(PowerOn, RestoreOff));
    assert LastEntry(Append(s, e)) != e;
  }
}
