/** The settings store (src/flash_store.rs) on top of the flash driver. */
module FlashStore {
  import opened Nor
  import opened Layout
  import opened DirectFlash
  import opened SettingsLog
  import opened SettingsHistory

  /** The windows of one `write_entry`. */
  function EntryTrace(s: Sector): seq<Event> {
    (if Full(s) then [Feed, Window(SETTINGS, SECTOR_SIZE, 0)] else [])
    + [Feed, Window(SETTINGS + TargetSlot(s) * PAGE_SIZE, 0, PAGE_SIZE)]
  }

  /** What a store works on: the chip, its event trace, and `current_entry`. */
  datatype View = View(m: Memory, trace: seq<Event>, current: Entry)

  /**
   The store took one step of `SettingsHistory.Set`: the same sector, entry and
   cost, and nothing outside the settings sector. In particular a repeated
   setting causes no flash operation at all.
   */
  ghost predicate Assigned(healthy: bool, v: View, u: Update, v': View) {
    var before := Store(SettingsOf(v.m), v.current, 0, 0);
    var after := Set(before, u);
    && v'.current == after.current
    && (healthy ==> SettingsOf(v'.m) == after.sector)
    && SameOutside(v.m, v'.m, SETTINGS, SETTINGS + SECTOR_SIZE)
    && v'.trace == v.trace + (if after.writes == 0 then [] else EntryTrace(before.sector))
    && (after.writes == 0 ==> v'.m == v.m)
  }

  class FlashStore {
    const flash: DirectFlash
    var current: Entry

    ghost predicate Valid() {
      flash.Valid() && flash.size == FLASH_SIZE
    }

    ghost function Sector(): Sector
      requires Valid()
      reads flash.cells
    {
      SettingsOf(flash.Mem())
    }

    ghost function Now(): View
      requires Valid()
      reads this, flash, flash.cells
    {
      View(flash.Mem(), flash.trace, current)
    }

    constructor (flash: DirectFlash)
      requires flash.Valid() && flash.size == FLASH_SIZE
      ensures Valid() && this.flash == flash
      ensures current == LastEntry(Sector())
    {
      this.flash := flash;
      current := DEFAULT;
      new;
      current := ReadLastEntry();
    }

    /** Scan backwards for the last valid entry. */
    method ReadLastEntry() returns (e: Entry)
      requires Valid()
      ensures e == LastEntry(Sector())
    {
      ghost var s := Sector();
      var buf := new byte[2];
      for i := SLOTS downto 0
        invariant LastBelow(s, i) == LastEntry(s)
        invariant Sector() == s
      {
        var r := flash.Read(SETTINGS + i * PAGE_SIZE, buf);
        SlotBytes(flash.Mem(), i, 2, buf[..]);
        assert buf[..][0] == s[i * PAGE_SIZE] && buf[..][1] == s[i * PAGE_SIZE + 1];
        if r.Ok? && buf[0] != BLANK && PowerFromByte(buf[0]).Some? && ModeFromByte(buf[1]).Some? {
          return Entry(PowerFromByte(buf[0]).value, ModeFromByte(buf[1]).value);
        }
      }
      return DEFAULT;
    }

    /** Find the next free slot; `SLOTS` when the sector is full. */
    method FindFreeSlot() returns (entryIndex: nat)
      requires Valid()
      ensures entryIndex == Used(Sector())
    {
      hide SettingsOf, FreeFrom;
      ghost var s := Sector();
      entryIndex := 0;
      var buf := new byte[1];
      for i := 0 to SLOTS
        invariant entryIndex == i && FreeFrom(s, i) == Used(s)
        invariant Sector() == s
      {
        var r := flash.Read(SETTINGS + i * PAGE_SIZE, buf);
        SlotBytes(flash.Mem(), i, 1, buf[..]);
        FreeStep(s, i);
        assert buf[..][0] == s[i * PAGE_SIZE];
        if r.Ok? && buf[0] == BLANK {
          entryIndex := i;
          break;
        }
        entryIndex := i + 1;
      }
      FreeStep(s, SLOTS);
    }

    method WriteEntry(e: Entry)
      requires Valid()
      modifies flash`trace, flash.cells
      ensures flash.healthy ==> Sector() == Append(old(Sector()), e)
      ensures SameOutside(old(flash.Mem()), flash.Mem(), SETTINGS, SETTINGS + SECTOR_SIZE)
      ensures flash.trace == old(flash.trace) + EntryTrace(old(Sector()))
    {
      hide Programmed, Erased, SameOutside, PageFloor, PageCeil, WriteWindows, WindowEvents, Used, Full, FreeFrom;
      ghost var m := flash.Mem();
      var entryIndex := PrepareSlot();
      ghost var target := flash.Mem();
      var page := [PowerByte(e.power), ModeByte(e.mode)] + seq(PAGE_SIZE - 2, _ => BLANK);
      assert page == Page(e);
      var offset := SETTINGS + entryIndex * PAGE_SIZE;
      OnePageTrace(offset, entryIndex);
      ProgramInRegion(target, SETTINGS, SECTOR_SIZE, entryIndex * PAGE_SIZE, page);
      var _ := flash.Write(offset, page);
      ChangesCompose(m, target, flash.Mem(), SETTINGS, SETTINGS + SECTOR_SIZE, offset, offset + PAGE_SIZE);
    }

    /** Pick the slot to write, erasing the sector when it is full. */
    method PrepareSlot() returns (entryIndex: nat)
      requires Valid()
      modifies flash`trace, flash.cells
      ensures entryIndex == TargetSlot(old(Sector()))
      ensures flash.healthy ==> Sector() == Target(old(Sector()))
      ensures SameOutside(old(flash.Mem()), flash.Mem(), SETTINGS, SETTINGS + SECTOR_SIZE)
      ensures flash.trace == old(flash.trace)
                           + if Full(old(Sector())) then [Feed, Window(SETTINGS, SECTOR_SIZE, 0)] else []
    {
      hide Programmed, Erased, SameOutside;
      ghost var m := flash.Mem();
      NothingChanged(m, SETTINGS, SETTINGS + SECTOR_SIZE);
      entryIndex := FindFreeSlot();
      if entryIndex >= SLOTS {
        EraseInRegion(m, SETTINGS, SECTOR_SIZE);
        OneSectorTrace(SETTINGS);
        var _ := flash.Erase(SETTINGS, SETTINGS + SECTOR_SIZE);
        entryIndex := 0;
      }
    }

    method Persist()
      requires Valid()
      modifies flash`trace, flash.cells
      ensures flash.healthy ==> Sector() == Append(old(Sector()), current)
      ensures SameOutside(old(flash.Mem()), flash.Mem(), SETTINGS, SETTINGS + SECTOR_SIZE)
      ensures flash.trace == old(flash.trace) + EntryTrace(old(Sector()))
    {
      var entry := current;
      WriteEntry(entry);
    }

    method SetPowerState(power: PowerState)
      requires Valid()
      modifies `current, flash`trace, flash.cells
      ensures Assigned(flash.healthy, old(Now()), SetPower(power), Now())
    {
      NothingChanged(flash.Mem(), SETTINGS, SETTINGS + SECTOR_SIZE);
      if current.power != power {
        current := current.(power := power);
        Persist();
      }
    }

    method SetRestoreMode(mode: RestoreMode)
      requires Valid()
      modifies `current, flash`trace, flash.cells
      ensures Assigned(flash.healthy, old(Now()), SetMode(mode), Now())
    {
      NothingChanged(flash.Mem(), SETTINGS, SETTINGS + SECTOR_SIZE);
      if current.mode != mode {
        current := current.(mode := mode);
        Persist();
      }
    }
  }

  /** The first `n` bytes of a slot, as read from the chip. */
  lemma SlotBytes(m: Memory, i: nat, n: nat, bytes: seq<byte>)
    requires i < SLOTS && n <= PAGE_SIZE
    requires SETTINGS + i * PAGE_SIZE + n <= FLASH_SIZE
    requires bytes == m[SETTINGS + i * PAGE_SIZE..SETTINGS + i * PAGE_SIZE + n]
    ensures forall k :: 0 <= k < n ==> i * PAGE_SIZE + k < SECTOR_SIZE && bytes[k] == SettingsOf(m)[i * PAGE_SIZE + k]
  {
  }

  lemma OneSectorTrace(from: nat)
    ensures EraseTrace(from, 1) == [Feed, Window(from, SECTOR_SIZE, 0)]
  {
    assert EraseTrace(from, 0) == [];
  }

  lemma OnePageTrace(offset: nat, slot: nat)
    requires offset == SETTINGS + slot * PAGE_SIZE
    ensures WindowEvents(WriteWindows(offset, PAGE_SIZE)) == [Feed, Window(offset, 0, PAGE_SIZE)]
    ensures PageFloor(offset) == offset && PageCeil(offset + PAGE_SIZE) == offset + PAGE_SIZE
  {
    assert WriteWindows(offset, PAGE_SIZE) == [(offset, PAGE_SIZE)] + WriteWindows(offset + PAGE_SIZE, 0);
    var w := [(offset, PAGE_SIZE)];
    assert WriteWindows(offset, PAGE_SIZE) == w;
    assert w[1..] == [];
  }
}
