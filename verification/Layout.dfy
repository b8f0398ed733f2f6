/** The flash map of memory.x and bootloader/memory.x, as offsets into the chip. */
module Layout {
  import opened Nor

  const FLASH_SIZE: nat := 0x20_0000
  const STATE: nat := 0x6000
  const ACTIVE: nat := 0x7000
  const ACTIVE_SIZE: nat := 0x4_0000
  const SETTINGS: nat := 0x8_0000
  const DFU: nat := 0x10_0000
  const DFU_SIZE: nat := 0x4_1000

  /** The map against the linker's addresses and lengths: everything is on sector boundaries, and nothing overlaps. */
  lemma MapAsLinked()
    ensures 0x1000_0000 + STATE == 0x1000_6000 && 0x1000_0000 + ACTIVE == 0x1000_7000
    ensures 0x1000_0000 + SETTINGS == 0x1008_0000 && 0x1000_0000 + DFU == 0x1010_0000
    ensures ACTIVE_SIZE == 256 * 1024 && DFU_SIZE == 260 * 1024 && FLASH_SIZE == 2 * 1024 * 1024
    ensures STATE + SECTOR_SIZE <= ACTIVE && ACTIVE + ACTIVE_SIZE <= SETTINGS
    ensures SETTINGS + SECTOR_SIZE <= DFU && DFU + DFU_SIZE <= FLASH_SIZE
    ensures DFU_SIZE == ACTIVE_SIZE + SECTOR_SIZE
  {
  }

  type Memory = m: seq<byte> | |m| == FLASH_SIZE witness seq(FLASH_SIZE, _ => BLANK)

  function StateOf(m: Memory): (r: seq<byte>)
    ensures |r| == SECTOR_SIZE
  {
    m[STATE..STATE + SECTOR_SIZE]
  }

  function ActiveOf(m: Memory): (r: seq<byte>)
    ensures |r| == ACTIVE_SIZE
  {
    m[ACTIVE..ACTIVE + ACTIVE_SIZE]
  }

  function SettingsOf(m: Memory): (r: seq<byte>)
    ensures |r| == SECTOR_SIZE
  {
    m[SETTINGS..SETTINGS + SECTOR_SIZE]
  }

  function DfuOf(m: Memory): (r: seq<byte>)
    ensures |r| == DFU_SIZE
  {
    m[DFU..DFU + DFU_SIZE]
  }

  /** Writing inside one region leaves every region that lies apart from it alone. */
  lemma OtherRegion(m: Memory, m': Memory, lo: nat, hi: nat, base: nat, len: nat)
    requires SameOutside(m, m', lo, hi)
    requires base + len <= FLASH_SIZE && (base + len <= lo || hi <= base)
    ensures m'[base..base + len] == m[base..base + len]
  {
  }
}
