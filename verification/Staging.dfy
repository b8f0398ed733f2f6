/** What a partly staged DFU partition holds, as a function of the bytes received. */
module Staging {
  import opened Nor
  import opened Layout

  const CHUNK_SIZE: nat := 4096
  const MAX_IMAGE_SIZE: nat := 0x4_0000

  function RoundUp(n: nat): (r: nat)
    ensures n <= r < n + SECTOR_SIZE && r % SECTOR_SIZE == 0
  {
    (n + SECTOR_SIZE - 1) / SECTOR_SIZE * SECTOR_SIZE
  }

  function Blanks(n: nat): (r: seq<byte>)
    ensures |r| == n
  {
    seq(n, _ => BLANK)
  }

  /**
   `m` with `data` staged: the data at the start of the DFU partition, blank up
   to the next sector boundary, everything else as it was.
   */
  function Staged(m: Memory, data: seq<byte>): Memory
    requires |data| <= MAX_IMAGE_SIZE
  {
    StagedFits(|data|);
    m[..DFU] + data + Blanks(RoundUp(|data|) - |data|) + m[DFU + RoundUp(|data|)..]
  }

  lemma StagedFits(n: nat)
    requires n <= MAX_IMAGE_SIZE
    ensures RoundUp(n) <= MAX_IMAGE_SIZE < DFU_SIZE
  {
  }

  lemma StagedNothing(m: Memory)
    ensures Staged(m, []) == m
  {
  }

  lemma StagedKeeps(m: Memory, data: seq<byte>)
    requires |data| <= MAX_IMAGE_SIZE
    ensures Staged(m, data)[DFU..DFU + |data|] == data
    ensures SameOutside(m, Staged(m, data), DFU, DFU + DFU_SIZE)
  {
    StagedFits(|data|);
  }

  lemma ErasedMiddle(front: seq<byte>, middle: seq<byte>, tail: seq<byte>)
    ensures Erased(front + middle + tail, |front|, |front| + |middle|) == front + Blanks(|middle|) + tail
  {
  }

  lemma ProgrammedMiddle(front: seq<byte>, data: seq<byte>, blanks: nat, tail: seq<byte>)
    requires |data| <= blanks
    ensures Programmed(front + Blanks(blanks) + tail, |front|, data) == front + data + Blanks(blanks - |data|) + tail
  {
    var e := front + Blanks(blanks) + tail;
    ProgramOnBlank(e, |front|, data);
    assert e[..|front|] == front;
    assert e[|front| + |data|..] == Blanks(blanks - |data|) + tail;
  }

  /** Erasing the next sector of an aligned stage. */
  lemma EraseNextSector(m: Memory, data: seq<byte>)
    requires |data| % SECTOR_SIZE == 0 && |data| < MAX_IMAGE_SIZE
    ensures DFU + |data| + SECTOR_SIZE <= FLASH_SIZE
    ensures Erased(Staged(m, data), DFU + |data|, DFU + |data| + SECTOR_SIZE)
         == m[..DFU] + data + Blanks(SECTOR_SIZE) + m[DFU + |data| + SECTOR_SIZE..]
  {
    StagedFits(|data| + 1);
    AlignedRoundUp(|data|, 1);
    hide Erased, Staged, RoundUp, Blanks;
    var at := DFU + |data|;
    ErasedMiddle(m[..DFU] + data, m[at..at + SECTOR_SIZE], m[at + SECTOR_SIZE..]);
    AlignedStage(m, data);
    assert m[at..] == m[at..at + SECTOR_SIZE] + m[at + SECTOR_SIZE..];
  }

  lemma AlignedStage(m: Memory, data: seq<byte>)
    requires |data| % SECTOR_SIZE == 0 && |data| <= MAX_IMAGE_SIZE
    ensures DFU + |data| <= FLASH_SIZE && Staged(m, data) == m[..DFU] + data + m[DFU + |data|..]
  {
    hide RoundUp;
    StagedFits(|data|);
    assert RoundUp(|data|) == |data|;
    assert Blanks(0) == [];
  }

  /** Erasing the next sector and programming the next chunk into it stages the chunk. */
  lemma StageChunk(m: Memory, data: seq<byte>, chunk: seq<byte>)
    requires |data| % SECTOR_SIZE == 0 && 0 < |chunk| <= SECTOR_SIZE && |data| + |chunk| <= MAX_IMAGE_SIZE
    ensures DFU + |data| + SECTOR_SIZE <= FLASH_SIZE
    ensures var e := Erased(Staged(m, data), DFU + |data|, DFU + |data| + SECTOR_SIZE);
            Programmed(e, DFU + |data|, chunk) == Staged(m, data + chunk)
  {
    hide Erased, Programmed, Staged, RoundUp, Blanks;
    EraseNextSector(m, data);
    AlignedRoundUp(|data|, |chunk|);
    var at := DFU + |data|;
    var front, tail := m[..DFU] + data, m[at + SECTOR_SIZE..];
    assert |front| == at;
    ProgrammedMiddle(front, chunk, SECTOR_SIZE, tail);
    StagedUpTo(m, data, chunk);
  }

  /** The parts of a staged memory, the data in two pieces. */
  lemma StagedUpTo(m: Memory, data: seq<byte>, chunk: seq<byte>)
    requires |data| + |chunk| <= MAX_IMAGE_SIZE
    ensures var end := RoundUp(|data| + |chunk|);
            && DFU + end <= FLASH_SIZE
            && Staged(m, data + chunk)
               == m[..DFU] + data + chunk + Blanks(end - |data| - |chunk|) + m[DFU + end..]
  {
    hide RoundUp, Blanks;
    StagedFits(|data| + |chunk|);
    assert m[..DFU] + (data + chunk) == m[..DFU] + data + chunk;
  }

  lemma AlignedRoundUp(n: nat, k: nat)
    requires n % SECTOR_SIZE == 0 && 0 < k <= SECTOR_SIZE
    ensures RoundUp(n) == n
    ensures RoundUp(n + k) == n + SECTOR_SIZE
  {
  }
}
