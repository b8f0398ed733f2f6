/**
 The NOR flash chip as a value: a sequence of bytes on which a program
 operation is a bytewise AND and an erase sets whole ranges to 0xFF.

 Everything the firmware believes about flash is a consequence of these two
 functions, so the driver, the settings log and the update protocol are all
 specified with them.
 */
module Nor {

  type byte = bv8

  const BLANK: byte := 0xFF
  const PAGE_SIZE: nat := 256
  const SECTOR_SIZE: nat := 4096

  /** `mem` after programming `data` at `addr`: a program can only clear bits. */
  function Programmed(mem: seq<byte>, addr: nat, data: seq<byte>): (r: seq<byte>)
    requires addr + |data| <= |mem|
    ensures |r| == |mem|
  {
    seq(|mem|, i requires 0 <= i < |mem| =>
      if addr <= i < addr + |data| then mem[i] & data[i - addr] else mem[i])
  }

  /** `mem` after erasing `[from, to)`. */
  function Erased(mem: seq<byte>, from: nat, to: nat): (r: seq<byte>)
    requires from <= to <= |mem|
    ensures |r| == |mem|
  {
    seq(|mem|, i requires 0 <= i < |mem| => if from <= i < to then BLANK else mem[i])
  }

  ghost predicate Blank(mem: seq<byte>, from: nat, to: nat)
    requires from <= to <= |mem|
  {
    forall i :: from <= i < to ==> mem[i] == BLANK
  }

  /** Same length and same contents everywhere except possibly in `[lo, hi)`. */
  ghost predicate SameOutside(m: seq<byte>, m': seq<byte>, lo: nat, hi: nat) {
    && |m| == |m'|
    && forall i :: 0 <= i < |m| && !(lo <= i < hi) ==> m'[i] == m[i]
  }

  lemma NothingChanged(m: seq<byte>, lo: nat, hi: nat)
    ensures SameOutside(m, m, lo, hi)
  {
  }

  lemma ChangesCompose(m: seq<byte>, m1: seq<byte>, m2: seq<byte>, lo: nat, hi: nat, lo1: nat, hi1: nat)
    requires SameOutside(m, m1, lo, hi) && SameOutside(m1, m2, lo1, hi1)
    requires lo <= lo1 && hi1 <= hi
    ensures SameOutside(m, m2, lo, hi)
  {
  }

  /** Programming two adjacent spans one after the other is one longer program. */
  lemma ProgramsCompose(mem: seq<byte>, addr: nat, x: seq<byte>, y: seq<byte>)
    requires addr + |x| + |y| <= |mem|
    ensures Programmed(Programmed(mem, addr, x), addr + |x|, y) == Programmed(mem, addr, x + y)
  {
    var l, r := Programmed(Programmed(mem, addr, x), addr + |x|, y), Programmed(mem, addr, x + y);
    forall i | 0 <= i < |mem| ensures l[i] == r[i] {
    }
  }

  /**
   The page-merge trick: programming a whole region whose bytes were read back
   from the chip, with `data` patched in, is the same as programming `data`
   alone, because ANDing a cell with its own value does not change it.
   */
  lemma MergedProgram(mem: seq<byte>, base: nat, merged: seq<byte>, pos: nat, data: seq<byte>)
    requires base <= pos && pos + |data| <= base + |merged| && base + |merged| <= |mem|
    requires merged == mem[base..pos] + data + mem[pos + |data|..base + |merged|]
    ensures Programmed(mem, base, merged) == Programmed(mem, pos, data)
  {
    var l, r := Programmed(mem, base, merged), Programmed(mem, pos, data);
    forall i | 0 <= i < |mem| ensures l[i] == r[i] {
      if pos <= i < pos + |data| {
        assert merged[i - base] == data[i - pos];
      } else if base <= i < base + |merged| {
        assert merged[i - base] == mem[i];
        AndIdempotent(mem[i]);
      }
    }
  }

  /** A page read back at `base` and patched `at` bytes in is the merge `MergedProgram` is about. */
  lemma PatchedPage(mem: seq<byte>, base: nat, at: nat, data: seq<byte>, size: nat, page: seq<byte>)
    requires at + |data| <= size && base + size <= |mem|
    requires page == mem[base..base + size][..at] + data + mem[base..base + size][at + |data|..]
    ensures page == mem[base..base + at] + data + mem[base + at + |data|..base + size]
  {
    assert mem[base..base + size][..at] == mem[base..base + at];
    assert mem[base..base + size][at + |data|..] == mem[base + at + |data|..base + size];
  }

  lemma AndIdempotent(b: byte)
    ensures b & b == b
  {
  }

  lemma AndBlank(b: byte)
    ensures BLANK & b == b
    ensures b & BLANK == b
  {
  }

  /** On erased flash a program stores exactly its data. */
  lemma ProgramOnBlank(mem: seq<byte>, addr: nat, data: seq<byte>)
    requires addr + |data| <= |mem|
    requires Blank(mem, addr, addr + |data|)
    ensures Programmed(mem, addr, data) == mem[..addr] + data + mem[addr + |data|..]
  {
    var l, r := Programmed(mem, addr, data), mem[..addr] + data + mem[addr + |data|..];
    forall i | 0 <= i < |mem| ensures l[i] == r[i] {
      if addr <= i < addr + |data| {
        AndBlank(data[i - addr]);
      }
    }
  }

  /**
   What a program stores, for every prior content: the bytes read back are the
   data if and only if every bit that has to be 1 was still 1.
   */
  lemma ProgramStoresIff(mem: seq<byte>, addr: nat, data: seq<byte>)
    requires addr + |data| <= |mem|
    ensures Programmed(mem, addr, data)[addr..addr + |data|] == data
       <==> forall k :: 0 <= k < |data| ==> mem[addr + k] & data[k] == data[k]
  {
    var r := Programmed(mem, addr, data);
    var p := r[addr..addr + |data|];
    forall k | 0 <= k < |data| ensures p[k] == mem[addr + k] & data[k] {
      assert r[addr + k] == mem[addr + k] & data[addr + k - addr];
    }
    if forall k :: 0 <= k < |data| ==> mem[addr + k] & data[k] == data[k] {
      assert p == data;
    }
  }

  /** Programming inside a region is programming the region. */
  lemma ProgramInRegion(mem: seq<byte>, base: nat, len: nat, at: nat, data: seq<byte>)
    requires base + len <= |mem| && at + |data| <= len
    ensures Programmed(mem, base + at, data)[base..base + len] == Programmed(mem[base..base + len], at, data)
  {
  }

  lemma EraseInRegion(mem: seq<byte>, base: nat, len: nat)
    requires base + len <= |mem|
    ensures Erased(mem, base, base + len)[base..base + len] == Erased(mem[base..base + len], 0, len)
  {
  }

  lemma ProgramNothing(mem: seq<byte>, addr: nat)
    requires addr <= |mem|
    ensures Programmed(mem, addr, []) == mem
  {
  }

  lemma EraseNothing(mem: seq<byte>, addr: nat)
    requires addr <= |mem|
    ensures Erased(mem, addr, addr) == mem
  {
  }

  /** Erasing two adjacent ranges one after the other is one longer erase. */
  lemma ErasesCompose(mem: seq<byte>, from: nat, mid: nat, to: nat)
    requires from <= mid <= to <= |mem|
    ensures Erased(Erased(mem, from, mid), mid, to) == Erased(mem, from, to)
  {
  }
}
