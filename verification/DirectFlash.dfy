/**
 The bootrom flash driver (src/direct_flash.rs, and its identical copy in the
 bootloader): bounds and alignment checks, one-sector erase windows, and
 writes that turn unaligned spans into whole-page programs by read-merging.

 The chip behind the driver is `cells`. A healthy chip does what `Nor` says; a
 faulty one may leave anything in the range a window touches, silently.
 */
module DirectFlash {
  import opened Nor
  import opened Wrappers

  /** What the hardware can observe of the driver and its callers. */
  datatype Event =
    | Feed                                                  // watchdog LOAD register written
    | Window(addr: nat, eraseBytes: nat, programBytes: nat) // one XIP-off window
    | Await                                                 // a read with a timeout
    | Mark                                                  // the state sector is written

  datatype FlashError = NotAligned | OutOfBounds
  datatype Status = Ok | Err(error: FlashError)

  function PageFloor(pos: nat): (r: nat)
    ensures r <= pos
  {
    pos - pos % PAGE_SIZE
  }

  function PageCeil(pos: nat): (r: nat)
    ensures pos <= r
  {
    PageFloor(pos + PAGE_SIZE - 1)
  }

  /** A feed before each of `sectors` one-sector windows. */
  function EraseTrace(from: nat, sectors: nat): seq<Event> {
    if sectors == 0 then []
    else EraseTrace(from, sectors - 1) + [Feed, Window(from + (sectors - 1) * SECTOR_SIZE, SECTOR_SIZE, 0)]
  }

  /** The program windows of a write, as (address, length) pairs. */
  function WriteWindows(pos: nat, len: nat): seq<(nat, nat)>
    decreases len
  {
    if len == 0 then []
    else if pos % PAGE_SIZE == 0 && len >= PAGE_SIZE then
      [(pos, PageFloor(len))] + WriteWindows(pos + PageFloor(len), len - PageFloor(len))
    else
      var take := if len < PAGE_SIZE - pos % PAGE_SIZE then len else PAGE_SIZE - pos % PAGE_SIZE;
      [(PageFloor(pos), PAGE_SIZE)] + WriteWindows(pos + take, len - take)
  }

  function WindowEvents(windows: seq<(nat, nat)>): seq<Event> {
    if windows == [] then []
    else [Feed, Window(windows[0].0, 0, windows[0].1)] + WindowEvents(windows[1..])
  }

  class DirectFlash {
    const size: nat
    const healthy: bool
    const cells: array<byte>
    var trace: seq<Event>

    ghost predicate Valid() {
      cells.Length == size && size % PAGE_SIZE == 0
    }

    ghost function Mem(): seq<byte>
      reads cells
    {
      cells[..]
    }

    constructor (contents: array<byte>, healthy: bool)
      requires contents.Length % PAGE_SIZE == 0
      ensures Valid() && cells == contents && size == contents.Length && this.healthy == healthy && trace == []
    {
      cells := contents;
      size := contents.Length;
      this.healthy := healthy;
      trace := [];
    }

    method FeedWatchdog()
      modifies `trace
      ensures trace == old(trace) + [Feed]
    {
      trace := trace + [Feed];
    }

    /** The XIP-off window: erase `eraseBytes` at `addr`, then program `data` there. */
    method XipOffOp(addr: nat, eraseBytes: nat, data: seq<byte>)
      requires Valid()
      requires addr % PAGE_SIZE == 0 && |data| % PAGE_SIZE == 0
      requires eraseBytes > 0 ==> addr % SECTOR_SIZE == 0 && eraseBytes % SECTOR_SIZE == 0
      requires addr + eraseBytes <= size && addr + |data| <= size
      modifies `trace, cells
      ensures trace == old(trace) + [Window(addr, eraseBytes, |data|)]
      ensures SameOutside(old(Mem()), Mem(), addr, addr + if eraseBytes < |data| then |data| else eraseBytes)
      ensures healthy ==> Mem() == Programmed(Erased(old(Mem()), addr, addr + eraseBytes), addr, data)
    {
      ghost var m := Mem();
      EraseCells(addr, eraseBytes);
      ghost var e := Mem();
      ProgramCells(addr, data);
      trace := trace + [Window(addr, eraseBytes, |data|)];
    }

    method EraseCells(addr: nat, count: nat)
      requires Valid() && addr + count <= size
      modifies cells
      ensures SameOutside(old(Mem()), Mem(), addr, addr + count)
      ensures healthy ==> Mem() == Erased(old(Mem()), addr, addr + count)
    {
      for i := 0 to count
        invariant SameOutside(old(Mem()), Mem(), addr, addr + i)
        invariant healthy ==> forall k :: addr <= k < addr + i ==> cells[k] == BLANK
      {
        var stuck: byte := *;
        cells[addr + i] := if healthy then BLANK else stuck;
      }
    }

    method ProgramCells(addr: nat, data: seq<byte>)
      requires Valid() && addr + |data| <= size
      modifies cells
      ensures SameOutside(old(Mem()), Mem(), addr, addr + |data|)
      ensures healthy ==> Mem() == Programmed(old(Mem()), addr, data)
    {
      ghost var m := Mem();
      for i := 0 to |data|
        invariant SameOutside(m, Mem(), addr, addr + i)
        invariant healthy ==> forall k :: addr <= k < addr + i ==> cells[k] == m[k] & data[k - addr]
      {
        var stuck: byte := *;
        cells[addr + i] := if healthy then cells[addr + i] & data[i] else stuck;
      }
      if healthy {
        forall k | 0 <= k < size ensures Mem()[k] == Programmed(m, addr, data)[k] {
        }
      }
    }

    method Read(offset: nat, bytes: array<byte>) returns (r: Status)
      requires Valid() && bytes != cells
      modifies bytes
      ensures r == if offset + bytes.Length <= size then Ok else Err(OutOfBounds)
      ensures r.Ok? ==> bytes[..] == Mem()[offset..offset + bytes.Length]
      ensures r.Err? ==> bytes[..] == old(bytes[..])
    {
      if offset + bytes.Length > size {
        return Err(OutOfBounds);
      }
      for i := 0 to bytes.Length
        invariant bytes[..i] == Mem()[offset..offset + i]
        invariant Mem() == old(Mem())
      {
        bytes[i] := cells[offset + i];
        assert bytes[..i + 1] == bytes[..i] + [cells[offset + i]];
      }
      assert bytes[..] == bytes[..bytes.Length];
      return Ok;
    }

    method Erase(from: nat, to: nat) returns (r: Status)
      requires Valid()
      modifies `trace, cells
      ensures r == Err(NotAligned) <==> from % 4096 != 0 || to % 4096 != 0 || from > to
      ensures r == Ok <==> from % 4096 == 0 && to % 4096 == 0 && from <= to <= size
      ensures r.Err? ==> Mem() == old(Mem()) && trace == old(trace)
      ensures r.Ok? ==> trace == old(trace) + EraseTrace(from, (to - from) / SECTOR_SIZE)
      ensures r.Ok? ==> SameOutside(old(Mem()), Mem(), from, to)
      ensures r.Ok? && healthy ==> Mem() == Erased(old(Mem()), from, to)
    {
      if from % SECTOR_SIZE != 0 || to % SECTOR_SIZE != 0 || from > to {
        return Err(NotAligned);
      }
      if to > size {
        return Err(OutOfBounds);
      }
      EraseSectors(from, to);
      return Ok;
    }

    /** A feed and a one-sector window. */
    method EraseSector(addr: nat)
      requires Valid() && addr % SECTOR_SIZE == 0 && addr + SECTOR_SIZE <= size
      modifies `trace, cells
      ensures trace == old(trace) + [Feed] + [Window(addr, SECTOR_SIZE, 0)]
      ensures SameOutside(old(Mem()), Mem(), addr, addr + SECTOR_SIZE)
      ensures healthy ==> Mem() == Erased(old(Mem()), addr, addr + SECTOR_SIZE)
    {
      hide Programmed, Erased, SameOutside;
      ghost var before := Mem();
      FeedWatchdog();
      XipOffOp(addr, SECTOR_SIZE, []);
      ProgramNothing(Erased(before, addr, addr + SECTOR_SIZE), addr);
    }

    /** One sector per window, the watchdog fed before each. */
    method EraseSectors(from: nat, to: nat)
      requires Valid() && from <= to <= size
      requires from % SECTOR_SIZE == 0 && to % SECTOR_SIZE == 0
      modifies `trace, cells
      ensures trace == old(trace) + EraseTrace(from, (to - from) / SECTOR_SIZE)
      ensures SameOutside(old(Mem()), Mem(), from, to)
      ensures healthy ==> Mem() == Erased(old(Mem()), from, to)
    {
      hide Programmed, Erased, SameOutside, EraseTrace;
      ghost var m, t := Mem(), trace;
      NoSectors(t, from);
      var addr := from;
      ghost var n := 0;
      EraseNothing(m, from);
      NothingChanged(m, from, to);
      while addr < to
        invariant from <= addr <= to && addr == from + n * SECTOR_SIZE
        invariant trace == t + EraseTrace(from, n)
        invariant SameOutside(m, Mem(), from, to)
        invariant healthy ==> Mem() == Erased(m, from, addr)
      {
        ghost var before := Mem();
        NextSectorFits(from, addr, to, n);
        OneMoreSector(t, from, n);
        EraseSector(addr);
        if healthy {
          ErasesCompose(m, from, addr, addr + SECTOR_SIZE);
        }
        ChangesCompose(m, before, Mem(), from, to, addr, addr + SECTOR_SIZE);
        addr := addr + SECTOR_SIZE;
        n := n + 1;
      }
    }

    method Write(offset: nat, bytes: seq<byte>) returns (r: Status)
      requires Valid()
      modifies `trace, cells
      ensures r == if bytes == [] || offset + |bytes| <= size then Ok else Err(OutOfBounds)
      ensures r.Err? ==> Mem() == old(Mem()) && trace == old(trace)
      ensures r.Ok? ==> trace == old(trace) + WindowEvents(WriteWindows(offset, |bytes|))
      ensures r.Ok? ==> SameOutside(old(Mem()), Mem(), PageFloor(offset), PageCeil(offset + |bytes|))
      ensures r.Ok? && bytes == [] ==> Mem() == old(Mem())
      ensures r.Ok? && bytes != [] && healthy ==> Mem() == Programmed(old(Mem()), offset, bytes)
    {
      if bytes == [] {
        return Ok;
      }
      if offset + |bytes| > size {
        return Err(OutOfBounds);
      }
      ProgramAll(offset, bytes);
      return Ok;
    }

    /** The write loop. */
    method ProgramAll(offset: nat, bytes: seq<byte>)
      requires Valid() && offset + |bytes| <= size
      modifies `trace, cells
      ensures trace == old(trace) + WindowEvents(WriteWindows(offset, |bytes|))
      ensures SameOutside(old(Mem()), Mem(), PageFloor(offset), PageCeil(offset + |bytes|))
      ensures healthy ==> Mem() == Programmed(old(Mem()), offset, bytes)
    {
      hide Programmed, SameOutside, WriteWindows, WindowEvents, PageFloor, PageCeil;
      ghost var m := Mem();
      ghost var done: seq<byte> := [];
      var remaining := bytes;
      var pos := offset;
      ProgramNothing(m, offset);
      NothingChanged(m, PageFloor(offset), PageCeil(offset + |bytes|));
      while remaining != []
        invariant done + remaining == bytes && pos == offset + |done|
        invariant trace + WindowEvents(WriteWindows(pos, |remaining|))
               == old(trace) + WindowEvents(WriteWindows(offset, |bytes|))
        invariant SameOutside(m, Mem(), PageFloor(offset), PageCeil(offset + |bytes|))
        invariant healthy ==> Mem() == Programmed(m, offset, done)
        decreases |remaining|
      {
        ghost var before := Mem();
        PageFloorMonotone(offset, pos);
        var take := ProgramSome(pos, remaining);
        if healthy {
          ProgramsCompose(m, offset, done, remaining[..take]);
        }
        ChangesCompose(m, before, Mem(), PageFloor(offset), PageCeil(offset + |bytes|),
                       PageFloor(pos), PageCeil(offset + |bytes|));
        Advance(done, remaining, take);
        done := done + remaining[..take];
        remaining := remaining[take..];
        pos := pos + take;
      }
      NoWindows(pos);
      assert done == bytes;
    }

    /** One turn of the write loop: a fast or a slow step at `pos`. */
    method ProgramSome(pos: nat, remaining: seq<byte>) returns (take: nat)
      requires Valid() && remaining != [] && pos + |remaining| <= size
      modifies `trace, cells
      ensures 0 < take <= |remaining|
      ensures trace + WindowEvents(WriteWindows(pos + take, |remaining| - take))
           == old(trace) + WindowEvents(WriteWindows(pos, |remaining|))
      ensures SameOutside(old(Mem()), Mem(), PageFloor(pos), PageCeil(pos + |remaining|))
      ensures healthy ==> Mem() == Programmed(old(Mem()), pos, remaining[..take])
    {
      hide Programmed, SameOutside, WriteWindows, WindowEvents, PageFloor, PageCeil, Take, WindowSize;
      ghost var m := Mem();
      WindowStep(pos, |remaining|);
      WindowInPages(pos, |remaining|);
      if pos % PAGE_SIZE == 0 && |remaining| >= PAGE_SIZE {
        take := ProgramPages(pos, remaining);
      } else {
        take := MergePage(pos, remaining);
      }
      NothingChanged(m, PageFloor(pos), PageCeil(pos + |remaining|));
      ChangesCompose(m, m, Mem(), PageFloor(pos), PageCeil(pos + |remaining|),
                     PageFloor(pos), PageFloor(pos) + WindowSize(pos, |remaining|));
    }

    /** The fast path: all whole pages at the front of `remaining`, in one window. */
    method ProgramPages(pos: nat, remaining: seq<byte>) returns (take: nat)
      requires Valid() && pos + |remaining| <= size
      requires pos % PAGE_SIZE == 0 && |remaining| >= PAGE_SIZE
      modifies `trace, cells
      ensures 0 < take <= |remaining| && take == Take(pos, |remaining|)
      ensures trace == old(trace) + [Feed, Window(PageFloor(pos), 0, WindowSize(pos, |remaining|))]
      ensures SameOutside(old(Mem()), Mem(), PageFloor(pos), PageFloor(pos) + WindowSize(pos, |remaining|))
      ensures healthy ==> Mem() == Programmed(old(Mem()), pos, remaining[..take])
    {
      hide Programmed, Erased, SameOutside;
      take := |remaining| - |remaining| % PAGE_SIZE;
      EraseNothing(Mem(), pos);
      FeedWatchdog();
      XipOffOp(pos, 0, remaining[..take]);
    }

    /** The slow path: read the page around `pos`, patch it, program it back. */
    method MergePage(pos: nat, remaining: seq<byte>) returns (take: nat)
      requires Valid() && remaining != [] && pos + |remaining| <= size
      requires pos % PAGE_SIZE != 0 || |remaining| < PAGE_SIZE
      modifies `trace, cells
      ensures 0 < take <= |remaining| && take == Take(pos, |remaining|)
      ensures trace == old(trace) + [Feed, Window(PageFloor(pos), 0, WindowSize(pos, |remaining|))]
      ensures SameOutside(old(Mem()), Mem(), PageFloor(pos), PageFloor(pos) + WindowSize(pos, |remaining|))
      ensures healthy ==> Mem() == Programmed(old(Mem()), pos, remaining[..take])
    {
      hide Programmed, Erased, SameOutside;
      var base := PageFloor(pos);
      var inPage := pos - base;
      PageAround(pos, size);
      take := if |remaining| < PAGE_SIZE - inPage then |remaining| else PAGE_SIZE - inPage;
      var page := MergedPage(base, inPage, remaining[..take]);
      EraseNothing(Mem(), base);
      MergedProgram(Mem(), base, page, pos, remaining[..take]);
      hide PageFloor;
      FeedWatchdog();
      XipOffOp(base, 0, page);
    }

    /** The page at `base` as read back, with `data` patched in. */
    method MergedPage(base: nat, inPage: nat, data: seq<byte>) returns (page: seq<byte>)
      requires Valid() && base + PAGE_SIZE <= size && inPage + |data| <= PAGE_SIZE
      ensures page == Mem()[base..base + inPage] + data + Mem()[base + inPage + |data|..base + PAGE_SIZE]
    {
      ghost var m := Mem();
      var buf := new byte[PAGE_SIZE](_ => BLANK);
      var _ := Read(base, buf);
      ghost var read := buf[..];
      CopyInto(buf, inPage, data);
      page := buf[..];
      PatchedPage(m, base, inPage, data, PAGE_SIZE, page);
    }
  }

  lemma Advance(done: seq<byte>, remaining: seq<byte>, take: nat)
    requires take <= |remaining|
    ensures (done + remaining[..take]) + remaining[take..] == done + remaining
  {
  }

  lemma NoSectors(t: seq<Event>, from: nat)
    ensures t + EraseTrace(from, 0) == t
  {
  }

  lemma OneMoreSector(t: seq<Event>, from: nat, n: nat)
    ensures t + EraseTrace(from, n + 1)
         == t + EraseTrace(from, n) + [Feed] + [Window(from + n * SECTOR_SIZE, SECTOR_SIZE, 0)]
  {
    assert [Feed, Window(from + n * SECTOR_SIZE, SECTOR_SIZE, 0)]
        == [Feed] + [Window(from + n * SECTOR_SIZE, SECTOR_SIZE, 0)];
  }

  lemma SectorMultiple(k: nat)
    ensures SECTOR_SIZE * k % SECTOR_SIZE == 0
  {
  }

  lemma NextSectorFits(from: nat, addr: nat, to: nat, n: nat)
    requires from % SECTOR_SIZE == 0 && to % SECTOR_SIZE == 0
    requires addr == from + n * SECTOR_SIZE && addr < to
    ensures addr + SECTOR_SIZE <= to && addr % SECTOR_SIZE == 0
  {
    var a, b := from / SECTOR_SIZE, to / SECTOR_SIZE;
    assert from == SECTOR_SIZE * a && to == SECTOR_SIZE * b;
    assert addr == SECTOR_SIZE * (a + n);
    SectorMultiple(a + n);
  }

  /** How many bytes one turn of the write loop consumes. */
  function Take(pos: nat, len: nat): nat {
    if pos % PAGE_SIZE == 0 && len >= PAGE_SIZE then PageFloor(len)
    else if len < PAGE_SIZE - pos % PAGE_SIZE then len
    else PAGE_SIZE - pos % PAGE_SIZE
  }

  /** How many bytes its window programs. */
  function WindowSize(pos: nat, len: nat): nat {
    if pos % PAGE_SIZE == 0 && len >= PAGE_SIZE then PageFloor(len) else PAGE_SIZE
  }

  lemma WindowStep(pos: nat, len: nat)
    requires len > 0
    ensures 0 < Take(pos, len) <= len
    ensures WindowEvents(WriteWindows(pos, len))
         == [Feed, Window(PageFloor(pos), 0, WindowSize(pos, len))]
          + WindowEvents(WriteWindows(pos + Take(pos, len), len - Take(pos, len)))
  {
    var take := Take(pos, len);
    var w := WriteWindows(pos, len);
    assert w == [(PageFloor(pos), WindowSize(pos, len))] + WriteWindows(pos + take, len - take);
    assert w[1..] == WriteWindows(pos + take, len - take);
  }

  lemma NoWindows(pos: nat)
    ensures WindowEvents(WriteWindows(pos, 0)) == []
  {
  }

  lemma PageAround(pos: nat, size: nat)
    requires pos < size && size % PAGE_SIZE == 0
    ensures PageFloor(pos) % PAGE_SIZE == 0
    ensures PageFloor(pos) + PAGE_SIZE <= size
  {
  }

  lemma PageFloorMonotone(a: nat, b: nat)
    requires a <= b
    ensures PageFloor(a) <= PageFloor(b)
  {
  }

  lemma WindowInPages(pos: nat, len: nat)
    requires len > 0
    ensures PageFloor(pos) + WindowSize(pos, len) <= PageCeil(pos + len)
  {
  }

  ghost predicate AscendingWithin(windows: seq<(nat, nat)>, lo: nat, hi: nat) {
    if windows == [] then lo <= hi
    else lo <= windows[0].0 && windows[0].1 > 0 && AscendingWithin(windows[1..], windows[0].0 + windows[0].1, hi)
  }

  /**
   A write needs at most three windows - an unaligned head, a body of whole
   pages, a short tail. They ascend without overlap inside the pages touched,
   so no page is programmed twice.
   */
  lemma AtMostThreeWindows(pos: nat, len: nat)
    ensures |WriteWindows(pos, len)| <= 3
    ensures AscendingWithin(WriteWindows(pos, len), PageFloor(pos), PageCeil(pos + len))
  {
    if pos % PAGE_SIZE == 0 {
      AlignedWindows(pos, len);
    } else if len > 0 {
      HeadWindow(pos, len);
      var rest := WriteWindows(pos + Take(pos, len), len - Take(pos, len));
      assert ([(PageFloor(pos), PAGE_SIZE)] + rest)[1..] == rest;
    }
  }

  lemma NoneLeft(pos: nat)
    ensures WriteWindows(pos, 0) == []
  {
  }

  /** The head of an unaligned write fills its page up, or ends in it. */
  lemma HeadTake(pos: nat, len: nat)
    requires pos % PAGE_SIZE != 0 && len > 0
    ensures 0 < Take(pos, len) <= len
    ensures Take(pos, len) < len ==>
      pos + Take(pos, len) == PageFloor(pos) + PAGE_SIZE && (pos + Take(pos, len)) % PAGE_SIZE == 0
    ensures PageFloor(pos) + PAGE_SIZE <= PageCeil(pos + len)
  {
  }

  lemma HeadWindow(pos: nat, len: nat)
    requires pos % PAGE_SIZE != 0 && len > 0
    ensures var take := Take(pos, len);
            var rest := WriteWindows(pos + take, len - take);
            && WriteWindows(pos, len) == [(PageFloor(pos), PAGE_SIZE)] + rest
            && |rest| <= 2
            && AscendingWithin(rest, PageFloor(pos) + PAGE_SIZE, PageCeil(pos + len))
  {
    HeadTake(pos, len);
    var take := Take(pos, len);
    assert WriteWindows(pos, len) == [(PageFloor(pos), PAGE_SIZE)] + WriteWindows(pos + take, len - take);
    hide PageFloor, PageCeil, Take, WriteWindows;
    if take < len {
      AlignedWindows(pos + take, len - take);
    } else {
      NoneLeft(pos + take);
    }
  }

  lemma AlignedWindows(pos: nat, len: nat)
    requires pos % PAGE_SIZE == 0
    ensures |WriteWindows(pos, len)| <= 2
    ensures AscendingWithin(WriteWindows(pos, len), pos, PageCeil(pos + len))
  {
    if len >= PAGE_SIZE {
      var body := PageFloor(len);
      BodyWindow(pos, len);
      hide PageFloor, PageCeil, WriteWindows;
      var rest := WriteWindows(pos + body, len - body);
      assert ([(pos, body)] + rest)[1..] == rest;
    } else {
      ShortTail(pos, len);
    }
  }

  lemma BodyWindow(pos: nat, len: nat)
    requires pos % PAGE_SIZE == 0 && len >= PAGE_SIZE
    ensures var body := PageFloor(len);
            var rest := WriteWindows(pos + body, len - body);
            && 0 < body <= len
            && WriteWindows(pos, len) == [(pos, body)] + rest
            && |rest| <= 1
            && AscendingWithin(rest, pos + body, PageCeil(pos + len))
  {
    ShortTail(pos + PageFloor(len), len - PageFloor(len));
  }

  lemma ShortTail(pos: nat, len: nat)
    requires pos % PAGE_SIZE == 0 && len < PAGE_SIZE
    ensures WriteWindows(pos, len) == if len == 0 then [] else [(pos, PAGE_SIZE)]
    ensures pos <= PageCeil(pos + len)
    ensures len > 0 ==> pos + PAGE_SIZE <= PageCeil(pos + len)
  {
    if len > 0 {
      assert WriteWindows(pos, len) == [(PageFloor(pos), PAGE_SIZE)] + WriteWindows(pos + len, 0);
    }
  }
}
