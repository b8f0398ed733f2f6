/**
 The UF2 converter (tools/bin2uf2.py), and a reader of the block layout in the
 'File Format' section of the Microsoft UF2 specification that undoes it.
 */
module Uf2 {
  import opened Wrappers

  /** A Python byte: no bit operations are needed here, so it stays a number. */
  type byte = n: nat | n < 256

  const BASE: nat := 0x1000_0000
  const FAMILY: nat := 0xE48B_FF56
  const MAGIC0: nat := 0x0A32_4655
  const MAGIC1: nat := 0x9E5D_5157
  const MAGIC_END: nat := 0x0AB1_6F30
  const FLAG_FAMILY: nat := 0x2000
  const CHUNK: nat := 256
  const BLOCK: nat := 512
  const DATA: nat := 476
  const WORD_LIMIT: nat := 0x1_0000_0000

  // ------------------------------------------------------------- 32-bit words

  /** `struct.pack('<I', n)` */
  function Word(n: nat): (b: seq<byte>)
    requires n < WORD_LIMIT
    ensures |b| == 4
  {
    FourDigits(n);
    [n % 256, n / 256 % 256, n / 65536 % 256, n / 16777216]
  }

  function WordValue(b: seq<byte>): nat
    requires |b| == 4
  {
    var b0: nat, b1: nat, b2: nat, b3: nat := b[0], b[1], b[2], b[3];
    b0 + 256 * b1 + 65536 * b2 + 16777216 * b3
  }

  lemma WordRoundTrip(n: nat)
    requires n < WORD_LIMIT
    ensures WordValue(Word(n)) == n
  {
    FourDigits(n);
  }

  lemma FourDigits(n: nat)
    requires n < WORD_LIMIT
    ensures n / 16777216 < 256
    ensures n % 256 + 256 * (n / 256 % 256) + 65536 * (n / 65536 % 256) + 16777216 * (n / 16777216) == n
  {
    assert n / 65536 == n / 256 / 256 && n / 16777216 == n / 65536 / 256;
  }

  // ------------------------------------------------------------------ writer

  function BlockCount(len: nat): nat {
    (len + CHUNK - 1) / CHUNK
  }

  /** Whether every field fits the 32 bits `struct.pack` gives it. */
  predicate Packable(len: nat) {
    BASE + BlockCount(len) * CHUNK <= WORD_LIMIT
  }

  function Payload(data: seq<byte>, i: nat): (r: seq<byte>)
    requires i < BlockCount(|data|)
    ensures |r| <= CHUNK
  {
    data[i * CHUNK..if (i + 1) * CHUNK < |data| then (i + 1) * CHUNK else |data|]
  }

  function Zeros(n: nat): (r: seq<byte>)
    ensures |r| == n
  {
    seq(n, _ => 0)
  }

  function Header(addr: nat, size: nat, i: nat, blocks: nat): (r: seq<byte>)
    requires addr < WORD_LIMIT && size < WORD_LIMIT && i < WORD_LIMIT && blocks < WORD_LIMIT
    ensures |r| == 32
  {
    Word(MAGIC0) + Word(MAGIC1) + Word(FLAG_FAMILY) + Word(addr) + Word(size) + Word(i) + Word(blocks) + Word(FAMILY)
  }

  function Block(payload: seq<byte>, i: nat, blocks: nat): (r: seq<byte>)
    requires |payload| <= CHUNK && i < blocks && BASE + blocks * CHUNK <= WORD_LIMIT
    ensures |r| == BLOCK
  {
    Header(BASE + i * CHUNK, |payload|, i, blocks) + payload + Zeros(DATA - |payload|) + Word(MAGIC_END)
  }

  /** The first `n` blocks. */
  function Encoded(data: seq<byte>, n: nat): (r: seq<byte>)
    requires Packable(|data|) && n <= BlockCount(|data|)
    ensures |r| == n * BLOCK
  {
    if n == 0 then []
    else Encoded(data, n - 1) + Block(Payload(data, n - 1), n - 1, BlockCount(|data|))
  }

  /** The conversion loop; none when a field overflows and `struct.pack` raises. */
  method Convert(data: seq<byte>) returns (r: Option<seq<byte>>)
    ensures r.Some? <==> 0x1000_0000 + 256 * ((|data| + 255) / 256) <= 0x1_0000_0000
    ensures r.Some? ==> Packable(|data|) && r.value == Encoded(data, BlockCount(|data|))
  {
    hide Word, Zeros, Header, Encoded;
    EncodedStart(data);
    var blocks := (|data| + CHUNK - 1) / CHUNK;
    var out: seq<byte> := [];
    var i := 0;
    while i < blocks
      invariant 0 <= i <= blocks && BASE + i * CHUNK <= WORD_LIMIT
      invariant Packable(|data|) ==> out == Encoded(data, i)
    {
      var addr := BASE + i * CHUNK;
      if addr >= WORD_LIMIT || blocks >= WORD_LIMIT {
        return None;
      }
      var end := if (i + 1) * CHUNK < |data| then (i + 1) * CHUNK else |data|;
      var payload := data[i * CHUNK..end];
      var block := Header(addr, |payload|, i, blocks) + payload + Zeros(DATA - |payload|) + Word(MAGIC_END);
      EncodedStep(data, i, payload, block);
      out := out + block;
      i := i + 1;
    }
    return Some(out);
  }

  lemma EncodedStart(data: seq<byte>)
    ensures Packable(|data|) ==> Encoded(data, 0) == []
  {
  }

  lemma EncodedStep(data: seq<byte>, i: nat, payload: seq<byte>, block: seq<byte>)
    requires i < BlockCount(|data|) && payload == Payload(data, i)
    requires BASE + i * CHUNK < WORD_LIMIT && BlockCount(|data|) < WORD_LIMIT
    requires block == Header(BASE + i * CHUNK, |payload|, i, BlockCount(|data|)) + payload
                      + Zeros(DATA - |payload|) + Word(MAGIC_END)
    ensures Packable(|data|) ==> Encoded(data, i + 1) == Encoded(data, i) + block
  {
    hide Word, Zeros, Header;
  }

  // ------------------------------------------------------------------ reader

  function Field(block: seq<byte>, k: nat): nat
    requires |block| == BLOCK && k < 8
  {
    WordValue(block[4 * k..4 * k + 4])
  }

  datatype Segment = Segment(addr: nat, bytes: seq<byte>, index: nat, total: nat)

  /**
   A block as the specification describes it: magic numbers, the family-id flag
   and this chip's family, target address, payload size, block number, block
   count, data.
   */
  function ReadBlock(block: seq<byte>): Option<Segment>
    requires |block| == BLOCK
  {
    if && Field(block, 0) == MAGIC0 && Field(block, 1) == MAGIC1
       && WordValue(block[BLOCK - 4..]) == MAGIC_END
       && Field(block, 2) == FLAG_FAMILY && Field(block, 7) == FAMILY && Field(block, 4) <= DATA
    then Some(Segment(Field(block, 3), block[32..32 + Field(block, 4)], Field(block, 5), Field(block, 6)))
    else None
  }

  /** The bytes of the first `n` of `total` blocks, which have to be numbered and to lie at consecutive addresses. */
  function ReadBlocks(out: seq<byte>, n: nat, total: nat): Option<seq<byte>>
    requires n * BLOCK <= |out|
  {
    if n == 0 then Some([])
    else
      var front := ReadBlocks(out, n - 1, total);
      var last := ReadBlock(out[(n - 1) * BLOCK..n * BLOCK]);
      if front.Some? && last.Some? && last.value.addr == BASE + |front.value|
         && last.value.index == n - 1 && last.value.total == total
      then Some(front.value + last.value.bytes)
      else None
  }

  // --------------------------------------------------------------- round trip

  /** The eight words of the header, in their places. */
  lemma HeaderFields(addr: nat, size: nat, i: nat, blocks: nat)
    requires addr < WORD_LIMIT && size < WORD_LIMIT && i < WORD_LIMIT && blocks < WORD_LIMIT
    ensures var h := Header(addr, size, i, blocks);
            && h[0..4] == Word(MAGIC0) && h[4..8] == Word(MAGIC1) && h[8..12] == Word(FLAG_FAMILY)
            && h[12..16] == Word(addr) && h[16..20] == Word(size)
            && h[20..24] == Word(i) && h[24..28] == Word(blocks) && h[28..32] == Word(FAMILY)
  {
    hide Word;
  }

  lemma BlockRoundTrip(payload: seq<byte>, i: nat, blocks: nat)
    requires |payload| <= CHUNK && i < blocks && BASE + blocks * CHUNK <= WORD_LIMIT
    ensures ReadBlock(Block(payload, i, blocks)) == Some(Segment(BASE + i * CHUNK, payload, i, blocks))
  {
    hide Word, WordValue, Header;
    var addr := BASE + i * CHUNK;
    var h := Header(addr, |payload|, i, blocks);
    var b := Block(payload, i, blocks);
    HeaderFields(addr, |payload|, i, blocks);
    forall k | 0 <= k < 8 ensures b[4 * k..4 * k + 4] == h[4 * k..4 * k + 4] {
    }
    assert b[32..32 + |payload|] == payload;
    assert b[BLOCK - 4..] == Word(MAGIC_END);
    WordRoundTrip(MAGIC0);
    WordRoundTrip(MAGIC1);
    WordRoundTrip(FLAG_FAMILY);
    WordRoundTrip(addr);
    WordRoundTrip(|payload|);
    WordRoundTrip(i);
    WordRoundTrip(blocks);
    WordRoundTrip(FAMILY);
    WordRoundTrip(MAGIC_END);
  }

  lemma {:induction false} ReadsPrefix(out: seq<byte>, more: seq<byte>, n: nat, total: nat)
    requires n * BLOCK <= |out|
    ensures ReadBlocks(out + more, n, total) == ReadBlocks(out, n, total)
  {
    hide ReadBlock;
    if n > 0 {
      ReadsPrefix(out, more, n - 1, total);
      assert (out + more)[(n - 1) * BLOCK..n * BLOCK] == out[(n - 1) * BLOCK..n * BLOCK];
    }
  }

  function Upto(data: seq<byte>, n: nat): seq<byte> {
    data[..if n * CHUNK < |data| then n * CHUNK else |data|]
  }

  lemma PayloadExtends(data: seq<byte>, n: nat)
    requires 0 < n <= BlockCount(|data|)
    ensures Upto(data, n - 1) + Payload(data, n - 1) == Upto(data, n)
    ensures |Upto(data, n - 1)| == (n - 1) * CHUNK
  {
  }

  lemma {:induction false} EncodedReads(data: seq<byte>, n: nat)
    requires Packable(|data|) && n <= BlockCount(|data|)
    ensures ReadBlocks(Encoded(data, n), n, BlockCount(|data|)) == Some(Upto(data, n))
  {
    hide ReadBlock, Block, Upto, Payload;
    if n == 0 {
      NothingRead(data);
    } else {
      var front := Encoded(data, n - 1);
      var block := Block(Payload(data, n - 1), n - 1, BlockCount(|data|));
      EncodedReads(data, n - 1);
      ReadsPrefix(front, block, n - 1, BlockCount(|data|));
      BlockRoundTrip(Payload(data, n - 1), n - 1, BlockCount(|data|));
      assert (front + block)[(n - 1) * BLOCK..n * BLOCK] == block;
      PayloadExtends(data, n);
    }
  }

  lemma NothingRead(data: seq<byte>)
    ensures Upto(data, 0) == []
  {
  }

  /**
   Reading the blocks back returns the file, at consecutive addresses from the
   flash base; the output has 512 bytes for every started 256.
   */
  lemma RoundTrip(data: seq<byte>)
    requires Packable(|data|)
    ensures var out := Encoded(data, BlockCount(|data|));
            |out| == 512 * ((|data| + 255) / 256) && ReadBlocks(out, |out| / 512, |out| / 512) == Some(data)
  {
    hide ReadBlocks, Encoded;
    EncodedReads(data, BlockCount(|data|));
    assert data[..|data|] == data;
  }

  // ---------------------------------------------------- the file, in numbers

  lemma {:induction false} BlockOfFile(data: seq<byte>, n: nat, i: nat)
    requires Packable(|data|) && i < n <= BlockCount(|data|)
    ensures Encoded(data, n)[i * BLOCK..(i + 1) * BLOCK] == Block(Payload(data, i), i, BlockCount(|data|))
  {
    hide Block, Payload;
    var front := Encoded(data, n - 1);
    var last := Block(Payload(data, n - 1), n - 1, BlockCount(|data|));
    if i < n - 1 {
      BlockOfFile(data, n - 1, i);
      assert (front + last)[i * BLOCK..(i + 1) * BLOCK] == front[i * BLOCK..(i + 1) * BLOCK];
    } else {
      assert (front + last)[i * BLOCK..(i + 1) * BLOCK] == last;
    }
  }

  lemma FixedWords()
    ensures Word(MAGIC0) == [0x55, 0x46, 0x32, 0x0A] && Word(MAGIC1) == [0x57, 0x51, 0x5D, 0x9E]
    ensures Word(MAGIC_END) == [0x30, 0x6F, 0xB1, 0x0A]
    ensures Word(FLAG_FAMILY) == [0x00, 0x20, 0x00, 0x00] && Word(FAMILY) == [0x56, 0xFF, 0x8B, 0xE4]
  {
  }

  lemma BlockWords(payload: seq<byte>, i: nat, blocks: nat)
    requires |payload| <= CHUNK && i < blocks && BASE + blocks * CHUNK <= WORD_LIMIT
    ensures var b := Block(payload, i, blocks);
            && b[0..4] == Word(MAGIC0) && b[4..8] == Word(MAGIC1) && b[8..12] == Word(FLAG_FAMILY)
            && b[12..16] == Word(BASE + i * CHUNK) && b[16..20] == Word(|payload|)
            && b[20..24] == Word(i) && b[24..28] == Word(blocks) && b[28..32] == Word(FAMILY)
            && b[32..32 + |payload|] == payload && b[508..512] == Word(MAGIC_END)
  {
    hide Word, Header;
    var b, h := Block(payload, i, blocks), Header(BASE + i * CHUNK, |payload|, i, blocks);
    HeaderFields(BASE + i * CHUNK, |payload|, i, blocks);
    assert b[..32] == h;
    forall lo: nat, hi: nat | lo <= hi <= 32 ensures b[lo..hi] == h[lo..hi] {
      assert b[lo..hi] == b[..32][lo..hi];
    }
  }

  /**
   Every block of the file, byte by byte: the magic numbers, the family flag and
   the RP2040's family id, the flash address, and the number, count and size that
   go with 256 bytes of the input at the same distance.
   */
  lemma BlockInNumbers(data: seq<byte>, i: nat)
    requires Packable(|data|) && i < BlockCount(|data|)
    ensures |Encoded(data, BlockCount(|data|))| == 512 * BlockCount(|data|)
    ensures var b := Encoded(data, BlockCount(|data|))[512 * i..512 * i + 512];
            var n := if 256 * i + 256 < |data| then 256 else |data| - 256 * i;
            && b[0..4] == [0x55, 0x46, 0x32, 0x0A] && b[4..8] == [0x57, 0x51, 0x5D, 0x9E]
            && b[8..12] == [0x00, 0x20, 0x00, 0x00] && b[28..32] == [0x56, 0xFF, 0x8B, 0xE4]
            && b[508..512] == [0x30, 0x6F, 0xB1, 0x0A]
            && WordValue(b[12..16]) == 0x1000_0000 + 256 * i
            && WordValue(b[16..20]) == n && WordValue(b[20..24]) == i
            && WordValue(b[24..28]) == (|data| + 255) / 256
            && 0 < n && b[32..32 + n] == data[256 * i..256 * i + n]
  {
    hide Word, WordValue, Header, Block, Encoded;
    var blocks, payload := BlockCount(|data|), Payload(data, i);
    BlockOfFile(data, blocks, i);
    BlockWords(payload, i, blocks);
    FixedWords();
    WordRoundTrip(BASE + i * CHUNK);
    WordRoundTrip(|payload|);
    WordRoundTrip(i);
    WordRoundTrip(blocks);
  }
}
