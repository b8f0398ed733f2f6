/**
 The CRC-32 of the update protocol (src/fw_update.rs), computed bit by bit as
 the firmware does, and the algebra that makes it worth sending: the register
 is GF(2)-linear in state and data, the bit step is a bijection, and the
 bitwise loop equals the table-driven algorithm of section 8 of RFC 1952.
 */
module Crc32 {
  import opened Nor
  import opened Register

  const POLY: bv32 := 0xEDB8_8320
  const INIT: bv32 := 0xFFFF_FFFF
  const BITS: nat := 8

  /** One turn of the inner loop. */
  function Step(crc: bv32): bv32 {
    if crc & 1 == 1 then (crc >> 1) ^ POLY else crc >> 1
  }

  /** XORing a byte into the register. */
  function Inject(crc: bv32, b: byte): bv32 {
    crc ^ (b as bv32)
  }

  /** One turn of the outer loop. */
  function ByteStep(crc: bv32, b: byte): bv32 {
    Iterate(Step, Inject(crc, b), BITS)
  }

  /** The register after a whole slice. */
  function Fold(crc: bv32, data: seq<byte>): bv32 {
    Run(ByteStep, crc, data)
  }

  function Complement(crc: bv32): bv32 {
    !crc
  }

  /** The checksum that goes on the wire. */
  function Crc(data: seq<byte>): bv32 {
    Complement(Fold(INIT, data))
  }

  /** The branch-free body of the inner loop, which masks the polynomial instead of testing the bit. */
  method MaskedStep(crc: bv32) returns (r: bv32)
    ensures r == Step(crc)
  {
    var mask := 0 - (crc & 1);
    r := (crc >> 1) ^ (POLY & mask);
    if crc & 1 == 1 {
      assert mask == 0xFFFF_FFFF;
    } else {
      assert crc & 1 == 0;
      assert POLY & 0 == 0;
    }
  }

  method Update(crc0: bv32, data: seq<byte>) returns (crc: bv32)
    ensures crc == Fold(crc0, data)
  {
    hide Step;
    crc := crc0;
    for i := 0 to |data|
      invariant Run(ByteStep, crc, data[i..]) == Fold(crc0, data)
    {
      ghost var next := ByteStep(crc, data[i]);
      crc := crc ^ (data[i] as bv32);
      for k := 0 to BITS
        invariant Iterate(Step, crc, BITS - k) == next
      {
        crc := MaskedStep(crc);
      }
      assert data[i..][1..] == data[i + 1..];
    }
  }

  /** `!crc32_update(0xFFFF_FFFF, data)` */
  method Checksum(data: seq<byte>) returns (crc: bv32)
    ensures crc == Crc(data)
    ensures crc == Rfc1952Crc(data)
  {
    hide Complement, Rfc1952Crc;
    ChecksumIsRfc1952(data);
    crc := Update(INIT, data);
    crc := Complement(crc);
  }

  /** Chunking is invisible: the register depends only on the bytes, not on how they were sliced. */
  lemma ChunkingInvisible(crc: bv32, chunks: seq<seq<byte>>)
    ensures Run(Fold, crc, chunks) == Fold(crc, Flatten(chunks))
  {
    RunChunks(ByteStep, Fold, crc, chunks);
  }

  lemma FoldConcat(crc: bv32, x: seq<byte>, y: seq<byte>)
    ensures Fold(crc, x + y) == Fold(Fold(crc, x), y)
  {
    RunConcat(ByteStep, crc, x, y);
  }

  // --------------------------------------------------------------- linearity

  function Add(a: bv32, b: bv32): bv32 { a ^ b }

  function AddByte(x: byte, y: byte): byte { x ^ y }

  lemma StepLinear(a: bv32, b: bv32)
    ensures Step(Add(a, b)) == Add(Step(a), Step(b))
  {
    if a & 1 == 1 {
      if b & 1 == 1 { StepLinearOddOdd(a, b); } else { StepLinearOddEven(a, b); }
    } else {
      if b & 1 == 1 {
        StepLinearOddEven(b, a);
        AddCommutes(a, b);
        AddCommutes(Step(a), Step(b));
      } else {
        StepLinearEvenEven(a, b);
      }
    }
  }

  lemma AddCommutes(a: bv32, b: bv32)
    ensures Add(a, b) == Add(b, a)
  {
  }

  lemma AddAssociates(a: bv32, b: bv32, c: bv32)
    ensures Add(Add(a, b), c) == Add(a, Add(b, c))
  {
  }

  lemma AddInterchange(a: bv32, b: bv32, c: bv32, d: bv32)
    ensures Add(Add(a, b), Add(c, d)) == Add(Add(a, c), Add(b, d))
  {
    hide Add;
    AddAssociates(a, b, Add(c, d));
    AddAssociates(b, c, d);
    AddCommutes(b, c);
    AddAssociates(c, b, d);
    AddAssociates(a, c, Add(b, d));
  }

  lemma StepLinearOddOdd(a: bv32, b: bv32)
    requires a & 1 == 1 && b & 1 == 1
    ensures Step(Add(a, b)) == Add(Step(a), Step(b))
  {
    assert (a ^ b) & 1 == 0;
    assert (a ^ b) >> 1 == (a >> 1) ^ (b >> 1);
  }

  lemma StepLinearOddEven(a: bv32, b: bv32)
    requires a & 1 == 1 && b & 1 != 1
    ensures Step(Add(a, b)) == Add(Step(a), Step(b))
  {
    assert (a ^ b) & 1 == 1;
    assert (a ^ b) >> 1 == (a >> 1) ^ (b >> 1);
  }

  lemma StepLinearEvenEven(a: bv32, b: bv32)
    requires a & 1 != 1 && b & 1 != 1
    ensures Step(Add(a, b)) == Add(Step(a), Step(b))
  {
    assert (a ^ b) & 1 == 0;
    assert (a ^ b) >> 1 == (a >> 1) ^ (b >> 1);
  }

  lemma StepsLinear(a: bv32, b: bv32, n: nat)
    ensures Iterate(Step, Add(a, b), n) == Add(Iterate(Step, a, n), Iterate(Step, b, n))
  {
    forall p: bv32, q: bv32 ensures Step(Add(p, q)) == Add(Step(p), Step(q)) {
      StepLinear(p, q);
    }
    IterateLinear(Step, Add, a, b, n);
  }

  lemma InjectLinear(a: bv32, b: bv32, x: byte, y: byte)
    ensures Inject(Add(a, b), AddByte(x, y)) == Add(Inject(a, x), Inject(b, y))
  {
  }

  lemma ByteStepLinear(a: bv32, b: bv32, x: byte, y: byte)
    ensures ByteStep(Add(a, b), AddByte(x, y)) == Add(ByteStep(a, x), ByteStep(b, y))
  {
    hide Add, AddByte, Inject, Step;
    InjectLinear(a, b, x, y);
    StepsLinear(Inject(a, x), Inject(b, y), BITS);
  }

  /** The register is linear over GF(2), jointly in the start state and the data. */
  lemma FoldLinear(a: bv32, b: bv32, x: seq<byte>, y: seq<byte>)
    requires |x| == |y|
    ensures Fold(Add(a, b), Zip(AddByte, x, y)) == Add(Fold(a, x), Fold(b, y))
  {
    forall p: bv32, q: bv32, s: byte, t: byte
      ensures ByteStep(Add(p, q), AddByte(s, t)) == Add(ByteStep(p, s), ByteStep(q, t))
    {
      ByteStepLinear(p, q, s, t);
    }
    RunLinear(ByteStep, Add, AddByte, a, b, x, y);
  }

  lemma AddSelf(a: bv32)
    ensures Add(a, a) == 0
  {
  }

  lemma AddUndo(a: bv32, b: bv32)
    ensures Add(Add(a, b), b) == a
  {
  }

  lemma AddToZero(b: bv32)
    ensures Add(0, b) == b
  {
  }

  lemma AddZeroIff(a: bv32, b: bv32)
    ensures Add(a, b) == 0 <==> a == b
  {
    hide Add;
    AddSelf(a);
    AddUndo(a, b);
    AddToZero(b);
  }

  /**
   Exactly when two equal-length images collide: the CRC of their difference,
   started from zero, is zero. Neither the start state nor the images matter.
   */
  lemma CollisionIff(crc: bv32, x: seq<byte>, y: seq<byte>)
    requires |x| == |y|
    ensures Fold(crc, x) == Fold(crc, y) <==> Fold(0, Zip(AddByte, x, y)) == 0
  {
    FoldLinear(crc, crc, x, y);
    AddZeroIff(crc, crc);
    AddZeroIff(Fold(crc, x), Fold(crc, y));
  }

  // --------------------------------------------------------------- bijection

  lemma OddStep(c: bv32)
    requires c & 1 == 1
    ensures Step(c) & 0x8000_0000 != 0
  {
    assert ((c >> 1) ^ POLY) & 0x8000_0000 != 0;
  }

  lemma EvenStep(c: bv32)
    requires c & 1 != 1
    ensures Step(c) == 0 <==> c == 0
  {
  }

  /** The kernel of the bit step is trivial: the polynomial has its top bit set, a shifted value has not. */
  lemma StepKernel(c: bv32)
    ensures Step(c) == 0 <==> c == 0
  {
    if c & 1 == 1 { OddStep(c); } else { EvenStep(c); }
  }

  /** No two register values step to the same one; on 32-bit words the step is thus a bijection. */
  lemma StepInjective(a: bv32, b: bv32)
    requires Step(a) == Step(b)
    ensures a == b
  {
    StepLinear(a, b);
    AddZeroIff(Step(a), Step(b));
    StepKernel(Add(a, b));
    AddZeroIff(a, b);
  }

  // ------------------------------------------------------------- RFC 1952, 8

  // Section 8 of RFC 1952 in its own terms, sharing nothing with the loop above.

  /** One turn of the table-building loop. */
  function TableStep(c: bv32): bv32 {
    if c & 1 != 0 then 0xEDB8_8320 ^ (c >> 1) else c >> 1
  }

  /** Entry `n` of the table. */
  function TableEntry(n: bv32): bv32 {
    Iterate(TableStep, n, 8)
  }

  function TableIndex(c: bv32, b: byte): bv32 { (c ^ (b as bv32)) & 0xFF }

  function Shifted(entry: bv32, c: bv32): bv32 { entry ^ (c >> 8) }

  /** The body of `update_crc`. */
  function TableByteStep(c: bv32, b: byte): bv32 {
    Shifted(TableEntry(TableIndex(c, b)), c)
  }

  /** What `update_crc` does to the register before and after its loop. */
  function FlipAll(c: bv32): bv32 { 0xFFFF_FFFF ^ c }

  /** `crc`: the register starts from zero, flipped. */
  function Rfc1952Crc(data: seq<byte>): bv32 {
    FlipAll(Run(TableByteStep, 0xFFFF_FFFF, data))
  }

  function LowByte(c: bv32): bv32 { c & 0xFF }

  function HighBytes(c: bv32): bv32 { c & 0xFFFF_FF00 }

  function DropByte(c: bv32): bv32 { c >> 8 }

  lemma StepOfEven(c: bv32)
    requires c & 1 == 0
    ensures Step(c) == c >> 1
  {
  }

  lemma LowZeros(c: bv32)
    requires c & 0xFF == 0
    ensures c & 1 == 0
    ensures (c >> 1) & 1 == 0
    ensures (c >> 1 >> 1) & 1 == 0
    ensures (c >> 1 >> 1 >> 1) & 1 == 0
    ensures (c >> 1 >> 1 >> 1 >> 1) & 1 == 0
    ensures (c >> 1 >> 1 >> 1 >> 1 >> 1) & 1 == 0
    ensures (c >> 1 >> 1 >> 1 >> 1 >> 1 >> 1) & 1 == 0
    ensures (c >> 1 >> 1 >> 1 >> 1 >> 1 >> 1 >> 1) & 1 == 0
    ensures c >> 1 >> 1 >> 1 >> 1 >> 1 >> 1 >> 1 >> 1 == c >> 8
  {
  }

  /** Eight steps shift a value with a zero low byte out untouched. */
  lemma StepsOfHighBytes(c: bv32)
    requires LowByte(c) == 0
    ensures Iterate(Step, c, BITS) == DropByte(c)
  {
    LowZeros(c);
    var c1 := c >> 1; StepOfEven(c);
    var c2 := c1 >> 1; StepOfEven(c1);
    var c3 := c2 >> 1; StepOfEven(c2);
    var c4 := c3 >> 1; StepOfEven(c3);
    var c5 := c4 >> 1; StepOfEven(c4);
    var c6 := c5 >> 1; StepOfEven(c5);
    var c7 := c6 >> 1; StepOfEven(c6);
    StepOfEven(c7);
    assert Iterate(Step, c, 8) == Iterate(Step, c1, 7) == Iterate(Step, c2, 6) == Iterate(Step, c3, 5)
        == Iterate(Step, c4, 4) == Iterate(Step, c5, 3) == Iterate(Step, c6, 2) == Iterate(Step, c7, 1);
  }

  lemma TableStepIsStep(c: bv32)
    ensures TableStep(c) == Step(c)
  {
    if c & 1 == 1 {
      assert POLY ^ (c >> 1) == (c >> 1) ^ POLY;
    } else {
      assert c & 1 == 0;
    }
  }

  lemma TableEntryIsSteps(n: bv32)
    ensures TableEntry(n) == Iterate(Step, n, BITS)
  {
    forall c: bv32 ensures TableStep(c) == Step(c) {
      TableStepIsStep(c);
    }
    IterateAgree(TableStep, Step, n, BITS);
  }

  lemma SplitByte(x: bv32)
    ensures Add(LowByte(x), HighBytes(x)) == x
    ensures LowByte(HighBytes(x)) == 0
  {
  }

  lemma InjectKeepsHighBytes(c: bv32, b: byte)
    ensures DropByte(HighBytes(Inject(c, b))) == DropByte(c)
  {
  }

  lemma ByteStepIsTableStep(c: bv32, b: byte)
    ensures ByteStep(c, b) == TableByteStep(c, b)
  {
    hide *;
    var x := Inject(c, b);
    SplitByte(x);
    StepsLinear(LowByte(x), HighBytes(x), BITS);
    StepsOfHighBytes(HighBytes(x));
    InjectKeepsHighBytes(c, b);
    TableEntryIsSteps(LowByte(x));
    ByteStepsUnfold(c, b);
  }

  lemma SameIndex(c: bv32, b: byte)
    ensures TableIndex(c, b) == LowByte(Inject(c, b))
  {
  }

  lemma ShiftedIsAdd(entry: bv32, c: bv32)
    ensures Shifted(entry, c) == Add(entry, DropByte(c))
  {
  }

  lemma ByteStepsUnfold(c: bv32, b: byte)
    ensures ByteStep(c, b) == Iterate(Step, Inject(c, b), BITS)
    ensures TableByteStep(c, b) == Add(TableEntry(LowByte(Inject(c, b))), DropByte(c))
  {
    hide Step, Inject, LowByte, Add, DropByte, TableEntry, TableIndex, Shifted;
    SameIndex(c, b);
    ShiftedIsAdd(TableEntry(LowByte(Inject(c, b))), c);
  }

  /** The firmware's bit loop computes the table-driven CRC, for every input. */
  lemma BitwiseIsTableDriven(c: bv32, data: seq<byte>)
    ensures Fold(c, data) == Run(TableByteStep, c, data)
  {
    hide ByteStep, TableByteStep;
    forall q: bv32, b: byte ensures ByteStep(q, b) == TableByteStep(q, b) {
      ByteStepIsTableStep(q, b);
    }
    RunAgree(ByteStep, TableByteStep, c, data);
  }

  lemma FlipAllIsComplement(c: bv32)
    ensures FlipAll(c) == Complement(c)
  {
  }

  /** The whole checksum is that of section 8 of RFC 1952, initial value and final complement included. */
  lemma ChecksumIsRfc1952(data: seq<byte>)
    ensures Crc(data) == Rfc1952Crc(data)
  {
    hide ByteStep, TableByteStep, Complement, Fold, Run, FlipAll;
    BitwiseIsTableDriven(0xFFFF_FFFF, data);
    FlipAllIsComplement(Run(TableByteStep, 0xFFFF_FFFF, data));
  }

  /** `n` digits of "123456789" in ASCII. */
  function CheckDigits(n: nat): seq<byte>
    requires n <= 9
  {
    [49, 50, 51, 52, 53, 54, 55, 56, 57][..n]
  }

  lemma FoldSnoc(crc: bv32, x: seq<byte>, b: byte)
    ensures Fold(crc, x + [b]) == ByteStep(Fold(crc, x), b)
  {
    hide ByteStep;
    FoldConcat(crc, x, [b]);
    assert [b][1..] == [];
    var c := Fold(crc, x);
    assert Run(ByteStep, c, [b]) == Run(ByteStep, ByteStep(c, b), []);
  }

  lemma NextDigit(n: nat)
    requires n < 9
    ensures Fold(INIT, CheckDigits(n + 1)) == ByteStep(Fold(INIT, CheckDigits(n)), CheckDigits(9)[n])
  {
    hide ByteStep, Fold;
    assert CheckDigits(n + 1) == CheckDigits(n) + [CheckDigits(9)[n]];
    FoldSnoc(INIT, CheckDigits(n), CheckDigits(9)[n]);
  }

  lemma CheckSteps()
    ensures ByteStep(0xFFFF_FFFF, 49) == 0x7C23_1048 && ByteStep(0x7C23_1048, 50) == 0xB0AC_BB32
    ensures ByteStep(0xB0AC_BB32, 51) == 0x77B7_9C2D && ByteStep(0x77B7_9C2D, 52) == 0x641C_1F5C
    ensures ByteStep(0x641C_1F5C, 53) == 0x340A_C5E3
  {
  }

  lemma LastCheckSteps()
    ensures ByteStep(0x340A_C5E3, 54) == 0xF68D_2C9E && ByteStep(0xF68D_2C9E, 55) == 0xAFFC_9660
    ensures ByteStep(0xAFFC_9660, 56) == 0x651F_2550 && ByteStep(0x651F_2550, 57) == 0x340B_C6D9
    ensures Complement(0x340B_C6D9) == 0xCBF4_3926
  {
  }

  /** The check value that catalogues of CRCs list for this one. */
  lemma CheckValue()
    ensures Crc([49, 50, 51, 52, 53, 54, 55, 56, 57]) == 0xCBF4_3926
  {
    hide ByteStep, Fold, Complement;
    CheckSteps();
    LastCheckSteps();
    EmptyFold(INIT);
    NextDigit(0);
    NextDigit(1);
    NextDigit(2);
    NextDigit(3);
    NextDigit(4);
    NextDigit(5);
    NextDigit(6);
    NextDigit(7);
    NextDigit(8);
    assert CheckDigits(9) == [49, 50, 51, 52, 53, 54, 55, 56, 57] && CheckDigits(0) == [];
  }

  lemma EmptyFold(crc: bv32)
    ensures Fold(crc, []) == crc
  {
  }
}
