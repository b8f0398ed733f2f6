/**
 Burst detection: two images that differ only inside 32 consecutive bits never
 have the same CRC, and 32 is the best possible bound.

 The bits of an image are numbered in the order in which they enter the
 register: byte by byte, least significant bit first.
 */
module Crc32Burst {
  import opened Nor
  import opened Register
  import opened Crc32

  function Lsb(bit: bool): bv32 {
    if bit then 1 else 0
  }

  function BitStep(crc: bv32, bit: bool): bv32 {
    Step(Add(crc, Lsb(bit)))
  }

  predicate LowBit(x: bv32) { x & 1 == 1 }

  function Half(x: bv32): bv32 { x >> 1 }

  function ByteBits(b: byte): (r: seq<bool>)
    ensures |r| == 8
  {
    Digits(LowBit, Half, b as bv32, BITS)
  }

  function ImageBits(data: seq<byte>): seq<bool> {
    Expand(ByteBits, data)
  }

  // ------------------------------------------- one byte at a time or one bit

  function Upper(x: bv32): bv32 { x & 0xFFFF_FFFE }

  lemma SplitLowBit(x: bv32)
    ensures Add(Lsb(LowBit(x)), Upper(x)) == x
  {
    LowBitValue(x);
    assert (x & 1) ^ (x & 0xFFFF_FFFE) == x;
  }

  lemma LowBitValue(x: bv32)
    ensures Lsb(LowBit(x)) == x & 1
  {
  }

  lemma UpperSteps(x: bv32)
    ensures Step(Upper(x)) == Half(x)
  {
    StepOfEven(x & 0xFFFF_FFFE);
    assert (x & 0xFFFF_FFFE) >> 1 == x >> 1;
  }

  /** XORing a whole word in and then stepping is XORing its low bit in, stepping, and keeping the rest. */
  lemma StepInjectsLowBit(crc: bv32, x: bv32)
    ensures Step(Add(crc, x)) == Add(BitStep(crc, LowBit(x)), Half(x))
  {
    hide Add, Lsb, LowBit, Upper, Step, Half;
    var l := Lsb(LowBit(x));
    SplitLowBit(x);
    AddAssociates(crc, l, Upper(x));
    StepLinear(Add(crc, l), Upper(x));
    UpperSteps(x);
  }

  lemma AddZero(crc: bv32)
    ensures Add(crc, 0) == crc
  {
  }

  lemma ByteFits(b: byte)
    ensures Iterate(Half, b as bv32, BITS) == 0
  {
    var x := b as bv32;
    assert x >> 1 >> 1 >> 1 >> 1 >> 1 >> 1 >> 1 >> 1 == 0;
    assert Iterate(Half, x, 8) == 0;
  }

  lemma ByteStepIsBits(crc: bv32, b: byte)
    ensures ByteStep(crc, b) == Run(BitStep, crc, ByteBits(b))
  {
    hide Add, Step, LowBit, Half, BitStep, Inject;
    ByteFits(b);
    forall p: bv32, q: bv32 ensures Step(Add(p, q)) == Add(BitStep(p, LowBit(q)), Half(q)) {
      StepInjectsLowBit(p, q);
    }
    forall p: bv32 ensures Add(p, 0) == p {
      AddZero(p);
    }
    IterateIsRun(Step, BitStep, Add, LowBit, Half, 0, crc, b as bv32, BITS);
    InjectIsAdd(crc, b);
  }

  lemma InjectIsAdd(crc: bv32, b: byte)
    ensures Inject(crc, b) == Add(crc, b as bv32)
  {
  }

  /** The byte-wise register is the bit-wise register on the image's bits. */
  lemma FoldIsBitRun(crc: bv32, data: seq<byte>)
    ensures Fold(crc, data) == Run(BitStep, crc, ImageBits(data))
  {
    forall q: bv32, b: byte ensures ByteStep(q, b) == Run(BitStep, q, ByteBits(b)) {
      ByteStepIsBits(q, b);
    }
    RunExpand(ByteStep, BitStep, ByteBits, crc, data);
  }

  // ------------------------------------------------------ windows of 32 bits

  /** The word whose low bit is `bit` and whose other bits are those of `t`. */
  function Push(bit: bool, t: bv32): bv32 {
    Lsb(bit) | (t << 1)
  }

  /** The number whose bits, least significant first, are `w`. */
  function Word(w: seq<bool>): bv32 {
    Unwind(Push, 0, w)
  }

  /** `t` has at most `n` significant bits. */
  predicate Fits(n: nat, t: bv32) {
    Iterate(Half, t, n) == 0
  }

  lemma {:induction false} ZeroFits(n: nat)
    ensures Iterate(Half, 0, n) == 0
  {
    if n > 0 { ZeroFits(n - 1); }
  }

  lemma {:induction false} FitsMore(n: nat, m: nat, t: bv32)
    requires n <= m && Fits(n, t)
    ensures Fits(m, t)
    decreases n
  {
    if n == 0 { ZeroFits(m); } else { FitsMore(n - 1, m - 1, Half(t)); }
  }

  lemma EightHalves(t: bv32)
    ensures Iterate(Half, t, BITS) == DropByte(t)
  {
    assert t >> 1 >> 1 >> 1 >> 1 >> 1 >> 1 >> 1 >> 1 == t >> 8;
    assert Iterate(Half, t, 8) == t >> 8;
  }

  lemma SevenHalves(t: bv32)
    ensures Iterate(Half, t, 7) == t >> 7
  {
    assert t >> 1 >> 1 >> 1 >> 1 >> 1 >> 1 >> 1 == t >> 7;
  }

  lemma FitsBelow(n: nat, t: bv32)
    requires n <= 31 && Fits(n, t)
    ensures t < 0x8000_0000
  {
    hide Half, DropByte, Iterate;
    var t1 := DropByte(t);
    var t2 := DropByte(t1);
    FitsMore(n, 31, t);
    IterateSplit(Half, t, BITS, 23);
    EightHalves(t);
    IterateSplit(Half, t1, BITS, 15);
    EightHalves(t1);
    IterateSplit(Half, t2, BITS, 7);
    EightHalves(t2);
    TopBitClear(t);
  }

  lemma TopBitClear(t: bv32)
    ensures Iterate(Half, DropByte(DropByte(DropByte(t))), 7) == 0 ==> t < 0x8000_0000
  {
    SevenHalves(t >> 8 >> 8 >> 8);
    assert t >> 8 >> 8 >> 8 >> 7 == 0 ==> t < 0x8000_0000;
  }

  lemma ShiftBack(t: bv32)
    requires t < 0x8000_0000
    ensures (1 | (t << 1)) >> 1 == t
    ensures (0 | (t << 1)) >> 1 == t
    ensures 1 | (t << 1) != 0
  {
  }

  lemma HalfOfPush(bit: bool, t: bv32)
    requires t < 0x8000_0000
    ensures Half(Push(bit, t)) == t
  {
    ShiftBack(t);
    if bit {
      assert Push(bit, t) == 1 | (t << 1);
    } else {
      assert Push(bit, t) == 0 | (t << 1);
    }
  }

  lemma PushFits(n: nat, bit: bool, t: bv32)
    requires n <= 31 && Fits(n, t)
    ensures Fits(n + 1, Push(bit, t))
  {
    FitsBelow(n, t);
    HalfOfPush(bit, t);
  }

  /** The only state that steps to a small `t` on input `bit` is `t` shifted up with `bit` below it. */
  lemma StepReachesIff(s: bv32, bit: bool, t: bv32)
    requires t < 0x8000_0000
    ensures BitStep(s, bit) == t <==> s == Push(bit, t)
  {
    StepOfShifted(t);
    AddPush(bit, t);
    if BitStep(s, bit) == t {
      StepInjective(Add(s, Lsb(bit)), t << 1);
      AddCancels(s, Lsb(bit), t << 1);
    }
  }

  lemma StepOfShifted(t: bv32)
    requires t < 0x8000_0000
    ensures Step(t << 1) == t
  {
    assert (t << 1) & 1 == 0;
    assert (t << 1) >> 1 == t;
  }

  lemma AddPush(bit: bool, t: bv32)
    ensures Add(Push(bit, t), Lsb(bit)) == t << 1
    ensures Push(bit, t) == Add(t << 1, Lsb(bit))
  {
    if bit {
      assert (1 | (t << 1)) ^ 1 == t << 1;
      assert 1 | (t << 1) == (t << 1) ^ 1;
    } else {
      assert 0 | (t << 1) == t << 1;
      assert (t << 1) ^ 0 == t << 1;
    }
  }

  lemma AddCancels(a: bv32, b: bv32, c: bv32)
    requires Add(a, b) == c
    ensures a == Add(c, b)
  {
  }

  /**
   Feeding at most 32 bits drives the register to zero from exactly one start
   state: the number those bits spell.
   */
  lemma ReachesZeroIff(s: bv32, w: seq<bool>)
    requires |w| <= 32
    ensures Run(BitStep, s, w) == 0 <==> s == Word(w)
    ensures |w| < 32 ==> Fits(|w|, Word(w))
  {
    forall n: nat, bit: bool, t: bv32 | n < 31 && Fits(n, t) ensures Fits(n + 1, Push(bit, t)) {
      PushFits(n, bit, t);
    }
    forall n: nat, q: bv32, bit: bool, t: bv32 | n < 32 && Fits(n, t)
      ensures BitStep(q, bit) == t <==> q == Push(bit, t)
    {
      FitsBelow(n, t);
      StepReachesIff(q, bit, t);
    }
    RunReachesIff(BitStep, Push, Fits, 32, 0, s, w);
  }

  lemma PushZero(bit: bool, t: bv32)
    requires t < 0x8000_0000 && Push(bit, t) == 0
    ensures !bit && t == 0
  {
    HalfOfPush(bit, t);
    ShiftBack(t);
  }

  lemma {:induction false} WordZero(w: seq<bool>)
    requires |w| <= 32 && Word(w) == 0
    ensures forall i :: 0 <= i < |w| ==> !w[i]
  {
    if w != [] {
      ReachesZeroIff(0, w[1..]);
      FitsBelow(|w| - 1, Word(w[1..]));
      PushZero(w[0], Word(w[1..]));
      WordZero(w[1..]);
      assert forall i :: 0 < i < |w| ==> w[i] == w[1..][i - 1];
    }
  }

  predicate AddBit(v: bool, w: bool) { v != w }

  lemma BitStepLinear(a: bv32, b: bv32, v: bool, w: bool)
    ensures BitStep(Add(a, b), AddBit(v, w)) == Add(BitStep(a, v), BitStep(b, w))
  {
    hide Add, Lsb, AddBit, Step;
    LsbLinear(a, b, v, w);
    StepLinear(Add(a, Lsb(v)), Add(b, Lsb(w)));
  }

  lemma LsbLinear(a: bv32, b: bv32, v: bool, w: bool)
    ensures Add(Add(a, b), Lsb(AddBit(v, w))) == Add(Add(a, Lsb(v)), Add(b, Lsb(w)))
  {
    assert Lsb(AddBit(v, w)) == Add(Lsb(v), Lsb(w));
    hide Add, Lsb, AddBit;
    AddInterchange(a, b, Lsb(v), Lsb(w));
  }

  lemma BitRunLinear(a: bv32, b: bv32, v: seq<bool>, w: seq<bool>)
    requires |v| == |w|
    ensures Run(BitStep, Add(a, b), Zip(AddBit, v, w)) == Add(Run(BitStep, a, v), Run(BitStep, b, w))
  {
    forall p: bv32, q: bv32, s: bool, t: bool
      ensures BitStep(Add(p, q), AddBit(s, t)) == Add(BitStep(p, s), BitStep(q, t))
    {
      BitStepLinear(p, q, s, t);
    }
    RunLinear(BitStep, Add, AddBit, a, b, v, w);
  }

  /** Different windows of at most 32 bits leave different registers behind. */
  lemma WindowInjective(crc: bv32, v: seq<bool>, w: seq<bool>)
    requires |v| == |w| <= 32
    requires Run(BitStep, crc, v) == Run(BitStep, crc, w)
    ensures v == w
  {
    var d := Zip(AddBit, v, w);
    BitRunLinear(crc, crc, v, w);
    AddZeroIff(Run(BitStep, crc, v), Run(BitStep, crc, w));
    AddZeroIff(crc, crc);
    ReachesZeroIff(0, d);
    WordZero(d);
    forall i | 0 <= i < |v| ensures v[i] == w[i] {
      assert !d[i];
    }
  }

  /** A common suffix of any length keeps different registers different. */
  lemma SuffixInjective(a: bv32, b: bv32, bits: seq<bool>)
    requires a != b
    ensures Run(BitStep, a, bits) != Run(BitStep, b, bits)
  {
    forall p: bv32, q: bv32, s: bool | BitStep(p, s) == BitStep(q, s) ensures p == q {
      StepInjective(Add(p, Lsb(s)), Add(q, Lsb(s)));
      AddCancels(p, Lsb(s), Add(q, Lsb(s)));
      AddCancels(q, Lsb(s), Add(q, Lsb(s)));
    }
    RunInjective(BitStep, a, b, bits);
  }

  // ---------------------------------------------------------------- theorem

  lemma HalvesDecide(p: bv32, q: bv32)
    requires LowBit(p) == LowBit(q) && Half(p) == Half(q)
    ensures p == q
  {
  }

  lemma ByteBitsInjective(x: byte, y: byte)
    requires ByteBits(x) == ByteBits(y)
    ensures x == y
  {
    hide LowBit, Half;
    ByteFits(x);
    ByteFits(y);
    forall p: bv32, q: bv32 | LowBit(p) == LowBit(q) && Half(p) == Half(q) ensures p == q {
      HalvesDecide(p, q);
    }
    DigitsInjective(LowBit, Half, 0, x as bv32, y as bv32, BITS);
    WideningInjective(x, y);
  }

  lemma WideningInjective(x: byte, y: byte)
    requires x as bv32 == y as bv32
    ensures x == y
  {
  }

  lemma ImageBitsFirst(x: seq<byte>)
    requires x != []
    ensures ImageBits(x)[..8] == ByteBits(x[0]) && ImageBits(x)[8..] == ImageBits(x[1..])
  {
    hide ByteBits;
  }

  lemma {:induction false} ImageBitsInjective(x: seq<byte>, y: seq<byte>)
    requires |x| == |y| && ImageBits(x) == ImageBits(y)
    ensures x == y
  {
    hide ImageBits, ByteBits;
    if x != [] {
      ImageBitsFirst(x);
      ImageBitsFirst(y);
      ByteBitsInjective(x[0], y[0]);
      ImageBitsInjective(x[1..], y[1..]);
      assert x == [x[0]] + x[1..] && y == [y[0]] + y[1..];
    }
  }

  /** `v` and `w` agree everywhere except possibly in `[lo, hi)`. */
  ghost predicate DifferOnlyWithin(v: seq<bool>, w: seq<bool>, lo: nat, hi: nat) {
    && lo <= hi <= |v| == |w|
    && v[..lo] == w[..lo]
    && v[hi..] == w[hi..]
  }

  /** `x` and `y` are images of one length whose bits differ only inside a window of at most 32. */
  ghost predicate BurstApart(x: seq<byte>, y: seq<byte>) {
    && |x| == |y|
    && exists lo: nat, hi: nat :: hi <= lo + 32 && DifferOnlyWithin(ImageBits(x), ImageBits(y), lo, hi)
  }

  lemma ThreeParts(v: seq<bool>, lo: nat, hi: nat)
    requires lo <= hi <= |v|
    ensures v == v[..lo] + (v[lo..hi] + v[hi..])
  {
  }

  /** Bit streams that differ only inside a window of at most 32 bits, but do differ, never collide. */
  lemma WindowDetected(crc: bv32, v: seq<bool>, w: seq<bool>, lo: nat, hi: nat)
    requires DifferOnlyWithin(v, w, lo, hi) && hi <= lo + 32
    requires v != w
    ensures Run(BitStep, crc, v) != Run(BitStep, crc, w)
  {
    hide Run, BitStep;
    var common, rest := v[..lo], v[hi..];
    ThreeParts(v, lo, hi);
    ThreeParts(w, lo, hi);
    var c := Run(BitStep, crc, common);
    RunConcat(BitStep, crc, common, v[lo..hi] + rest);
    RunConcat(BitStep, crc, common, w[lo..hi] + rest);
    RunConcat(BitStep, c, v[lo..hi], rest);
    RunConcat(BitStep, c, w[lo..hi], rest);
    if Run(BitStep, c, v[lo..hi]) == Run(BitStep, c, w[lo..hi]) {
      WindowInjective(c, v[lo..hi], w[lo..hi]);
    }
    SuffixInjective(Run(BitStep, c, v[lo..hi]), Run(BitStep, c, w[lo..hi]), rest);
  }

  /**
   Every error burst of at most 32 bits is detected: from any start state, at
   any bit position, in images of any length.
   */
  lemma BurstDetected(crc: bv32, x: seq<byte>, y: seq<byte>)
    requires BurstApart(x, y)
    ensures Fold(crc, x) == Fold(crc, y) <==> x == y
  {
    if x != y {
      var lo: nat, hi: nat :| hi <= lo + 32 && DifferOnlyWithin(ImageBits(x), ImageBits(y), lo, hi);
      if ImageBits(x) == ImageBits(y) {
        ImageBitsInjective(x, y);
      }
      WindowDetected(crc, ImageBits(x), ImageBits(y), lo, hi);
      FoldIsBitRun(crc, x);
      FoldIsBitRun(crc, y);
    }
  }

  /** The generator polynomial as an error pattern: a one, then the 32 bits of POLY. */
  const GENERATOR: seq<byte> := [0x41, 0x06, 0x71, 0xDB, 0x01]

  lemma GeneratorInvisible()
    ensures Fold(0, GENERATOR) == 0
  {
    assert ByteStep(0x0, 0x41) == 0x1DB7106;
    assert ByteStep(0x1DB7106, 0x06) == 0x1DB71;
    assert ByteStep(0x1DB71, 0x71) == 0x1DB;
    assert ByteStep(0x1DB, 0xDB) == 0x1;
    assert ByteStep(0x1, 0x01) == 0x0;
    hide ByteStep;
    assert Run(ByteStep, 0x0, GENERATOR) == Run(ByteStep, 0x1DB7106, GENERATOR[1..]);
    assert Run(ByteStep, 0x1DB7106, GENERATOR[1..]) == Run(ByteStep, 0x1DB71, GENERATOR[2..]);
    assert Run(ByteStep, 0x1DB71, GENERATOR[2..]) == Run(ByteStep, 0x1DB, GENERATOR[3..]);
    assert Run(ByteStep, 0x1DB, GENERATOR[3..]) == Run(ByteStep, 0x1, GENERATOR[4..]);
    assert Run(ByteStep, 0x1, GENERATOR[4..]) == Run(ByteStep, 0x0, GENERATOR[5..]);
  }

  lemma {:induction false} ImageBitsConcat(x: seq<byte>, y: seq<byte>)
    ensures ImageBits(x + y) == ImageBits(x) + ImageBits(y)
    ensures |ImageBits(x)| == 8 * |x|
  {
    hide ByteBits;
    if x == [] {
      assert x + y == y;
    } else {
      ImageBitsConcat(x[1..], y);
      assert (x + y)[0] == x[0] && (x + y)[1..] == x[1..] + y;
    }
  }

  /** `x` with the generator added to the five bytes from `k` on. */
  function Disturbed(x: seq<byte>, k: nat): (y: seq<byte>)
    requires k + |GENERATOR| <= |x|
    ensures |y| == |x|
  {
    x[..k] + Zip(AddByte, x[k..k + |GENERATOR|], GENERATOR) + x[k + |GENERATOR|..]
  }

  lemma AddByteUndo(x: byte, e: byte)
    ensures AddByte(x, AddByte(x, e)) == e
    ensures AddByte(x, e) == x ==> e == 0
  {
  }

  /** Adding the generator changes an image of five bytes, and no register can tell. */
  lemma GeneratorUndetected(crc: bv32, w: seq<byte>)
    requires |w| == |GENERATOR|
    ensures Zip(AddByte, w, GENERATOR) != w
    ensures Fold(crc, Zip(AddByte, w, GENERATOR)) == Fold(crc, w)
  {
    hide AddByte, Fold;
    var v := Zip(AddByte, w, GENERATOR);
    AddByteUndo(w[0], GENERATOR[0]);
    forall i | 0 <= i < |w| ensures Zip(AddByte, w, v)[i] == GENERATOR[i] {
      AddByteUndo(w[i], GENERATOR[i]);
    }
    assert Zip(AddByte, w, v) == GENERATOR;
    CollisionIff(crc, w, v);
    GeneratorInvisible();
  }

  lemma FlippedLowBit(b: byte)
    ensures Half(AddByte(b, 0x01) as bv32) == Half(b as bv32)
  {
  }

  /** The last byte of the generator reaches one bit into the byte it is added to. */
  lemma LastByteBits(b: byte)
    ensures ByteBits(AddByte(b, 0x01))[1..] == ByteBits(b)[1..]
  {
    FlippedLowBit(b);
    hide AddByte, Half, LowBit;
    var x, y := b as bv32, AddByte(b, 0x01) as bv32;
    assert Digits(LowBit, Half, x, BITS)[1..] == Digits(LowBit, Half, Half(x), 7);
    assert Digits(LowBit, Half, y, BITS)[1..] == Digits(LowBit, Half, Half(y), 7);
  }

  lemma GeneratorSpans33Bits(w: seq<byte>)
    requires |w| == |GENERATOR|
    ensures var v := Zip(AddByte, w, GENERATOR);
            |ImageBits(w)| == |ImageBits(v)| == 40 && ImageBits(v)[33..] == ImageBits(w)[33..]
  {
    hide ByteBits, AddByte;
    var v := Zip(AddByte, w, GENERATOR);
    LastByteBits(w[4]);
    LastByteOf(w);
    LastByteOf(v);
  }

  lemma LastByteOf(w: seq<byte>)
    requires |w| == 5
    ensures |ImageBits(w)| == 40 && ImageBits(w)[33..] == ByteBits(w[4])[1..]
  {
    hide ByteBits;
    ImageBitsConcat(w[..4], [w[4]]);
    ImageBitsConcat([w[4]], []);
    assert w == w[..4] + [w[4]];
    assert ImageBits([w[4]]) == ByteBits(w[4]) by {
      assert [w[4]][1..] == [];
    }
  }

  /**
   32 cannot be improved to 33: added to any image at any byte, the generator
   polynomial is a 33-bit error that no start state can tell from silence.
   */
  lemma BurstBoundTight(crc: bv32, x: seq<byte>, k: nat)
    requires k + |GENERATOR| <= |x|
    ensures Disturbed(x, k) != x
    ensures Fold(crc, Disturbed(x, k)) == Fold(crc, x)
    ensures DifferOnlyWithin(ImageBits(x), ImageBits(Disturbed(x, k)), 8 * k, 8 * k + 33)
  {
    hide Fold, ImageBits, AddByte, Zip;
    var a, w, b := x[..k], x[k..k + |GENERATOR|], x[k + |GENERATOR|..];
    var v := Zip(AddByte, w, GENERATOR);
    assert x == a + w + b;
    var c := Fold(crc, a);
    GeneratorUndetected(c, w);
    FoldConcat(crc, a, w);
    FoldConcat(crc, a + w, b);
    FoldConcat(crc, a, v);
    FoldConcat(crc, a + v, b);
    assert Disturbed(x, k)[k..k + |GENERATOR|] == v;
    DisturbedBits(a, w, v, b);
  }

  lemma DisturbedBits(a: seq<byte>, w: seq<byte>, v: seq<byte>, b: seq<byte>)
    requires |w| == |GENERATOR| && v == Zip(AddByte, w, GENERATOR)
    ensures DifferOnlyWithin(ImageBits(a + w + b), ImageBits(a + v + b), 8 * |a|, 8 * |a| + 33)
  {
    hide ImageBits, AddByte;
    GeneratorSpans33Bits(w);
    ImageBitsConcat(a, w);
    ImageBitsConcat(a, v);
    ImageBitsConcat(a + w, b);
    ImageBitsConcat(a + v, b);
    Framed33(ImageBits(a), ImageBits(w), ImageBits(v), ImageBits(b));
  }

  lemma Framed33(a: seq<bool>, w: seq<bool>, v: seq<bool>, b: seq<bool>)
    requires |w| == |v| == 40 && v[33..] == w[33..]
    ensures DifferOnlyWithin(a + w + b, a + v + b, |a|, |a| + 33)
  {
    assert (a + w + b)[..|a|] == a == (a + v + b)[..|a|];
    assert (a + w + b)[|a| + 33..] == w[33..] + b;
    assert (a + v + b)[|a| + 33..] == v[33..] + b;
  }
}
