/** Which changes of an image the checksum always notices, and which it never does. */
module CrcDetection {
  import opened Crc32
  import opened CrcRegister
  import CrcRemainder

  //
  // Linearity
  //

  function XorBytes(a: seq<byte>, b: seq<byte>): (c: seq<byte>)
    requires |a| == |b|
    ensures |c| == |a|
  {
    if a == [] then [] else [a[0] ^ b[0]] + XorBytes(a[1..], b[1..])
  }

  lemma ByteXorWidens(a: byte, b: byte)
    ensures (a ^ b) as bv32 == Xor(a as bv32, b as bv32)
  {
  }

  lemma TableStepLinear(s: bv32, t: bv32, a: byte, b: byte)
    ensures TableStep(Xor(s, t), a ^ b) == Xor(TableStep(s, a), TableStep(t, b))
  {
    hide TableStep, Xor, Shifts, Half;
    var wa, wb := a as bv32, b as bv32;
    TableStepIsShifts(Xor(s, t), a ^ b);
    TableStepIsShifts(s, a);
    TableStepIsShifts(t, b);
    ByteXorWidens(a, b);
    XorAssoc(Xor(s, t), wa, wb);
    XorSwap(s, t, wa);
    XorAssoc(Xor(s, wa), t, wb);
    ShiftsLinear(Xor(s, wa), Xor(t, wb), 8);
  }

  /** The checksum of a sum is the sum of the checksums; with start states zero, nothing else is added. */
  lemma {:induction false} CrcLinear(a: seq<byte>, b: seq<byte>, s: bv32, t: bv32)
    requires |a| == |b|
    ensures Crc(XorBytes(a, b), Xor(s, t)) == Xor(Crc(a, s), Crc(b, t))
  {
    hide TableStep, Xor, Half;
    if a == [] {
    } else {
      TableStepLinear(s, t, a[0], b[0]);
      CrcLinear(a[1..], b[1..], TableStep(s, a[0]), TableStep(t, b[0]));
    }
  }

  //
  // Differences survive
  //

  lemma XorDiffers(a: bv32, b: bv32)
    ensures Xor(a, b) == 0 <==> a == b
  {
    hide Xor, Half;
    XorAssoc(a, b, b);
    XorSelf(b);
    XorZero(a);
    XorComm(0, b);
    XorZero(b);
  }

  lemma FeedbackSetsTopBit(d: bv32)
    ensures Xor(Half(d), POLY) >= 0x80000000
  {
  }

  /** A difference reaching above m bits reaches above m - 1 bits after one step, whatever bits are fed in. */
  lemma StepKeepsReach(a: bv32, b: bv32, x: bool, y: bool, m: nat)
    requires 0 < m <= 32
    requires !Fits(Xor(a, b), m)
    ensures !Fits(Xor(BitStep(a, x), BitStep(b, y)), m - 1)
  {
    hide Xor, LowBit, BitStep, Half;
    var d := Xor(a, b);
    StepDifference(a, b, x, y);
    FeedbackSetsTopBit(d);
    if Xor(BitStep(a, x), BitStep(b, y)) != Half(d) {
      TopBitDoesNotFit(Xor(Half(d), POLY), m - 1);
    }
  }

  lemma InputBitDropsOut(a: bv32, x: bool)
    ensures BitStep(a, x) == (if LowBit(a) != x then Xor(Half(a), POLY) else Half(a))
  {
    hide Xor, LowBit, Half;
    BitInFront(a, x);
  }

  lemma StepDifference(a: bv32, b: bv32, x: bool, y: bool)
    ensures var d := Xor(a, b);
      Xor(BitStep(a, x), BitStep(b, y)) ==
        if (LowBit(a) != x) == (LowBit(b) != y) then Half(d) else Xor(Half(d), POLY)
  {
    hide Xor, LowBit, BitStep, Half;
    var ha, hb := Half(a), Half(b);
    InputBitDropsOut(a, x);
    InputBitDropsOut(b, y);
    XorShifted(a, b);
    XorCancel(ha, hb, POLY);
    XorSwap(ha, POLY, hb);
    XorAssoc(ha, hb, POLY);
  }

  lemma {:induction false} DifferenceSurvives(v: seq<bool>, w: seq<bool>, a: bv32, b: bv32, m: nat)
    requires |v| == |w| <= m <= 32
    requires !Fits(Xor(a, b), m)
    ensures BitCrc(v, a) != BitCrc(w, b)
  {
    hide Xor, BitStep, Half;
    if v == [] {
      ZeroFits(m);
      XorDiffers(a, b);
    } else {
      StepKeepsReach(a, b, v[0], w[0], m);
      DifferenceSurvives(v[1..], w[1..], BitStep(a, v[0]), BitStep(b, w[0]), m - 1);
    }
  }

  lemma DifferentBitSetsTop(a: bv32, x: bool, y: bool)
    requires x != y
    ensures Xor(BitStep(a, x), BitStep(a, y)) == POLY
  {
    hide Xor, LowBit, BitStep, Half;
    StepDifference(a, a, x, y);
    XorSelf(a);
    HalfOfZero();
    XorComm(0, POLY);
    XorZero(POLY);
  }

  /** From one register, two different bit strings of at most 32 bits never lead to the same register. */
  lemma {:induction false} BurstIsSeen(v: seq<bool>, w: seq<bool>, a: bv32)
    requires |v| == |w| <= 32 && v != w
    ensures BitCrc(v, a) != BitCrc(w, a)
  {
    hide Xor, BitStep, Half;
    if v[0] == w[0] {
      assert v == [v[0]] + v[1..] && w == [w[0]] + w[1..];
      BurstIsSeen(v[1..], w[1..], BitStep(a, v[0]));
    } else {
      DifferentBitSetsTop(a, v[0], w[0]);
      TopBitDoesNotFit(POLY, 31);
      DifferenceSurvives(v[1..], w[1..], BitStep(a, v[0]), BitStep(a, w[0]), 31);
    }
  }

  lemma StepInjective(a: bv32, b: bv32, x: bool)
    requires a != b
    ensures BitStep(a, x) != BitStep(b, x)
  {
    hide Xor, LowBit, BitStep, Half;
    StepDifference(a, b, x, x);
    var d := Xor(a, b);
    XorDiffers(a, b);
    XorDiffers(BitStep(a, x), BitStep(b, x));
    if LowBit(a) == LowBit(b) {
      XorLowBit(a, b);
      HalfOfEven(d);
    } else {
      FeedbackSetsTopBit(d);
    }
  }

  lemma HalfOfEven(d: bv32)
    requires d != 0 && !LowBit(d)
    ensures Half(d) != 0
  {
  }

  lemma {:induction false} CommonTailKeepsDifference(tail: seq<bool>, a: bv32, b: bv32)
    requires a != b
    ensures BitCrc(tail, a) != BitCrc(tail, b)
  {
    hide BitStep;
    if tail == [] {
    } else {
      StepInjective(a, b, tail[0]);
      CommonTailKeepsDifference(tail[1..], BitStep(a, tail[0]), BitStep(b, tail[0]));
    }
  }

  //
  // Images
  //

  lemma {:induction false} BitsAppend(a: seq<byte>, b: seq<byte>)
    ensures Bits(a + b) == Bits(a) + Bits(b)
  {
    if a == [] {
      assert a + b == b;
    } else {
      assert (a + b)[1..] == a[1..] + b;
      BitsAppend(a[1..], b);
    }
  }

  lemma ByteDetermined(a: byte, b: byte)
    requires ByteBits(a) == ByteBits(b)
    ensures a == b
  {
    ByteFits(a);
    ByteFits(b);
    BitsDetermine(a as bv32, b as bv32, 8);
    WidenInjective(a, b);
  }

  lemma WidenInjective(a: byte, b: byte)
    requires a as bv32 == b as bv32
    ensures a == b
  {
  }

  lemma {:induction false} BitsDetermineBytes(a: seq<byte>, b: seq<byte>)
    requires |a| == |b| && Bits(a) == Bits(b)
    ensures a == b
  {
    hide ByteBits;
    if a == [] {
    } else {
      assert Bits(a)[..8] == ByteBits(a[0]) && Bits(b)[..8] == ByteBits(b[0]);
      assert Bits(a)[8..] == Bits(a[1..]) && Bits(b)[8..] == Bits(b[1..]);
      ByteDetermined(a[0], b[0]);
      BitsDetermineBytes(a[1..], b[1..]);
      assert a == [a[0]] + a[1..] && b == [b[0]] + b[1..];
    }
  }

  /**
    Two different images of one length, whose bits differ only inside some window of 32 consecutive
    bits (aligned or not), have different checksums.
   */
  lemma BurstDetected(a: seq<byte>, b: seq<byte>, from: nat, to: nat, s: bv32)
    requires |a| == |b| && a != b
    requires from <= to <= 8 * |a| && to - from <= 32
    requires Bits(a)[..from] == Bits(b)[..from] && Bits(a)[to..] == Bits(b)[to..]
    ensures Crc(a, s) != Crc(b, s)
  {
    hide Crc;
    var x, y := Bits(a), Bits(b);
    var head, tail := x[..from], x[to..];
    var v, w := x[from..to], y[from..to];
    assert x == head + v + tail && y == head + w + tail;
    if v == w {
      BitsDetermineBytes(a, b);
    }
    var r := BitCrc(head, s);
    BurstIsSeen(v, w, r);
    CommonTailKeepsDifference(tail, BitCrc(v, r), BitCrc(w, r));
    BitCrcAppend(head + v, tail, s);
    BitCrcAppend(head, v, s);
    BitCrcAppend(head + w, tail, s);
    BitCrcAppend(head, w, s);
    TableRefinesBitSerial(a, s);
    TableRefinesBitSerial(b, s);
  }

  /** The same for a window of four bytes. */
  lemma FourByteBurstDetected(head: seq<byte>, v: seq<byte>, w: seq<byte>, tail: seq<byte>, s: bv32)
    requires |v| == |w| <= 4 && v != w
    ensures Crc(head + v + tail, s) != Crc(head + w + tail, s)
  {
    hide Crc, Bits;
    var a, b := head + v + tail, head + w + tail;
    var from, to := 8 * |head|, 8 * (|head| + |v|);
    BitsAppend(head + v, tail);
    BitsAppend(head, v);
    BitsAppend(head + w, tail);
    BitsAppend(head, w);
    assert a[|head|..|head| + |v|] == v && b[|head|..|head| + |v|] == w;
    assert Bits(a)[..from] == Bits(head) == Bits(b)[..from];
    assert Bits(a)[to..] == Bits(tail) == Bits(b)[to..];
    BurstDetected(a, b, from, to, s);
  }

  lemma GeneratorSteps()
    ensures TableStep(0, 0) == 0
    ensures TableStep(0x0, 0x41) == 0x1db7106
    ensures TableStep(0x1db7106, 0x06) == 0x1db71
    ensures TableStep(0x1db71, 0x71) == 0x1db
    ensures TableStep(0x1db, 0xDB) == 0x1
    ensures TableStep(0x1, 0x01) == 0x0
  {
  }

  lemma {:induction false} CrcAppend(a: seq<byte>, b: seq<byte>, s: bv32)
    ensures Crc(a + b, s) == Crc(b, Crc(a, s))
  {
    hide TableStep;
    if a == [] {
      assert a + b == b;
    } else {
      assert (a + b)[1..] == a[1..] + b;
      CrcAppend(a[1..], b, TableStep(s, a[0]));
    }
  }

  lemma CrcOfOne(b: byte, s: bv32)
    ensures Crc([b], s) == TableStep(s, b)
  {
    hide TableStep;
    assert Crc([], TableStep(s, b)) == TableStep(s, b);
  }

  /** 33 bits in the order they enter the register: the generator, from x^32 down. */
  const GENERATOR_BYTES: seq<byte> := [0x41, 0x06, 0x71, 0xDB, 0x01]

  lemma GeneratorLeavesNoRemainder()
    ensures Crc(GENERATOR_BYTES, 0) == 0
  {
    hide TableStep;
    GeneratorSteps();
    var g := GENERATOR_BYTES;
    CrcOfOne(g[0], 0);
    CrcOfOne(g[1], 0x1db7106);
    CrcOfOne(g[2], 0x1db71);
    CrcOfOne(g[3], 0x1db);
    CrcOfOne(g[4], 1);
    CrcAppend([g[0]], [g[1]], 0);
    CrcAppend([g[0]] + [g[1]], [g[2]], 0);
    CrcAppend([g[0]] + [g[1]] + [g[2]], [g[3]], 0);
    CrcAppend([g[0]] + [g[1]] + [g[2]] + [g[3]], [g[4]], 0);
    assert g == [g[0]] + [g[1]] + [g[2]] + [g[3]] + [g[4]];
  }

  /**
    The bound of 32 bits is tight at every place of every image: changing five bytes by the
    generator's own 33 bits goes unseen.
   */
  lemma GeneratorBurstEscapes(head: seq<byte>, v: seq<byte>, tail: seq<byte>, s: bv32)
    requires |v| == 5
    ensures XorBytes(v, GENERATOR_BYTES) != v
    ensures Crc(head + XorBytes(v, GENERATOR_BYTES) + tail, s) == Crc(head + v + tail, s)
  {
    hide Crc, Xor, Half;
    var r := Crc(head, s);
    var w := XorBytes(v, GENERATOR_BYTES);
    assert w[0] == v[0] ^ 0x41;
    GeneratorLeavesNoRemainder();
    CrcLinear(v, GENERATOR_BYTES, r, 0);
    XorZero(r);
    XorZero(Crc(v, r));
    CrcAppend(head + v, tail, s);
    CrcAppend(head, v, s);
    CrcAppend(head + w, tail, s);
    CrcAppend(head, w, s);
  }

  /**
    Exactly which changes go unseen: those whose difference, as a polynomial times x^32, is a multiple
    of the generator.
   */
  lemma UnseenIffMultiple(a: seq<byte>, b: seq<byte>, s: bv32)
    requires |a| == |b|
    ensures Crc(a, s) == Crc(b, s) <==> exists q :: CrcRemainder.IsDivision(Bits(XorBytes(a, b)), 0, q, 0)
  {
    hide Crc, Xor, CrcRemainder.IsDivision;
    CrcLinear(a, b, s, s);
    XorSelf(s);
    XorDiffers(Crc(a, s), Crc(b, s));
    CrcRemainder.CrcIsTheRemainder(XorBytes(a, b), 0, 0);
  }
}
