/** A loaded firmware image: padded to whole words, and checksummed as if flash were filled up with 0xff. */
module Firmware {
  import opened Crc32
  import opened CrcDetection

  const CRC_PAD: seq<byte> := [0xff, 0xff, 0xff, 0xff]

  /** n bytes of erased flash. */
  function Fill(n: nat): (f: seq<byte>)
    ensures |f| == n
  {
    seq(n, _ => 0xff)
  }

  /** How many words the checksum adds behind len bytes: the length of range(len, padlen - 1, 4). */
  function PadWords(len: nat, padlen: int): nat
  {
    if padlen - 1 <= len then 0 else (padlen - 1 - len + 3) / 4
  }

  function ExpectedCrc(image: seq<byte>, padlen: int): bv32
  {
    Crc(image + Fill(4 * PadWords(|image|, padlen)), 0)
  }

  /** Padding is the shortest run of 0xff that makes the length a multiple of four. */
  ghost predicate IsPadded(decoded: seq<byte>, image: seq<byte>)
  {
    && |image| % 4 == 0
    && |decoded| <= |image| < |decoded| + 4
    && image == decoded + Fill(|image| - |decoded|)
  }

  lemma NoFill(image: seq<byte>)
    ensures image + Fill(0) == image
  {
  }

  lemma OneMoreWord(image: seq<byte>, words: nat)
    ensures Crc(image + Fill(4 * (words + 1)), 0) == Crc(CRC_PAD, Crc(image + Fill(4 * words), 0))
  {
    hide Crc;
    CrcAppend(image + Fill(4 * words), CRC_PAD, 0);
    assert image + Fill(4 * (words + 1)) == image + Fill(4 * words) + CRC_PAD;
  }

  class Image {
    const boardId: int
    const imageSize: int
    var image: seq<byte>

    constructor (decoded: seq<byte>, boardId: int, imageSize: int)
      ensures IsPadded(decoded, image)
      ensures this.boardId == boardId && this.imageSize == imageSize
    {
      this.boardId := boardId;
      this.imageSize := imageSize;
      image := decoded;
      new;
      while |image| % 4 != 0
        invariant |decoded| <= |image| < |decoded| + 4
        invariant |decoded| % 4 == 0 ==> image == decoded
        invariant |image| - |decoded| <= (4 - |decoded| % 4) % 4
        invariant image == decoded + Fill(|image| - |decoded|)
        decreases |decoded| + 4 - |image|
      {
        image := image + [0xff];
      }
    }

    method UpdateCrc(bytes: seq<byte>, start: bv32) returns (state: bv32)
      ensures state == Crc(bytes, start)
    {
      hide TableStep, Xor;
      state := start;
      for i := 0 to |bytes|
        invariant Crc(bytes[i..], state) == Crc(bytes, start)
      {
        state := TableStep(state, bytes[i]);
        assert bytes[i..][1..] == bytes[i + 1..];
      }
    }

    method PaddedCrc(padlen: int) returns (state: bv32)
      ensures state == ExpectedCrc(image, padlen)
    {
      hide Crc, Fill;
      state := UpdateCrc(image, 0);
      NoFill(image);
      var i := |image|;
      ghost var words := 0;
      while i < padlen - 1
        invariant i == |image| + 4 * words
        invariant words <= PadWords(|image|, padlen)
        invariant state == Crc(image + Fill(4 * words), 0)
        decreases padlen - i
      {
        OneMoreWord(image, words);
        state := UpdateCrc(CRC_PAD, state);
        i := i + 4;
        words := words + 1;
      }
    }
  }

  /** The checksum covers exactly padlen bytes if and only if the rest of flash is a whole number of words. */
  lemma PadCoversFlash(len: nat, padlen: int)
    requires len <= padlen
    ensures len + 4 * PadWords(len, padlen) == padlen <==> (padlen - len) % 4 == 0
  {
  }

  /** Word number k is added if and only if what stands before it is shorter than padlen - 1. */
  lemma PadWordAddedIff(len: nat, padlen: int, k: nat)
    ensures k < PadWords(len, padlen) <==> len + 4 * k < padlen - 1
  {
  }

  /** Bursts of up to 32 bits change the padded checksum, whatever the flash size. */
  lemma ImageBurstDetected(a: seq<byte>, b: seq<byte>, from: nat, to: nat, padlen: int)
    requires |a| == |b| && a != b
    requires from <= to <= 8 * |a| && to - from <= 32
    requires Bits(a)[..from] == Bits(b)[..from] && Bits(a)[to..] == Bits(b)[to..]
    ensures ExpectedCrc(a, padlen) != ExpectedCrc(b, padlen)
  {
    hide Crc, Bits;
    var tail := Fill(4 * PadWords(|a|, padlen));
    BitsAppend(a, tail);
    BitsAppend(b, tail);
    assert (a + tail)[..|a|] == a && (b + tail)[..|a|] == b;
    BurstDetected(a + tail, b + tail, from, to, 0);
  }

  //
  // Flash sizes that are not a whole number of words
  //

  /** The one register that a byte of erased flash leaves as it is. */
  const STILL: bv32 := 0xb6d0fdc0

  lemma OnlyZeroReturns(d: bv32)
    requires Shift8(d) == d
    ensures d == 0
  {
  }

  /** Shift8 applied twice, less the identity, is (Shift8 less the identity) applied twice. */
  lemma OnlyZeroReturnsAfterTwo(d: bv32)
    requires Shift8(Shift8(d)) == d
    ensures d == 0
  {
    hide Shift8, Xor;
    var m := Shift8(d);
    Shift8Linear(m, d);
    XorComm(d, m);
    OnlyZeroReturns(Xor(m, d));
    XorDiffers(m, d);
    OnlyZeroReturns(d);
  }

  lemma StillStays()
    ensures TableStep(STILL, 0xff) == STILL
  {
  }

  lemma DistanceFromStill(s: bv32)
    ensures Xor(TableStep(s, 0xff), STILL) == Shift8(Xor(s, STILL))
  {
    hide TableStep, Xor, Shift8;
    StillStays();
    TableStepLinear(s, STILL, 0xff, 0xff);
    TableStepIsShifts(Xor(s, STILL), 0);
    XorZero(Xor(s, STILL));
    Shift8IsShifts(Xor(s, STILL));
  }

  /** Returning to the register of one or two bytes ago happens only at the still point. */
  lemma ReturnsOnlyWhenStill(s: bv32)
    ensures TableStep(s, 0xff) == s <==> s == STILL
    ensures TableStep(TableStep(s, 0xff), 0xff) == s <==> s == STILL
  {
    hide TableStep, Xor, Shift8;
    StillStays();
    var d := Xor(s, STILL);
    DistanceFromStill(s);
    DistanceFromStill(TableStep(s, 0xff));
    XorDiffers(s, STILL);
    if d == Shift8(d) {
      OnlyZeroReturns(d);
    }
    if d == Shift8(Shift8(d)) {
      OnlyZeroReturnsAfterTwo(d);
    }
  }

  function Erased(s: bv32, n: nat): bv32
  {
    Crc(Fill(n), s)
  }

  lemma ErasedFirst(s: bv32, n: nat)
    ensures Erased(s, n + 1) == Erased(TableStep(s, 0xff), n)
  {
    hide TableStep;
    assert Fill(n + 1)[1..] == Fill(n);
  }

  lemma ErasedLast(s: bv32, n: nat)
    ensures Erased(s, n + 1) == TableStep(Erased(s, n), 0xff)
  {
    hide TableStep;
    assert Fill(n + 1) == Fill(n) + [0xff];
    CrcAppend(Fill(n), [0xff], s);
    CrcOfOne(0xff, Erased(s, n));
  }

  lemma {:induction false} StillThroughout(s: bv32, n: nat)
    ensures Erased(s, n) == STILL <==> s == STILL
    decreases n
  {
    hide TableStep, Crc, Fill;
    if n == 0 {
      ErasedNothing(s);
    } else {
      ErasedFirst(s, n - 1);
      StillThroughout(TableStep(s, 0xff), n - 1);
      StillStays();
      if s != STILL {
        TableStepInjective(s, STILL, 0xff);
      }
    }
  }

  lemma ErasedNothing(s: bv32)
    ensures Erased(s, 0) == s
  {
  }

  lemma TableStepInjective(a: bv32, b: bv32, x: byte)
    requires a != b
    ensures TableStep(a, x) != TableStep(b, x)
  {
    hide TableStep;
    TableStepIsEightBitSteps(a, x);
    TableStepIsEightBitSteps(b, x);
    CommonTailKeepsDifference(ByteBits(x), a, b);
  }

  /**
    The checksum the uploader expects is that of the intact flash if and only if the flash left over
    is a whole number of words, or the image happens to leave the register at the still point.
   */
  lemma ExpectsIntactFlashIff(image: seq<byte>, padlen: int)
    requires |image| <= padlen
    ensures ExpectedCrc(image, padlen) == Crc(image + Fill(padlen - |image|), 0)
      <==> (padlen - |image|) % 4 == 0 || Crc(image, 0) == STILL
  {
    hide Crc, Fill, TableStep, Erased, PadWords;
    var k, n := 4 * PadWords(|image|, padlen), padlen - |image|;
    var s := Crc(image, 0);
    FlashChecksum(image, k);
    FlashChecksum(image, n);
    PadCoversFlash(|image|, padlen);
    PadOvershoot(|image|, padlen);
    if k + 1 == n {
      OneByteMore(s, k);
    } else if k == n + 1 {
      OneByteMore(s, n);
    } else if k == n + 2 {
      TwoBytesMore(s, n);
    }
  }

  lemma FlashChecksum(image: seq<byte>, n: nat)
    ensures Crc(image + Fill(n), 0) == Erased(Crc(image, 0), n)
  {
    hide Crc, Fill;
    CrcAppend(image, Fill(n), 0);
  }

  lemma PadOvershoot(len: nat, padlen: int)
    requires len <= padlen
    ensures padlen - len - 1 <= 4 * PadWords(len, padlen) <= padlen - len + 2
  {
  }

  lemma OneByteMore(s: bv32, n: nat)
    ensures Erased(s, n + 1) == Erased(s, n) <==> s == STILL
  {
    hide Erased, TableStep;
    ErasedLast(s, n);
    ReturnsOnlyWhenStill(Erased(s, n));
    StillThroughout(s, n);
  }

  lemma TwoBytesMore(s: bv32, n: nat)
    ensures Erased(s, n + 2) == Erased(s, n) <==> s == STILL
  {
    hide Erased, TableStep;
    ErasedLast(s, n);
    ErasedLast(s, n + 1);
    ReturnsOnlyWhenStill(Erased(s, n));
    StillThroughout(s, n);
  }
}
