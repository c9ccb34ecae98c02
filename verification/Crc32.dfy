/**
  The CRC-32 of the firmware uploader, in three forms: the table-driven loop the program runs,
  the bit-serial shift register it stands for, and the polynomial remainder both compute.

  The register keeps the coefficient of x^31 in its lowest bit, and a byte enters lowest bit first.
 */
module Crc32 {

  type byte = bv8

  // x^32 + x^26 + x^23 + ... + 1 without its x^32 term, coefficient of x^31 in the lowest bit.
  const POLY: bv32 := 0xEDB88320

  /** Sum of two registers over GF(2). */
  function Xor(a: bv32, b: bv32): bv32
  {
    a ^ b
  }

  //
  // The table-driven form
  //

  function Pick(i: byte, w0: bv32, w1: bv32, w2: bv32, w3: bv32, w4: bv32, w5: bv32, w6: bv32, w7: bv32): bv32
  {
    var k := i & 7;
    if k == 0 then w0 else if k == 1 then w1 else if k == 2 then w2 else if k == 3 then w3
    else if k == 4 then w4 else if k == 5 then w5 else if k == 6 then w6 else w7
  }

  /** The program's table of 256 words, eight to a row. */
  function CrcTable(i: byte): bv32
  {
    var row := i >> 3;
    if row == 0 then
      Pick(i, 0x00000000, 0x77073096, 0xee0e612c, 0x990951ba, 0x076dc419, 0x706af48f, 0xe963a535, 0x9e6495a3)
    else if row == 1 then
      Pick(i, 0x0edb8832, 0x79dcb8a4, 0xe0d5e91e, 0x97d2d988, 0x09b64c2b, 0x7eb17cbd, 0xe7b82d07, 0x90bf1d91)
    else if row == 2 then
      Pick(i, 0x1db71064, 0x6ab020f2, 0xf3b97148, 0x84be41de, 0x1adad47d, 0x6ddde4eb, 0xf4d4b551, 0x83d385c7)
    else if row == 3 then
      Pick(i, 0x136c9856, 0x646ba8c0, 0xfd62f97a, 0x8a65c9ec, 0x14015c4f, 0x63066cd9, 0xfa0f3d63, 0x8d080df5)
    else if row == 4 then
      Pick(i, 0x3b6e20c8, 0x4c69105e, 0xd56041e4, 0xa2677172, 0x3c03e4d1, 0x4b04d447, 0xd20d85fd, 0xa50ab56b)
    else if row == 5 then
      Pick(i, 0x35b5a8fa, 0x42b2986c, 0xdbbbc9d6, 0xacbcf940, 0x32d86ce3, 0x45df5c75, 0xdcd60dcf, 0xabd13d59)
    else if row == 6 then
      Pick(i, 0x26d930ac, 0x51de003a, 0xc8d75180, 0xbfd06116, 0x21b4f4b5, 0x56b3c423, 0xcfba9599, 0xb8bda50f)
    else if row == 7 then
      Pick(i, 0x2802b89e, 0x5f058808, 0xc60cd9b2, 0xb10be924, 0x2f6f7c87, 0x58684c11, 0xc1611dab, 0xb6662d3d)
    else if row == 8 then
      Pick(i, 0x76dc4190, 0x01db7106, 0x98d220bc, 0xefd5102a, 0x71b18589, 0x06b6b51f, 0x9fbfe4a5, 0xe8b8d433)
    else if row == 9 then
      Pick(i, 0x7807c9a2, 0x0f00f934, 0x9609a88e, 0xe10e9818, 0x7f6a0dbb, 0x086d3d2d, 0x91646c97, 0xe6635c01)
    else if row == 10 then
      Pick(i, 0x6b6b51f4, 0x1c6c6162, 0x856530d8, 0xf262004e, 0x6c0695ed, 0x1b01a57b, 0x8208f4c1, 0xf50fc457)
    else if row == 11 then
      Pick(i, 0x65b0d9c6, 0x12b7e950, 0x8bbeb8ea, 0xfcb9887c, 0x62dd1ddf, 0x15da2d49, 0x8cd37cf3, 0xfbd44c65)
    else if row == 12 then
      Pick(i, 0x4db26158, 0x3ab551ce, 0xa3bc0074, 0xd4bb30e2, 0x4adfa541, 0x3dd895d7, 0xa4d1c46d, 0xd3d6f4fb)
    else if row == 13 then
      Pick(i, 0x4369e96a, 0x346ed9fc, 0xad678846, 0xda60b8d0, 0x44042d73, 0x33031de5, 0xaa0a4c5f, 0xdd0d7cc9)
    else if row == 14 then
      Pick(i, 0x5005713c, 0x270241aa, 0xbe0b1010, 0xc90c2086, 0x5768b525, 0x206f85b3, 0xb966d409, 0xce61e49f)
    else if row == 15 then
      Pick(i, 0x5edef90e, 0x29d9c998, 0xb0d09822, 0xc7d7a8b4, 0x59b33d17, 0x2eb40d81, 0xb7bd5c3b, 0xc0ba6cad)
    else if row == 16 then
      Pick(i, 0xedb88320, 0x9abfb3b6, 0x03b6e20c, 0x74b1d29a, 0xead54739, 0x9dd277af, 0x04db2615, 0x73dc1683)
    else if row == 17 then
      Pick(i, 0xe3630b12, 0x94643b84, 0x0d6d6a3e, 0x7a6a5aa8, 0xe40ecf0b, 0x9309ff9d, 0x0a00ae27, 0x7d079eb1)
    else if row == 18 then
      Pick(i, 0xf00f9344, 0x8708a3d2, 0x1e01f268, 0x6906c2fe, 0xf762575d, 0x806567cb, 0x196c3671, 0x6e6b06e7)
    else if row == 19 then
      Pick(i, 0xfed41b76, 0x89d32be0, 0x10da7a5a, 0x67dd4acc, 0xf9b9df6f, 0x8ebeeff9, 0x17b7be43, 0x60b08ed5)
    else if row == 20 then
      Pick(i, 0xd6d6a3e8, 0xa1d1937e, 0x38d8c2c4, 0x4fdff252, 0xd1bb67f1, 0xa6bc5767, 0x3fb506dd, 0x48b2364b)
    else if row == 21 then
      Pick(i, 0xd80d2bda, 0xaf0a1b4c, 0x36034af6, 0x41047a60, 0xdf60efc3, 0xa867df55, 0x316e8eef, 0x4669be79)
    else if row == 22 then
      Pick(i, 0xcb61b38c, 0xbc66831a, 0x256fd2a0, 0x5268e236, 0xcc0c7795, 0xbb0b4703, 0x220216b9, 0x5505262f)
    else if row == 23 then
      Pick(i, 0xc5ba3bbe, 0xb2bd0b28, 0x2bb45a92, 0x5cb36a04, 0xc2d7ffa7, 0xb5d0cf31, 0x2cd99e8b, 0x5bdeae1d)
    else if row == 24 then
      Pick(i, 0x9b64c2b0, 0xec63f226, 0x756aa39c, 0x026d930a, 0x9c0906a9, 0xeb0e363f, 0x72076785, 0x05005713)
    else if row == 25 then
      Pick(i, 0x95bf4a82, 0xe2b87a14, 0x7bb12bae, 0x0cb61b38, 0x92d28e9b, 0xe5d5be0d, 0x7cdcefb7, 0x0bdbdf21)
    else if row == 26 then
      Pick(i, 0x86d3d2d4, 0xf1d4e242, 0x68ddb3f8, 0x1fda836e, 0x81be16cd, 0xf6b9265b, 0x6fb077e1, 0x18b74777)
    else if row == 27 then
      Pick(i, 0x88085ae6, 0xff0f6a70, 0x66063bca, 0x11010b5c, 0x8f659eff, 0xf862ae69, 0x616bffd3, 0x166ccf45)
    else if row == 28 then
      Pick(i, 0xa00ae278, 0xd70dd2ee, 0x4e048354, 0x3903b3c2, 0xa7672661, 0xd06016f7, 0x4969474d, 0x3e6e77db)
    else if row == 29 then
      Pick(i, 0xaed16a4a, 0xd9d65adc, 0x40df0b66, 0x37d83bf0, 0xa9bcae53, 0xdebb9ec5, 0x47b2cf7f, 0x30b5ffe9)
    else if row == 30 then
      Pick(i, 0xbdbdf21c, 0xcabac28a, 0x53b39330, 0x24b4a3a6, 0xbad03605, 0xcdd70693, 0x54de5729, 0x23d967bf)
    else
      Pick(i, 0xb3667a2e, 0xc4614ab8, 0x5d681b02, 0x2a6f2b94, 0xb40bbe37, 0xc30c8ea1, 0x5a05df1b, 0x2d02ef8d)
  }

  function TableStep(state: bv32, b: byte): bv32
  {
    var index := (Xor(state, b as bv32) & 0xff) as byte;
    Xor(CrcTable(index), state >> 8)
  }

  function Crc(data: seq<byte>, state: bv32): bv32
  {
    if data == [] then state else Crc(data[1..], TableStep(state, data[0]))
  }

  //
  // The bit-serial form
  //

  predicate LowBit(r: bv32)
  {
    r & 1 == 1
  }

  /** The register without its lowest bit. */
  function Half(r: bv32): bv32
  {
    r >> 1
  }

  function Shift(r: bv32): bv32
  {
    if LowBit(r) then Xor(Half(r), POLY) else Half(r)
  }

  function BitStep(r: bv32, bit: bool): bv32
  {
    Shift(if bit then Xor(r, 1) else r)
  }

  function BitCrc(bits: seq<bool>, r: bv32): bv32
  {
    if bits == [] then r else BitCrc(bits[1..], BitStep(r, bits[0]))
  }

  /** The lowest n bits of r, lowest first. */
  function LowBits(r: bv32, n: nat): (bits: seq<bool>)
    ensures |bits| == n
  {
    if n == 0 then [] else [LowBit(r)] + LowBits(Half(r), n - 1)
  }

  function ByteBits(b: byte): (bits: seq<bool>)
    ensures |bits| == 8
  {
    LowBits(b as bv32, 8)
  }

  /** The order in which the bits of a byte string enter the register. */
  function Bits(data: seq<byte>): (bits: seq<bool>)
    ensures |bits| == 8 * |data|
  {
    if data == [] then [] else ByteBits(data[0]) + Bits(data[1..])
  }

  //
  // Eight shifts at once
  //

  function Shift8(r: bv32): bv32
  {
    Shift(Shift(Shift(Shift(Shift(Shift(Shift(Shift(r))))))))
  }

  //
  // Shifting is linear over GF(2), and injective
  //

  lemma XorIsBv(a: bv32, b: bv32)
    ensures Xor(a, b) == a ^ b
  {
  }

  lemma BvShifted(a: bv32, b: bv32)
    ensures Half(a ^ b) == Half(a) ^ Half(b)
  {
  }

  lemma BvAssoc(a: bv32, b: bv32, c: bv32)
    ensures (a ^ b) ^ c == a ^ (b ^ c)
  {
  }

  lemma XorShifted(a: bv32, b: bv32)
    ensures Half(Xor(a, b)) == Xor(Half(a), Half(b))
  {
    hide Xor, Half;
    BvShifted(a, b);
    XorIsBv(a, b);
    XorIsBv(Half(a), Half(b));
  }

  lemma XorLowBit(a: bv32, b: bv32)
    ensures LowBit(Xor(a, b)) <==> LowBit(a) != LowBit(b)
  {
  }

  lemma XorAssoc(a: bv32, b: bv32, c: bv32)
    ensures Xor(Xor(a, b), c) == Xor(a, Xor(b, c))
  {
    hide Xor, Half;
    BvAssoc(a, b, c);
    XorIsBv(a, b);
    XorIsBv(b, c);
    XorIsBv(a ^ b, c);
    XorIsBv(a, b ^ c);
  }

  lemma XorComm(a: bv32, b: bv32)
    ensures Xor(a, b) == Xor(b, a)
  {
  }

  lemma XorZero(a: bv32)
    ensures Xor(a, 0) == a
  {
  }

  lemma XorSelf(a: bv32)
    ensures Xor(a, a) == 0
  {
  }

  lemma XorSwap(a: bv32, b: bv32, c: bv32)
    ensures Xor(Xor(a, b), c) == Xor(Xor(a, c), b)
  {
    hide Xor, Half;
    XorAssoc(a, b, c);
    XorComm(b, c);
    XorAssoc(a, c, b);
  }

  lemma XorCancel(a: bv32, b: bv32, c: bv32)
    ensures Xor(Xor(a, c), Xor(b, c)) == Xor(a, b)
  {
    hide Xor, Half;
    XorComm(b, c);
    XorAssoc(a, c, Xor(c, b));
    XorAssoc(c, c, b);
    XorSelf(c);
    XorComm(0, b);
    XorZero(b);
  }

  lemma ShiftLinear(a: bv32, b: bv32)
    ensures Shift(Xor(a, b)) == Xor(Shift(a), Shift(b))
  {
    hide Xor, LowBit, Half;
    var ha, hb := Half(a), Half(b);
    XorShifted(a, b);
    XorLowBit(a, b);
    XorCancel(ha, hb, POLY);
    XorAssoc(ha, hb, POLY);
    XorSwap(ha, hb, POLY);
  }

  function Shifts(r: bv32, n: nat): bv32
    decreases n
  {
    if n == 0 then r else Shifts(Shift(r), n - 1)
  }

  lemma {:induction false} ShiftsLinear(a: bv32, b: bv32, n: nat)
    ensures Shifts(Xor(a, b), n) == Xor(Shifts(a, n), Shifts(b, n))
    decreases n
  {
    hide Shift, Xor, Half;
    if n == 0 {
    } else {
      ShiftLinear(a, b);
      ShiftsLinear(Shift(a), Shift(b), n - 1);
    }
  }

  lemma Shift8IsShifts(r: bv32)
    ensures Shift8(r) == Shifts(r, 8)
  {
    hide Shift;
    var r1 := Shift(r);
    var r2 := Shift(r1);
    var r3 := Shift(r2);
    var r4 := Shift(r3);
    var r5 := Shift(r4);
    var r6 := Shift(r5);
    assert Shifts(r, 8) == Shifts(r1, 7) == Shifts(r2, 6);
    assert Shifts(r2, 6) == Shifts(r3, 5) == Shifts(r4, 4);
    assert Shifts(r4, 4) == Shifts(r5, 3) == Shifts(r6, 2);
  }

  lemma Shift8Linear(a: bv32, b: bv32)
    ensures Shift8(Xor(a, b)) == Xor(Shift8(a), Shift8(b))
  {
    hide Shift8, Shifts, Xor, Half;
    Shift8IsShifts(Xor(a, b));
    Shift8IsShifts(a);
    Shift8IsShifts(b);
    ShiftsLinear(a, b, 8);
  }

  //
  // The table holds what eight shifts compute
  //

  /** Eight shifts of a byte, as the sum of what its set bits contribute. */
  function Spread(i: byte): bv32
  {
    (if i & 1 != 0 then 0x77073096 else 0) ^ (if i & 2 != 0 then 0xee0e612c else 0)
    ^ (if i & 4 != 0 then 0x076dc419 else 0) ^ (if i & 8 != 0 then 0x0edb8832 else 0)
    ^ (if i & 16 != 0 then 0x1db71064 else 0) ^ (if i & 32 != 0 then 0x3b6e20c8 else 0)
    ^ (if i & 64 != 0 then 0x76dc4190 else 0) ^ (if i & 128 != 0 then 0xedb88320 else 0)
  }

  predicate IsSpread(i: byte)
  {
    Spread(i) == Shift8(i as bv32)
  }

  predicate SingleBit(i: byte)
  {
    i == 0 || i == 1 || i == 2 || i == 4 || i == 8 || i == 16 || i == 32 || i == 64 || i == 128
  }

  lemma PowersAreSpread()
    ensures IsSpread(0) && IsSpread(1)
    ensures IsSpread(2) && IsSpread(4)
    ensures IsSpread(8) && IsSpread(16)
    ensures IsSpread(32) && IsSpread(64)
    ensures IsSpread(128)
  {
  }

  lemma SingleBitIsSpread(i: byte)
    requires SingleBit(i)
    ensures IsSpread(i)
  {
    hide IsSpread;
    PowersAreSpread();
  }

  lemma NibblesApart(i: byte)
    ensures Spread(i) == Xor(Spread(i & 0x0f), Spread(i & 0xf0))
    ensures i as bv32 == Xor((i & 0x0f) as bv32, (i & 0xf0) as bv32)
  {
  }

  lemma PairsApart(i: byte)
    ensures Spread(i) == Xor(Spread(i & 0x33), Spread(i & 0xcc))
    ensures i as bv32 == Xor((i & 0x33) as bv32, (i & 0xcc) as bv32)
  {
  }

  lemma BitsApart(i: byte)
    ensures Spread(i) == Xor(Spread(i & 0x55), Spread(i & 0xaa))
    ensures i as bv32 == Xor((i & 0x55) as bv32, (i & 0xaa) as bv32)
  {
  }

  lemma SpreadAdds(i: byte, a: byte, b: byte)
    requires Spread(i) == Xor(Spread(a), Spread(b)) && i as bv32 == Xor(a as bv32, b as bv32)
    requires IsSpread(a) && IsSpread(b)
    ensures IsSpread(i)
  {
    hide Spread, Shift8, Xor;
    Shift8Linear(a as bv32, b as bv32);
  }

  /** At most one bit in each pair. */
  lemma SpreadOfPair(i: byte)
    requires SingleBit(i & 0x55) && SingleBit(i & 0xaa)
    ensures IsSpread(i)
  {
    hide IsSpread, SingleBit, Spread, Xor;
    BitsApart(i);
    SingleBitIsSpread(i & 0x55);
    SingleBitIsSpread(i & 0xaa);
    SpreadAdds(i, i & 0x55, i & 0xaa);
  }

  lemma PairHasTwoBits(i: byte, nibble: byte, pair: byte)
    requires (nibble == 0x0f || nibble == 0xf0) && (pair == 0x33 || pair == 0xcc)
    ensures SingleBit((i & nibble) & pair & 0x55)
    ensures SingleBit((i & nibble) & pair & 0xaa)
  {
  }

  lemma SpreadOfNibble(i: byte, nibble: byte)
    requires nibble == 0x0f || nibble == 0xf0
    ensures IsSpread(i & nibble)
  {
    hide IsSpread, SingleBit, Spread, Xor;
    var n := i & nibble;
    PairsApart(n);
    PairHasTwoBits(i, nibble, 0x33);
    PairHasTwoBits(i, nibble, 0xcc);
    SpreadOfPair(n & 0x33);
    SpreadOfPair(n & 0xcc);
    SpreadAdds(n, n & 0x33, n & 0xcc);
  }

  lemma SpreadIsShift8(i: byte)
    ensures IsSpread(i)
  {
    hide IsSpread, Spread, Xor;
    NibblesApart(i);
    SpreadOfNibble(i, 0x0f);
    SpreadOfNibble(i, 0xf0);
    SpreadAdds(i, i & 0x0f, i & 0xf0);
  }

  lemma TableQuarter0(i: byte)
    requires i >> 6 == 0
    ensures CrcTable(i) == Spread(i)
  {
  }

  lemma TableQuarter1(i: byte)
    requires i >> 6 == 1
    ensures CrcTable(i) == Spread(i)
  {
  }

  lemma TableQuarter2(i: byte)
    requires i >> 6 == 2
    ensures CrcTable(i) == Spread(i)
  {
  }

  lemma TableQuarter3(i: byte)
    requires i >> 6 == 3
    ensures CrcTable(i) == Spread(i)
  {
  }

  lemma TableIsShift8(i: byte)
    ensures CrcTable(i) == Shift8(i as bv32)
  {
    hide CrcTable, Spread, Shift8;
    SpreadIsShift8(i);
    if i >> 6 == 0 {
      TableQuarter0(i);
    } else if i >> 6 == 1 {
      TableQuarter1(i);
    } else if i >> 6 == 2 {
      TableQuarter2(i);
    } else {
      TableQuarter3(i);
    }
  }

  //
  // One table step is eight bit steps
  //

  lemma Shift8OfHighPart(r: bv32)
    ensures Shift8(r & 0xffffff00) == r >> 8
  {
  }

  lemma LowAndHigh(x: bv32)
    ensures Xor(x & 0xff, x & 0xffffff00) == x
  {
  }

  lemma ByteStaysLow(state: bv32, b: byte)
    ensures Xor(state, b as bv32) >> 8 == state >> 8
  {
  }

  lemma LowByte(x: bv32)
    ensures ((x & 0xff) as byte) as bv32 == x & 0xff
  {
  }

  lemma TableStepIsShifts(state: bv32, b: byte)
    ensures TableStep(state, b) == Shifts(Xor(state, b as bv32), 8)
  {
    hide Shift8, CrcTable, Xor, Shifts, Shift, Half;
    var x := Xor(state, b as bv32);
    var low, high := x & 0xff, x & 0xffffff00;
    LowAndHigh(x);
    ByteStaysLow(state, b);
    LowByte(x);
    TableIsShift8(low as byte);
    Shift8IsShifts(low);
    Shift8OfHighPart(x);
    Shift8IsShifts(high);
    ShiftsLinear(low, high, 8);
  }

  lemma OneIsLowBit()
    ensures LowBit(1)
    ensures Half(1) == 0
  {
  }

  /** Adding a bit to the register touches its lowest bit only. */
  lemma BitInFront(r: bv32, bit: bool)
    ensures var x := if bit then Xor(r, 1) else r;
      BitStep(r, bit) == Shift(x) && Half(x) == Half(r) && LowBit(x) == (LowBit(r) != bit)
  {
    hide Xor, LowBit, Shift, Half;
    OneIsLowBit();
    XorShifted(r, 1);
    XorLowBit(r, 1);
    XorZero(Half(r));
  }

  lemma LowBitApart(v: bv32)
    ensures var bit, rest := if LowBit(v) then 1 else 0, if LowBit(v) then Xor(v, 1) else v;
      v == Xor(bit, rest) && !LowBit(rest) && Half(rest) == Half(v)
  {
    hide Xor, LowBit, Half, Shift;
    BitInFront(v, LowBit(v));
    XorComm(1, Xor(v, 1));
    XorAssoc(v, 1, 1);
    XorSelf(1);
    XorZero(v);
    XorComm(0, v);
  }

  /** One bit of v enters the register, the rest of v stays in front of it. */
  lemma PeelBit(r: bv32, v: bv32)
    ensures Shift(Xor(r, v)) == Xor(BitStep(r, LowBit(v)), Half(v))
  {
    hide Xor, LowBit, Half;
    var bit, rest := if LowBit(v) then 1 else 0, if LowBit(v) then Xor(v, 1) else v;
    LowBitApart(v);
    XorAssoc(r, bit, rest);
    ShiftLinear(Xor(r, bit), rest);
    XorZero(r);
  }

  function Drop(v: bv32, n: nat): bv32
    decreases n
  {
    if n == 0 then v else Drop(Half(v), n - 1)
  }

  lemma {:induction false} ShiftsAreBits(r: bv32, v: bv32, n: nat)
    ensures Shifts(Xor(r, v), n) == Xor(BitCrc(LowBits(v, n), r), Drop(v, n))
    decreases n
  {
    hide Shift, Xor, BitStep, Half;
    if n == 0 {
    } else {
      PeelBit(r, v);
      ShiftsAreBits(BitStep(r, LowBit(v)), Half(v), n - 1);
      assert LowBits(v, n)[1..] == LowBits(Half(v), n - 1);
    }
  }

  lemma ByteLeavesNothing(b: byte)
    ensures Drop(b as bv32, 8) == 0
  {
    var v := b as bv32;
    var v2 := Half(Half(v));
    var v4 := Half(Half(v2));
    var v6 := Half(Half(v4));
    assert Half(Half(v6)) == 0;
    assert Drop(v, 8) == Drop(v2, 6);
    assert Drop(v2, 6) == Drop(v4, 4);
    assert Drop(v4, 4) == Drop(v6, 2);
  }

  lemma TableStepIsEightBitSteps(state: bv32, b: byte)
    ensures TableStep(state, b) == BitCrc(ByteBits(b), state)
  {
    hide TableStep, Xor, BitStep, Half;
    TableStepIsShifts(state, b);
    ShiftsAreBits(state, b as bv32, 8);
    ByteLeavesNothing(b);
    XorZero(BitCrc(ByteBits(b), state));
  }

  lemma {:induction false} BitCrcAppend(a: seq<bool>, b: seq<bool>, r: bv32)
    ensures BitCrc(a + b, r) == BitCrc(b, BitCrc(a, r))
  {
    if a == [] {
      assert a + b == b;
    } else {
      assert (a + b)[1..] == a[1..] + b;
      BitCrcAppend(a[1..], b, BitStep(r, a[0]));
    }
  }

  /** The fast form refines the slow one, for every byte string and every start state. */
  lemma {:induction false} TableRefinesBitSerial(data: seq<byte>, state: bv32)
    ensures Crc(data, state) == BitCrc(Bits(data), state)
  {
    hide TableStep, ByteBits, BitStep;
    if data == [] {
    } else {
      TableStepIsEightBitSteps(state, data[0]);
      TableRefinesBitSerial(data[1..], TableStep(state, data[0]));
      BitCrcAppend(ByteBits(data[0]), Bits(data[1..]), state);
    }
  }
}
