/** The register seen bit by bit: how far its set bits reach, and what determines it. */
module CrcRegister {
  import opened Crc32

  /** r is zero above its lowest n bits. */
  ghost predicate Fits(r: bv32, n: nat)
    decreases n
  {
    if n == 0 then r == 0 else Fits(Half(r), n - 1)
  }

  lemma {:induction false} ZeroFits(n: nat)
    ensures Fits(0, n)
    decreases n
  {
    HalfOfZero();
    if n == 0 {
    } else {
      ZeroFits(n - 1);
    }
  }

  lemma HalfOfZero()
    ensures Half(0) == 0
  {
  }

  lemma {:induction false} FitsInMore(r: bv32, n: nat, m: nat)
    requires n <= m && Fits(r, n)
    ensures Fits(r, m)
    decreases n
  {
    hide Half;
    if n == 0 {
      ZeroFits(m);
    } else {
      FitsInMore(Half(r), n - 1, m - 1);
    }
  }

  function Eighth(r: bv32): bv32
  {
    Half(Half(Half(r)))
  }

  lemma ThreeFurther(r: bv32, n: nat)
    ensures Fits(r, n + 3) <==> Fits(Eighth(r), n)
  {
    hide Half;
    assert Fits(r, n + 3) == Fits(Half(r), n + 2);
    assert Fits(Half(r), n + 2) == Fits(Half(Half(r)), n + 1);
  }

  lemma NineFurther(r: bv32, n: nat)
    ensures Fits(r, n + 9) <==> Fits(Eighth(Eighth(Eighth(r))), n)
  {
    hide Fits, Eighth;
    ThreeFurther(r, n + 6);
    ThreeFurther(Eighth(r), n + 3);
    ThreeFurther(Eighth(Eighth(r)), n);
  }

  /** The register without its lowest 30 bits. */
  function Top(r: bv32): bv32
  {
    r >> 30
  }

  lemma TopIsShifted(r: bv32)
    ensures var nine := Eighth(Eighth(Eighth(r)));
      var eighteen := Eighth(Eighth(Eighth(nine)));
      Eighth(Eighth(Eighth(Eighth(eighteen)))) == Top(r)
  {
  }

  lemma TopBitOnly(r: bv32)
    ensures Half(Top(r)) == 0 <==> r < 0x80000000
  {
  }

  lemma FitsAllButTop(r: bv32)
    ensures Fits(r, 31) <==> r < 0x80000000
  {
    hide Half, Eighth, Top;
    var nine := Eighth(Eighth(Eighth(r)));
    var eighteen := Eighth(Eighth(Eighth(nine)));
    var end := Eighth(Eighth(Eighth(eighteen)));
    NineFurther(r, 22);
    NineFurther(nine, 13);
    NineFurther(eighteen, 4);
    ThreeFurther(end, 1);
    TopIsShifted(r);
    FitsOne(Top(r));
    TopBitOnly(r);
  }

  lemma FitsOne(r: bv32)
    ensures Fits(r, 1) <==> Half(r) == 0
  {
    hide Half;
  }

  lemma HalfIsLow(r: bv32)
    ensures Half(r) < 0x80000000
  {
  }

  lemma HalfFits31(r: bv32)
    ensures Fits(Half(r), 31)
  {
    hide Half;
    HalfIsLow(r);
    FitsAllButTop(Half(r));
  }

  lemma TopBitDoesNotFit(r: bv32, n: nat)
    requires r >= 0x80000000
    requires n <= 31
    ensures !Fits(r, n)
  {
    hide Fits;
    FitsAllButTop(r);
    if Fits(r, n) {
      FitsInMore(r, n, 31);
    }
  }

  lemma ByteFits(b: byte)
    ensures Fits(b as bv32, 8)
  {
    hide Half, Eighth;
    var r := b as bv32;
    ThreeFurther(r, 5);
    ThreeFurther(Eighth(r), 2);
    ByteIsShiftedOut(b);
    assert Fits(Half(Half(Eighth(Eighth(r)))), 0);
  }

  lemma ByteIsShiftedOut(b: byte)
    ensures Half(Half(Eighth(Eighth(b as bv32)))) == 0
  {
  }

  lemma ZeroIsEven()
    ensures !LowBit(0)
  {
  }

  lemma {:induction false} NextBitIsFalse(r: bv32, n: nat)
    requires Fits(r, n)
    ensures LowBits(r, n + 1) == LowBits(r, n) + [false]
    decreases n
  {
    hide Half, LowBit;
    if n == 0 {
      ZeroIsEven();
    } else {
      NextBitIsFalse(Half(r), n - 1);
    }
  }

  /** Shifting drops the first bit and brings in a zero at the end. */
  lemma ShiftedBits(r: bv32)
    ensures LowBits(Half(r), 32) == LowBits(r, 32)[1..] + [false]
  {
    hide LowBit, Half;
    HalfFits31(r);
    NextBitIsFalse(Half(r), 31);
    assert LowBits(r, 32)[1..] == LowBits(Half(r), 31);
  }

  lemma SameHalfAndLowBit(a: bv32, b: bv32)
    requires Half(a) == Half(b)
    requires LowBit(a) <==> LowBit(b)
    ensures a == b
  {
  }

  lemma {:induction false} BitsDetermine(a: bv32, b: bv32, n: nat)
    requires Fits(a, n) && Fits(b, n)
    requires LowBits(a, n) == LowBits(b, n)
    ensures a == b
    decreases n
  {
    hide LowBit, Half;
    if n == 0 {
    } else {
      assert LowBits(a, n)[0] == LowBits(b, n)[0];
      assert LowBits(a, n)[1..] == LowBits(Half(a), n - 1);
      assert LowBits(b, n)[1..] == LowBits(Half(b), n - 1);
      BitsDetermine(Half(a), Half(b), n - 1);
      SameHalfAndLowBit(a, b);
    }
  }

  lemma RegisterDetermined(a: bv32, b: bv32)
    requires LowBits(a, 32) == LowBits(b, 32)
    ensures a == b
  {
    hide Half;
    HalfFits31(a);
    HalfFits31(b);
    assert Fits(a, 32) && Fits(b, 32);
    BitsDetermine(a, b, 32);
  }
}
