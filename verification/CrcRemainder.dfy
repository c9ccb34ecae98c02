/**
  The register as a polynomial remainder. Polynomials over GF(2) are bit strings, highest
  power first; the generator is x^32 followed by the 32 coefficients held in POLY.
 */
module CrcRemainder {
  import opened Crc32
  import opened CrcRegister

  function Zeros(n: nat): (z: seq<bool>)
    ensures |z| == n
  {
    seq(n, _ => false)
  }

  /** Sum of two polynomials of the same length. */
  function Plus(a: seq<bool>, b: seq<bool>): (c: seq<bool>)
    requires |a| == |b|
    ensures |c| == |a|
  {
    seq(|a|, i requires 0 <= i < |a| => a[i] != b[i])
  }

  function Scale(c: bool, a: seq<bool>): (r: seq<bool>)
    ensures |r| == |a|
  {
    if c then a else Zeros(|a|)
  }

  function Register(r: bv32): (bits: seq<bool>)
    ensures |bits| == 32
  {
    LowBits(r, 32)
  }

  /** The schoolbook product q * generator: one shifted copy of the generator per coefficient of q. */
  function TimesGenerator(q: seq<bool>): (p: seq<bool>)
    ensures |p| == |q| + 32
  {
    if q == [] then Zeros(32)
    else Plus([q[0]] + Scale(q[0], Register(POLY)) + Zeros(|q| - 1), [false] + TimesGenerator(q[1..]))
  }

  /** message * x^32 with the start register s added to its leading 32 coefficients. */
  function Dividend(message: seq<bool>, s: bv32): (d: seq<bool>)
    ensures |d| == |message| + 32
  {
    Plus(message + Zeros(32), Register(s) + Zeros(|message|))
  }

  /** dividend == q * generator + r, with r of degree below 32. */
  ghost predicate IsDivision(message: seq<bool>, s: bv32, q: seq<bool>, r: bv32)
  {
    |q| == |message| && Dividend(message, s) == Plus(TimesGenerator(q), Zeros(|q|) + Register(r))
  }

  lemma {:induction false} LowBitsXor(a: bv32, b: bv32, n: nat)
    ensures LowBits(Xor(a, b), n) == Plus(LowBits(a, n), LowBits(b, n))
    decreases n
  {
    hide Xor, LowBit, Half;
    if n == 0 {
    } else {
      XorShifted(a, b);
      XorLowBit(a, b);
      LowBitsXor(Half(a), Half(b), n - 1);
    }
  }

  /** One step of the register is one step of long division. */
  lemma StepDivides(r: bv32, bit: bool)
    ensures Register(BitStep(r, bit)) == Plus(Register(r)[1..] + [false], Scale(LowBit(r) != bit, Register(POLY)))
  {
    hide Xor, LowBits, LowBit, BitStep, Half;
    BitInFront(r, bit);
    ShiftedBits(r);
    LowBitsXor(Half(r), POLY, 32);
  }

  /** The quotient long division would write down: its coefficients are the feedback bits. */
  function Quotient(message: seq<bool>, s: bv32): (q: seq<bool>)
    ensures |q| == |message|
  {
    if message == [] then []
    else [LowBit(s) != message[0]] + Quotient(message[1..], BitStep(s, message[0]))
  }

  lemma {:induction false} QuotientDivides(message: seq<bool>, s: bv32)
    ensures IsDivision(message, s, Quotient(message, s), BitCrc(message, s))
  {
    if message == [] {
      assert Dividend(message, s) == Register(s);
      assert Plus(TimesGenerator([]), Zeros(0) + Register(s)) == Register(s);
    } else {
      var rest, s' := message[1..], BitStep(s, message[0]);
      QuotientDivides(rest, s');
      OneMoreCoefficient(message, s, Quotient(rest, s'), BitCrc(rest, s'));
    }
  }

  lemma FirstBit(s: bv32)
    ensures Register(s)[0] == LowBit(s)
  {
    hide LowBit;
  }

  lemma DividendTail(m: seq<bool>, reg: seq<bool>, next: seq<bool>, scaled: seq<bool>)
    requires m != [] && |reg| == |scaled| == 32
    requires next == Plus(reg[1..] + [false], scaled)
    ensures Plus(m + Zeros(32), reg + Zeros(|m|))[1..]
      == Plus(Plus(m[1..] + Zeros(32), next + Zeros(|m| - 1)), scaled + Zeros(|m| - 1))
  {
    var n := |m| - 1;
    var left, right := Plus(m + Zeros(32), reg + Zeros(|m|)), Plus(m[1..] + Zeros(32), next + Zeros(n));
    forall k | 0 <= k < n + 32
      ensures left[k + 1] == (right[k] != (scaled + Zeros(n))[k])
    {
      assert (m[1..] + Zeros(32))[k] == (m + Zeros(32))[k + 1];
      if k < 32 {
        assert next[k] == ((reg[1..] + [false])[k] != scaled[k]);
      }
    }
  }

  lemma ProductTail(c: bool, inner: seq<bool>, scaled: seq<bool>, r: seq<bool>)
    requires |inner| >= 32 && |scaled| == |r| == 32
    ensures var n := |inner| - 32;
      Plus(Plus([c] + scaled + Zeros(n), [false] + inner), Zeros(n + 1) + r)[1..]
      == Plus(Plus(inner, Zeros(n) + r), scaled + Zeros(n))
  {
    var n := |inner| - 32;
    var left := Plus(Plus([c] + scaled + Zeros(n), [false] + inner), Zeros(n + 1) + r);
    forall k | 0 <= k < n + 32
      ensures left[k + 1] == (Plus(inner, Zeros(n) + r)[k] != (scaled + Zeros(n))[k])
    {
      assert ([c] + scaled + Zeros(n))[k + 1] == (scaled + Zeros(n))[k];
      assert (Zeros(n + 1) + r)[k + 1] == (Zeros(n) + r)[k];
    }
  }

  /** Dividing message from register s is one quotient coefficient, then dividing the rest from the next register. */
  lemma OneMoreCoefficient(message: seq<bool>, s: bv32, q: seq<bool>, r: bv32)
    requires message != [] && |q| == |message| - 1
    ensures var c := LowBit(s) != message[0];
      IsDivision(message, s, [c] + q, r) <==> IsDivision(message[1..], BitStep(s, message[0]), q, r)
  {
    hide Register, BitStep, LowBit, Scale, Plus, Zeros;
    var n := |q|;
    var s' := BitStep(s, message[0]);
    var c := LowBit(s) != message[0];
    var scaled := Scale(c, Register(POLY));
    StepDivides(s, message[0]);
    DividendTail(message, Register(s), Register(s'), scaled);
    ProductTail(c, TimesGenerator(q), scaled, Register(r));
    assert ([c] + q)[1..] == q;
    var left, right := Dividend(message, s), Plus(TimesGenerator([c] + q), Zeros(n + 1) + Register(r));
    LeadingTerms(message, s, c, q, r);
    assert left == [left[0]] + left[1..] && right == [right[0]] + right[1..];
    PlusCancels(Dividend(message[1..], s'), Plus(TimesGenerator(q), Zeros(n) + Register(r)), scaled + Zeros(n));
  }

  lemma LeadingTerms(message: seq<bool>, s: bv32, c: bool, q: seq<bool>, r: bv32)
    requires message != []
    ensures Dividend(message, s)[0] == (LowBit(s) != message[0])
    ensures Plus(TimesGenerator([c] + q), Zeros(|q| + 1) + Register(r))[0] == c
  {
    hide LowBit, Register, BitStep, Scale;
    FirstBit(s);
    assert (message + Zeros(32))[0] == message[0];
  }

  lemma PlusCancels(a: seq<bool>, b: seq<bool>, c: seq<bool>)
    requires |a| == |b| == |c|
    ensures Plus(a, c) == Plus(b, c) <==> a == b
  {
    if Plus(a, c) == Plus(b, c) {
      forall k | 0 <= k < |a|
        ensures a[k] == b[k]
      {
        assert Plus(a, c)[k] == Plus(b, c)[k];
      }
    }
  }

  lemma {:induction false} DivisionIsUnique(message: seq<bool>, s: bv32, q: seq<bool>, r: bv32)
    requires IsDivision(message, s, q, r)
    ensures r == BitCrc(message, s)
  {
    if message == [] {
      assert Dividend(message, s) == Register(s);
      assert Plus(TimesGenerator(q), Zeros(0) + Register(r)) == Register(r);
      RegisterDetermined(r, s);
    } else {
      LeadingTerms(message, s, q[0], q[1..], r);
      assert q == [q[0]] + q[1..];
      OneMoreCoefficient(message, s, q[1..], r);
      DivisionIsUnique(message[1..], BitStep(s, message[0]), q[1..], r);
    }
  }

  /**
    The firmware checksum of a byte string is the one remainder of its polynomial, times x^32,
    on division by the generator.
   */
  lemma CrcIsTheRemainder(data: seq<byte>, s: bv32, r: bv32)
    ensures r == Crc(data, s) <==> exists q :: IsDivision(Bits(data), s, q, r)
  {
    TableRefinesBitSerial(data, s);
    QuotientDivides(Bits(data), s);
    if q :| IsDivision(Bits(data), s, q, r) {
      DivisionIsUnique(Bits(data), s, q, r);
    }
  }
}
