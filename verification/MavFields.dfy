/**
  Fields of a MAVLink payload: little-endian numbers and fixed-width, NUL-padded text, packed one
  behind the other. A float is carried as its 32-bit word.
 */
module MavFields {
  import opened Octets

  datatype Code = U8 | I8 | U16 | I16 | U32 | I32 | F32 | U64 | Text(width: nat)

  datatype Value = Num(n: int) | Str(s: seq<octet>)

  function Width(code: Code): nat
  {
    match code
    case U8 => 1
    case I8 => 1
    case U16 => 2
    case I16 => 2
    case U32 => 4
    case I32 => 4
    case F32 => 4
    case U64 => 8
    case Text(w) => w
  }

  predicate Signed(code: Code)
  {
    code.I8? || code.I16? || code.I32?
  }

  function Pow256(n: nat): (p: nat)
    ensures p > 0
  {
    if n == 0 then 1 else 256 * Pow256(n - 1)
  }

  function LittleEndian(v: nat, n: nat): (b: seq<octet>)
    ensures |b| == n
  {
    if n == 0 then [] else [v % 256] + LittleEndian(v / 256, n - 1)
  }

  function FromLittleEndian(b: seq<octet>): nat
  {
    if b == [] then 0 else b[0] + 256 * FromLittleEndian(b[1..])
  }

  /** What packing accepts: a number in the field's range, or text of any length. */
  predicate Fits(code: Code, v: Value)
  {
    match code
    case Text(_) => v.Str?
    case _ =>
      && v.Num?
      && var p := Pow256(Width(code)); if Signed(code) then -(p / 2) <= v.n < p / 2 else 0 <= v.n < p
  }

  function EncodeField(code: Code, v: Value): (b: seq<octet>)
    requires Fits(code, v)
    ensures |b| == Width(code)
  {
    match code
    case Text(w) => PadText(v.s, w)
    case _ => LittleEndian(if v.n < 0 then v.n + Pow256(Width(code)) else v.n, Width(code))
  }

  function DecodeField(code: Code, b: seq<octet>): Value
    requires |b| == Width(code)
  {
    match code
    case Text(_) => Str(b)
    case _ =>
      var n, p := FromLittleEndian(b), Pow256(Width(code));
      Num(if Signed(code) && n >= p / 2 then n - p else n)
  }

  /** What a field reads as after a trip over the wire: text comes back at its full width. */
  function OnWire(code: Code, v: Value): Value
  {
    if code.Text? && v.Str? then Str(PadText(v.s, code.width)) else v
  }

  lemma {:induction false} LittleEndianRoundTrip(v: nat, n: nat)
    requires v < Pow256(n)
    ensures FromLittleEndian(LittleEndian(v, n)) == v
    decreases n
  {
    if n == 0 {
    } else {
      LittleEndianRoundTrip(v / 256, n - 1);
      assert LittleEndian(v, n)[1..] == LittleEndian(v / 256, n - 1);
    }
  }

  lemma LowestDigit(d: octet, rest: nat)
    ensures (d + 256 * rest) % 256 == d && (d + 256 * rest) / 256 == rest
  {
  }

  lemma {:induction false} FromLittleEndianRoundTrip(b: seq<octet>)
    ensures FromLittleEndian(b) < Pow256(|b|)
    ensures LittleEndian(FromLittleEndian(b), |b|) == b
  {
    if b == [] {
    } else {
      FromLittleEndianRoundTrip(b[1..]);
      LowestDigit(b[0], FromLittleEndian(b[1..]));
      assert b == [b[0]] + b[1..];
    }
  }

  lemma HalfOfPow(n: nat)
    requires n > 0
    ensures Pow256(n) == 2 * (Pow256(n) / 2)
  {
  }

  lemma FieldRoundTrip(code: Code, v: Value)
    requires Fits(code, v)
    ensures DecodeField(code, EncodeField(code, v)) == OnWire(code, v)
  {
    if !code.Text? {
      var p := Pow256(Width(code));
      HalfOfPow(Width(code));
      LittleEndianRoundTrip(if v.n < 0 then v.n + p else v.n, Width(code));
    }
  }

  lemma FieldRoundTripBack(code: Code, b: seq<octet>)
    requires |b| == Width(code)
    ensures Fits(code, DecodeField(code, b))
    ensures EncodeField(code, DecodeField(code, b)) == b
  {
    if !code.Text? {
      HalfOfPow(Width(code));
      FromLittleEndianRoundTrip(b);
    }
  }

  //
  // What is on the wire, said without the packing functions
  //

  lemma Powers()
    ensures Pow256(0) == 1 && Pow256(1) == 0x100 && Pow256(2) == 0x1_0000
    ensures Pow256(4) == 0x1_0000_0000 && Pow256(8) == 0x1_0000_0000_0000_0000
  {
    assert Pow256(4) == 65536 * Pow256(2);
    assert Pow256(8) == 65536 * Pow256(6) && Pow256(6) == 65536 * Pow256(4);
  }

  /** The struct letters' widths and ranges. */
  lemma WidthsAndRanges(n: int, w: nat)
    ensures Width(U8) == Width(I8) == 1 && Width(U16) == Width(I16) == 2
    ensures Width(U32) == Width(I32) == Width(F32) == 4 && Width(U64) == 8 && Width(Text(w)) == w
    ensures Fits(U8, Num(n)) <==> 0 <= n < 0x100
    ensures Fits(I8, Num(n)) <==> -0x80 <= n < 0x80
    ensures Fits(U16, Num(n)) <==> 0 <= n < 0x1_0000
    ensures Fits(I16, Num(n)) <==> -0x8000 <= n < 0x8000
    ensures Fits(U32, Num(n)) <==> 0 <= n < 0x1_0000_0000
    ensures Fits(I32, Num(n)) <==> -0x8000_0000 <= n < 0x8000_0000
    ensures Fits(F32, Num(n)) <==> 0 <= n < 0x1_0000_0000
    ensures Fits(U64, Num(n)) <==> 0 <= n < 0x1_0000_0000_0000_0000
  {
    Powers();
  }

  /** Byte i of a number holds its digit number i to base 256, lowest first. */
  lemma {:induction false} DigitAt(v: nat, n: nat, i: nat)
    requires i < n
    ensures LittleEndian(v, n)[i] == (v / Pow256(i)) % 256
    decreases n
  {
    if i == 0 {
    } else {
      DigitAt(v / 256, n - 1, i - 1);
      DivideTwice(v, Pow256(i - 1));
    }
  }

  lemma DivideTwice(v: nat, p: nat)
    requires p > 0
    ensures (v / 256) / p == v / (256 * p)
  {
    var q := v / 256;
    var r, a, b := v % 256, q / p, q % p;
    assert v == 256 * (p * a + b) + r;
    assert 256 * (p * a + b) == (256 * p) * a + 256 * b;
    assert 0 <= 256 * b + r < 256 * p;
    QuotientIs(v, 256 * p, a, 256 * b + r);
  }

  lemma ProductsApart(d: nat, x: int, y: int)
    requires x < y
    ensures d * x + d <= d * y
  {
    var k: nat := y - x - 1;
    ProductIsNat(d, k);
    Spread(d, x, k);
  }

  lemma ProductIsNat(d: nat, k: nat)
    ensures d * k >= 0
  {
  }

  lemma Spread(d: int, x: int, k: int)
    ensures d * (x + 1 + k) == d * x + d + d * k
  {
  }

  lemma QuotientIs(v: nat, d: nat, a: nat, r: nat)
    requires d > 0 && v == d * a + r && r < d
    ensures v / d == a
  {
    var q := v / d;
    assert d * q <= v < d * q + d;
    if q < a {
      ProductsApart(d, q, a);
    } else if q > a {
      ProductsApart(d, a, q);
    }
  }

  /** A number goes out in two's complement, lowest byte first: byte i is digit i of it modulo 256^width. */
  lemma NumberOnWire(code: Code, n: int, i: nat)
    requires !code.Text? && Fits(code, Num(n)) && i < Width(code)
    ensures EncodeField(code, Num(n))[i] == ((n % Pow256(Width(code))) / Pow256(i)) % 256
  {
    var p := Pow256(Width(code));
    HalfOfPow(Width(code));
    var v := if n < 0 then n + p else n;
    WrapsTo(n, p, v);
    DigitAt(v, Width(code), i);
  }

  lemma WrapsTo(n: int, p: nat, v: nat)
    requires p > 0 && v < p && (v == n || v == n + p)
    ensures n % p == v
  {
    var q, k := n / p, if v == n then 0 else -1;
    assert n == p * q + n % p && n == p * k + v;
    if q < k {
      ProductsApart(p, q, k);
    } else if q > k {
      ProductsApart(p, k, q);
    }
  }

  /** Text goes out byte by byte, cut at its width or filled up with NULs. */
  lemma TextOnWire(s: seq<octet>, w: nat, i: nat)
    requires i < w
    ensures EncodeField(Text(w), Str(s))[i] == if i < |s| then s[i] else 0
  {
  }

  //
  // Payloads
  //

  function Size(fmt: seq<Code>): nat
  {
    if fmt == [] then 0 else Width(fmt[0]) + Size(fmt[1..])
  }

  predicate AllFit(fmt: seq<Code>, vs: seq<Value>)
  {
    |vs| == |fmt| && forall i | 0 <= i < |fmt| :: Fits(fmt[i], vs[i])
  }

  function PackFields(fmt: seq<Code>, vs: seq<Value>): (b: seq<octet>)
    requires AllFit(fmt, vs)
    ensures |b| == Size(fmt)
  {
    if fmt == [] then [] else EncodeField(fmt[0], vs[0]) + PackFields(fmt[1..], vs[1..])
  }

  function UnpackFields(fmt: seq<Code>, b: seq<octet>): (vs: seq<Value>)
    requires |b| == Size(fmt)
    ensures |vs| == |fmt|
  {
    if fmt == [] then []
    else [DecodeField(fmt[0], b[..Width(fmt[0])])] + UnpackFields(fmt[1..], b[Width(fmt[0])..])
  }

  function AllOnWire(fmt: seq<Code>, vs: seq<Value>): (r: seq<Value>)
    requires |vs| == |fmt|
    ensures |r| == |fmt|
  {
    seq(|fmt|, i requires 0 <= i < |fmt| => OnWire(fmt[i], vs[i]))
  }

  lemma {:induction false} PackUnpack(fmt: seq<Code>, vs: seq<Value>)
    requires AllFit(fmt, vs)
    ensures UnpackFields(fmt, PackFields(fmt, vs)) == AllOnWire(fmt, vs)
    decreases |fmt|
  {
    hide EncodeField, DecodeField, OnWire, Fits;
    if fmt == [] {
    } else {
      var b, w := PackFields(fmt, vs), Width(fmt[0]);
      assert b[..w] == EncodeField(fmt[0], vs[0]) && b[w..] == PackFields(fmt[1..], vs[1..]);
      FieldRoundTrip(fmt[0], vs[0]);
      PackUnpack(fmt[1..], vs[1..]);
    }
  }

  lemma {:induction false} UnpackPack(fmt: seq<Code>, b: seq<octet>)
    requires |b| == Size(fmt)
    ensures AllFit(fmt, UnpackFields(fmt, b))
    ensures PackFields(fmt, UnpackFields(fmt, b)) == b
    decreases |fmt|
  {
    hide EncodeField, DecodeField, Fits;
    if fmt == [] {
    } else {
      var w := Width(fmt[0]);
      FieldRoundTripBack(fmt[0], b[..w]);
      UnpackPack(fmt[1..], b[w..]);
      assert b == b[..w] + b[w..];
      assert UnpackFields(fmt, b)[1..] == UnpackFields(fmt[1..], b[w..]);
    }
  }

  /** Where a field starts in a payload: behind the widths of those before it. */
  lemma {:induction false} FieldAt(fmt: seq<Code>, vs: seq<Value>, j: nat)
    requires AllFit(fmt, vs) && j < |fmt|
    ensures Size(fmt[..j]) + Width(fmt[j]) <= Size(fmt)
    ensures PackFields(fmt, vs)[Size(fmt[..j])..Size(fmt[..j]) + Width(fmt[j])] == EncodeField(fmt[j], vs[j])
    decreases |fmt|
  {
    hide EncodeField, Fits, Width;
    var first, b := EncodeField(fmt[0], vs[0]), PackFields(fmt, vs);
    assert b == first + PackFields(fmt[1..], vs[1..]);
    if j == 0 {
      assert fmt[..0] == [];
      assert b[..Width(fmt[0])] == first;
    } else {
      FieldAt(fmt[1..], vs[1..], j - 1);
      assert fmt[..j][0] == fmt[0] && fmt[..j][1..] == fmt[1..][..j - 1];
      var at, w := Size(fmt[1..][..j - 1]), Width(fmt[0]);
      assert Size(fmt[..j]) == w + at;
      assert b[w + at..w + at + Width(fmt[j])] == PackFields(fmt[1..], vs[1..])[at..at + Width(fmt[j])];
    }
  }
}
