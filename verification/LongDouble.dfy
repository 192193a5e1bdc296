/**
 * The 128-bit floating point format kept in sixteen octets on hosts whose native type is the 64-bit one, and the
 * conversions between the two by moving nibbles (section 3.4 of IEEE 754-2008 gives both formats).
 */
module LongDoubles {
  import opened Bytes

  /** The most significant octet first, whatever order the host keeps them in. */
  function BigEndian(littleEndian: bool, s: seq<Octet>): (r: seq<Octet>)
    ensures |r| == |s|
  {
    if littleEndian then Reversed(s) else s
  }

  /** Bitwise or of operands with no bit in common: one has only a low nibble, the other only a high one. */
  function Or(a: Octet, b: Octet): Octet
    requires (a % 16 == 0 && b < 16) || (b % 16 == 0 && a < 16)
  {
    a + b
  }

  function HighNibble(x: Octet): Octet { x / 16 }
  function LowNibble(x: Octet): Octet { x % 16 }

  /** The low nibble moved up. */
  function Raised(x: Octet): Octet { 16 * (x % 16) }

  // ----- Widening -----

  /** The biased exponent of the wide format. */
  function WidenExponent(e: nat): nat
    requires e < 0x800
  {
    if e == 0x7ff then 0x7fff else e - 0x3ff + 0x3fff
  }

  function Exponent64(x: seq<Octet>): nat
    requires |x| == 8
  {
    16 * (x[0] % 128) + HighNibble(x[1])
  }

  function Negative(x: seq<Octet>): bool
    requires |x| > 0
  {
    x[0] >= 128
  }

  /** Octet `k` of the wide number made from the octets `x` of a narrow one, both most significant first. */
  function WideOctet(x: seq<Octet>, k: nat): Octet
    requires |x| == 8
  {
    var e := WidenExponent(Exponent64(x)) + if Negative(x) then 0x8000 else 0;
    if k == 0 then e / 256
    else if k == 1 then e % 256
    else if k < 8 then Raised(x[k - 1]) + HighNibble(x[k])
    else if k == 8 then Raised(x[7])
    else 0
  }

  function Widen(x: seq<Octet>): (y: seq<Octet>)
    requires |x| == 8
    ensures |y| == 16
  {
    seq(16, k requires 0 <= k < 16 => WideOctet(x, k))
  }

  // ----- Narrowing -----

  /** Sign and exponent of the narrow format as a 16-bit pattern, computed in 16-bit arithmetic. */
  function NarrowHead(e: nat, negative: bool): (head: nat)
    requires e < 0x8000
    ensures head < 0x1_0000 && head % 16 == 0
  {
    var narrow := if e == 0x7fff then 0x7ff else e - 0x3fff + 0x3ff;
    var shifted := (16 * narrow) % 0x1_0000;
    if negative && shifted < 0x8000 then shifted + 0x8000 else shifted
  }

  function Exponent128(y: seq<Octet>): nat
    requires |y| == 16
  {
    256 * (y[0] as int % 128) + y[1] as int
  }

  function NarrowOctet(y: seq<Octet>, k: nat): Octet
    requires |y| == 16 && k < 8
  {
    var head := NarrowHead(Exponent128(y), Negative(y));
    if k == 0 then head / 256
    else if k == 1 then head % 256 + HighNibble(y[2])
    else Raised(y[k]) + HighNibble(y[k + 1])
  }

  function Narrow(y: seq<Octet>): (x: seq<Octet>)
    requires |y| == 16
    ensures |x| == 8
  {
    seq(8, k requires 0 <= k < 8 => NarrowOctet(y, k))
  }

  lemma LowOctetOfHead(head: nat)
    requires head % 16 == 0
    ensures (head % 256) % 16 == 0
  {
  }

  /** The fraction, nibble by nibble: a low nibble becomes the high one of a new octet, a high one completes it. */
  method MoveNibbles(wide: array<Octet>, x: seq<Octet>)
    requires wide.Length == 16 && |x| == 8 && forall k | 2 <= k < 16 :: wide[k] == 0
    modifies wide
    ensures wide[0] == old(wide[0]) && wide[1] == old(wide[1])
    ensures forall k | 2 <= k < 16 :: wide[k] == WideOctet(x, k)
  {
    var li, ri, direction := 2, 1, true;
    while ri < 8
      invariant 1 <= ri <= 8 && li == (if direction then ri + 1 else ri)
      invariant ri == 8 ==> !direction
      invariant wide[0] == old(wide[0]) && wide[1] == old(wide[1])
      invariant forall k | 2 <= k < li :: wide[k] == Raised(x[k - 1]) + HighNibble(x[k])
      invariant wide[li] == if direction then 0 else Raised(x[li - 1])
      invariant forall k | li < k < 16 :: wide[k] == 0
      decreases 8 - ri, !direction
    {
      if direction {
        wide[li] := Or(wide[li], Raised(x[ri]));
        direction := false;
        ri := ri + 1;
      } else {
        wide[li] := Or(wide[li], HighNibble(x[ri]));
        direction := true;
        li := li + 1;
      }
    }
  }

  class LongDouble {
    const littleEndian: bool
    const ld: array<Octet>

    constructor (littleEndian: bool)
      ensures ld.Length == 16 && this.littleEndian == littleEndian && fresh(ld)
    {
      this.littleEndian := littleEndian;
      ld := new Octet[16];
    }

    /** Store a native 64-bit number, given by its octets in memory order. */
    method Assign(rhs: seq<Octet>)
      requires ld.Length == 16 && |rhs| == 8
      modifies ld
      ensures ld[..] == BigEndian(littleEndian, Widen(BigEndian(littleEndian, rhs)))
    {
      var x := BigEndian(littleEndian, rhs);
      var wide := new Octet[16](_ => 0);
      var exponent := 16 * (x[0] % 128) + HighNibble(x[1]);
      exponent := if exponent == 0x7ff then 0x7fff else exponent - 0x3ff + 0x3fff;
      exponent := if x[0] >= 128 then exponent + 0x8000 else exponent;
      wide[0], wide[1] := exponent / 256, exponent % 256;
      MoveNibbles(wide, x);
      assert wide[..] == Widen(x);
      Copy(ld, 0, BigEndian(littleEndian, wide[..]));
      assert ld[..] == ld[0..16];
    }

    /** The native 64-bit number, as its octets in memory order. */
    method ToNative() returns (ret: seq<Octet>)
      requires ld.Length == 16
      ensures ret == BigEndian(littleEndian, Narrow(BigEndian(littleEndian, ld[..])))
    {
      var y := BigEndian(littleEndian, ld[..]);
      var lhs := new Octet[8](_ => 0);
      var head := NarrowHead(256 * (y[0] as int % 128) + y[1] as int, y[0] >= 128);
      lhs[0], lhs[1] := head / 256, head % 256;
      LowOctetOfHead(head);
      var li, ri, direction := 1, 2, true;
      while li < 8
        invariant 1 <= li <= 8 && ri == (if direction then li + 1 else li)
        invariant li == 8 ==> !direction
        invariant lhs[0] == head / 256 && (li == 1 ==> direction)
        invariant direction && li < 8 ==> lhs[li] % 16 == 0
        invariant lhs[1] == head % 256 + if li > 1 then HighNibble(y[2]) else 0
        invariant forall k | 2 <= k < li :: lhs[k] == Raised(y[k]) + HighNibble(y[k + 1])
        invariant 1 < li < 8 ==> lhs[li] == if direction then Raised(y[li]) else 0
        invariant forall k | li < k < 8 :: lhs[k] == 0
        decreases 8 - li, !direction
      {
        if direction {
          lhs[li] := Or(lhs[li], HighNibble(y[ri]));
          direction := false;
          li := li + 1;
        } else {
          lhs[li] := Or(lhs[li], Raised(y[ri]));
          direction := true;
          ri := ri + 1;
        }
      }
      forall k: nat | k < 8
        ensures lhs[k] == NarrowOctet(y, k)
      {
      }
      assert lhs[..] == Narrow(y);
      ret := BigEndian(littleEndian, lhs[..]);
    }
  }

  // ----- Round trip -----

  /** Sign and exponent, widened, taken apart into two octets and put together again. */
  lemma HeadFields(e: nat, negative: bool)
    requires e < 0x800
    ensures var w := WidenExponent(e) + if negative then 0x8000 else 0;
      && w < 0x1_0000 && 256 * ((w / 256) % 128) + w % 256 == WidenExponent(e) && (w / 256 >= 128 <==> negative)
    ensures NarrowHead(WidenExponent(e), negative) == 16 * e + if negative then 0x8000 else 0
  {
  }

  lemma HeadRoundTrip(x: seq<Octet>)
    requires |x| == 8
    ensures Exponent128(Widen(x)) == WidenExponent(Exponent64(x)) && Negative(Widen(x)) == Negative(x)
    ensures NarrowHead(Exponent128(Widen(x)), Negative(x)) == 256 * x[0] + 16 * HighNibble(x[1])
  {
    HeadFields(Exponent64(x), Negative(x));
    var y := Widen(x);
    assert y[0] == WideOctet(x, 0) && y[1] == WideOctet(x, 1);
    assert x[0] == (if Negative(x) then 128 else 0) + x[0] % 128;
  }

  /** An octet whose nibbles went to two neighbours is put together again. */
  lemma Rejoin(a: Octet, b: Octet, c: Octet)
    ensures Raised(Raised(a) + HighNibble(b)) + HighNibble(Raised(b) + HighNibble(c)) == b
    ensures 16 * HighNibble(b) + HighNibble(Raised(b) + HighNibble(c)) == b
  {
  }

  /** Every 64-bit pattern, zeros, subnormals, infinities and NaNs included, survives widening and narrowing. */
  lemma BitsRoundTrip(x: seq<Octet>)
    requires |x| == 8
    ensures Narrow(Widen(x)) == x
  {
    var y := Widen(x);
    HeadRoundTrip(x);
    forall k: nat | k < 8
      ensures NarrowOctet(y, k) == x[k]
    {
      OctetRoundTrip(x, k);
    }
  }

  lemma OctetRoundTrip(x: seq<Octet>, k: nat)
    requires |x| == 8 && k < 8
    ensures NarrowOctet(Widen(x), k) == x[k]
  {
    if k < 2 {
      FrontRoundTrip(x);
    } else {
      BackRoundTrip(x, k);
    }
  }

  lemma FrontRoundTrip(x: seq<Octet>)
    requires |x| == 8
    ensures NarrowOctet(Widen(x), 0) == x[0] && NarrowOctet(Widen(x), 1) == x[1]
  {
    HeadRoundTrip(x);
    var head := 256 * x[0] + 16 * HighNibble(x[1]);
    assert head / 256 == x[0] && head % 256 == 16 * HighNibble(x[1]);
    assert Widen(x)[2] == Raised(x[1]) + HighNibble(x[2]);
    Rejoin(0, x[1], x[2]);
  }

  lemma BackRoundTrip(x: seq<Octet>, k: nat)
    requires |x| == 8 && 2 <= k < 8
    ensures NarrowOctet(Widen(x), k) == x[k]
  {
    var next := if k == 7 then 0 else x[k + 1];
    assert Widen(x)[k] == Raised(x[k - 1]) + HighNibble(x[k]);
    assert Widen(x)[k + 1] == Raised(x[k]) + HighNibble(next);
    Rejoin(x[k - 1], x[k], next);
  }

  /** Through memory, in either byte order: assigning a native number and converting back returns its octets. */
  method NativeRoundTrip(littleEndian: bool, native: seq<Octet>) returns (back: seq<Octet>)
    requires |native| == 8
    ensures back == native
  {
    var number := new LongDouble(littleEndian);
    number.Assign(native);
    var x := BigEndian(littleEndian, native);
    BitsRoundTrip(x);
    ReversedTwice(native);
    ReversedTwice(Widen(x));
    back := number.ToNative();
  }

  // ----- Values -----

  /** A power of two with any integer exponent. */
  ghost function Pow2(e: int): real
    decreases if e < 0 then -e else e
  {
    if e == 0 then 1.0 else if e > 0 then 2.0 * Pow2(e - 1) else Pow2(e + 1) / 2.0
  }

  lemma {:induction false} Pow2Step(e: int)
    ensures Pow2(e + 1) == 2.0 * Pow2(e)
  {
  }

  lemma {:induction false} Pow2Positive(e: int)
    ensures Pow2(e) > 0.0
    decreases if e < 0 then -e else e
  {
    if e > 0 {
      Pow2Positive(e - 1);
    } else if e < 0 {
      Pow2Positive(e + 1);
    }
  }

  /** Powers of two in the integers. */
  ghost function PowNat(k: nat): nat {
    if k == 0 then 1 else 2 * PowNat(k - 1)
  }

  lemma {:induction false} Pow2Shift(e: int, k: nat)
    ensures Pow2(e + k) == PowNat(k) as real * Pow2(e)
  {
    if k > 0 {
      Pow2Shift(e, k - 1);
      Pow2Step(e + k - 1);
    }
  }

  const TWO60: nat := 0x1000_0000_0000_0000
  const TWO52: nat := 0x10_0000_0000_0000
  const TWO112: nat := TWO52 * TWO60

  lemma {:induction false} PowNatAdd(a: nat, b: nat)
    ensures PowNat(a + b) == PowNat(a) * PowNat(b)
  {
    if b > 0 {
      PowNatAdd(a, b - 1);
    }
  }

  lemma PowNat60()
    ensures PowNat(60) == TWO60
  {
    assert PowNat(4) == 16 by { assert PowNat(2) == 4; }
    PowNatAdd(4, 4);
    PowNatAdd(8, 4);
    PowNatAdd(12, 12);
    PowNatAdd(24, 12);
    PowNatAdd(36, 24);
  }

  /** The 52-bit fraction of the narrow format. */
  function Fraction64(x: seq<Octet>): nat
    requires |x| == 8
  {
    0x1_0000_0000_0000 * LowNibble(x[1]) as int + 0x100_0000_0000 * x[2] as int + 0x1_0000_0000 * x[3] as int
      + 0x100_0000 * x[4] as int + 0x1_0000 * x[5] as int + 0x100 * x[6] as int + x[7] as int
  }

  /** The 112-bit fraction of the wide format. */
  function Fraction128(y: seq<Octet>): nat
    requires |y| == 16
  {
    var high := 0x1_0000_0000_0000 * y[2] as int + 0x100_0000_0000 * y[3] as int + 0x1_0000_0000 * y[4] as int
      + 0x100_0000 * y[5] as int + 0x1_0000 * y[6] as int + 0x100 * y[7] as int + y[8] as int;
    var low := 0x1_0000_0000_0000 * y[9] as int + 0x100_0000_0000 * y[10] as int + 0x1_0000_0000 * y[11] as int
      + 0x100_0000 * y[12] as int + 0x1_0000 * y[13] as int + 0x100 * y[14] as int + y[15] as int;
    high * 0x100_0000_0000_0000 + low
  }

  /** The fraction is moved up by sixty bits: no digit is lost and no other digit appears. */
  lemma FractionWidens(x: seq<Octet>)
    requires |x| == 8
    ensures Fraction128(Widen(x)) == TWO60 * Fraction64(x) && Fraction64(x) < TWO52
  {
    var y := Widen(x);
    assert y[2] == WideOctet(x, 2) && y[3] == WideOctet(x, 3) && y[4] == WideOctet(x, 4) && y[5] == WideOctet(x, 5);
    assert y[6] == WideOctet(x, 6) && y[7] == WideOctet(x, 7) && y[8] == WideOctet(x, 8);
    assert y[9] == 0 && y[10] == 0 && y[11] == 0 && y[12] == 0 && y[13] == 0 && y[14] == 0 && y[15] == 0;
  }

  /** An octet of the narrow fraction, taken apart: what moves down from its neighbour and what stays. */
  lemma NarrowNibbles(y: seq<Octet>)
    requires |y| == 16
    ensures LowNibble(Narrow(y)[1]) == HighNibble(y[2])
    ensures forall k | 2 <= k < 8 :: Narrow(y)[k] == 16 * LowNibble(y[k]) + HighNibble(y[k + 1])
    ensures forall k | 2 <= k < 9 :: y[k] == 16 * HighNibble(y[k]) + LowNibble(y[k])
  {
    var head := NarrowHead(Exponent128(y), Negative(y));
    LowOctetOfHead(head);
    assert Narrow(y)[1] == head % 256 + HighNibble(y[2]);
  }

  /** Narrowing any pattern keeps the leading 52 bits of its fraction. */
  lemma FractionNarrows(y: seq<Octet>)
    requires |y| == 16
    ensures Fraction64(Narrow(y)) == Fraction128(y) / TWO60
  {
    NarrowNibbles(y);
    var low := 0x1_0000_0000_0000 * y[9] as int + 0x100_0000_0000 * y[10] as int + 0x1_0000_0000 * y[11] as int
      + 0x100_0000 * y[12] as int + 0x1_0000 * y[13] as int + 0x100 * y[14] as int + y[15] as int;
    var rest := LowNibble(y[8]) as int * 0x100_0000_0000_0000 + low;
    assert Fraction128(y) == TWO60 * Fraction64(Narrow(y)) + rest && 0 <= rest < TWO60;
    Quotient(Fraction64(Narrow(y)), rest);
  }

  lemma Quotient(q: nat, rest: nat)
    requires rest < TWO60
    ensures (TWO60 * q + rest) / TWO60 == q
  {
  }

  /** Exponents that the narrow format has, and that of infinities and NaNs. */
  predicate InRange(e: nat) {
    0x3c00 <= e <= 0x43ff || e == 0x7fff
  }

  /** The exponent is re-biased modulo its eleven bits; in range, sign and exponent are kept. */
  lemma HeadNarrows(y: seq<Octet>)
    requires |y| == 16
    ensures var x, e := Narrow(y), Exponent128(y);
      && Exponent64(x) == (if e == 0x7fff then 0x7ff else (e - 0x3c00) % 0x800)
      && (InRange(e) ==> Negative(x) == Negative(y))
      && (InRange(e) && e != 0x43ff ==> WidenExponent(Exponent64(x)) == e)
  {
    var e := Exponent128(y);
    HeadBits(e, Negative(y));
    var head := NarrowHead(e, Negative(y));
    assert Narrow(y)[0] == head / 256 && Narrow(y)[1] == head % 256 + HighNibble(y[2]);
    LowOctetOfHead(head);
    HighOfSum(head % 256, HighNibble(y[2]));
  }

  lemma HighOfSum(a: Octet, b: Octet)
    requires a % 16 == 0 && b < 16
    ensures a + b < 256 && HighNibble(a + b) == HighNibble(a)
  {
  }

  lemma HeadBits(e: nat, negative: bool)
    requires e < 0x8000
    ensures var head := NarrowHead(e, negative);
      && 16 * ((head / 256) % 128) + (head % 256) / 16 == (if e == 0x7fff then 0x7ff else (e - 0x3c00) % 0x800)
      && (InRange(e) ==> (head / 256 >= 128 <==> negative))
  {
    var narrow := if e == 0x7fff then 0x7ff else e - 0x3c00;
    SixteenTimes(narrow);
    var bits := narrow % 0x1000;
    if bits < 0x800 {
      HeadOf(bits, negative);
    } else {
      HeadOf(bits - 0x800, true);
    }
  }

  lemma SixteenTimes(n: int)
    ensures (16 * n) % 0x1_0000 == 16 * (n % 0x1000)
    ensures n % 0x800 == if n % 0x1000 < 0x800 then n % 0x1000 else n % 0x1000 - 0x800
  {
    var q := n / 0x1000;
    assert n == 0x1000 * q + n % 0x1000;
    assert 16 * n == 0x1_0000 * q + 16 * (n % 0x1000);
  }

  /** An exponent of eleven bits below a sign bit, in the upper twelve of sixteen bits. */
  lemma HeadOf(bits: nat, sign: bool)
    requires bits < 0x800
    ensures var head := 16 * bits + if sign then 0x8000 else 0;
            16 * ((head / 256) % 128) + (head % 256) / 16 == bits && (head / 256 >= 128 <==> sign)
  {
  }

  datatype Number = NaN | Infinite(negative: bool) | Finite(negative: bool, magnitude: real)

  /** What the fields of a 64-bit pattern stand for. */
  ghost function Denote64(negative: bool, e: nat, f: nat): Number {
    if e == 0x7ff then (if f == 0 then Infinite(negative) else NaN)
    else if e == 0 then Finite(negative, f as real * Pow2(-1074))
    else Finite(negative, (TWO52 + f) as real * Pow2(e as int - 1075))
  }

  /** What the fields of a 128-bit pattern stand for. */
  ghost function Denote128(negative: bool, e: nat, f: nat): Number {
    if e == 0x7fff then (if f == 0 then Infinite(negative) else NaN)
    else if e == 0 then Finite(negative, f as real * Pow2(-16494))
    else Finite(negative, (TWO112 + f) as real * Pow2(e as int - 16495))
  }

  ghost function Value64(x: seq<Octet>): Number
    requires |x| == 8
  {
    Denote64(Negative(x), Exponent64(x), Fraction64(x))
  }

  ghost function Value128(y: seq<Octet>): Number
    requires |y| == 16
  {
    Denote128(Negative(y), Exponent128(y), Fraction128(y))
  }

  lemma MulAssoc(a: nat, b: nat, u: real)
    ensures (a * b) as real * u == a as real * (b as real * u)
  {
    assert (a * b) as real == a as real * b as real;
  }

  /** The magnitude of a widened number, in units of the narrow format. */
  lemma WideMagnitude(negative: bool, e: nat, f: nat)
    requires e < 0x7ff
    ensures Denote128(negative, WidenExponent(e), TWO60 * f) ==
        Finite(negative, (TWO52 + f) as real * Pow2(e as int - 1075))
  {
    Pow2Shift(e as int - 1135, 60);
    PowNat60();
    MulAssoc(TWO52 + f, TWO60, Pow2(e as int - 1135));
    HiddenBit(f);
  }

  /** The hidden leading bit moves up with the fraction. */
  lemma HiddenBit(f: nat)
    ensures TWO112 + TWO60 * f == (TWO52 + f) * TWO60
  {
  }

  /** A subnormal fraction read with the implicit leading bit of a normal number is another magnitude. */
  lemma SubnormalDiffers(f: nat, unit: real, twice: real)
    requires f < TWO52 && unit > 0.0 && twice == 2.0 * unit
    ensures (TWO52 + f) as real * unit > f as real * twice
  {
    var gap := TWO52 - f;
    assert (TWO52 + f) as real == 2.0 * (f as real) + gap as real;
    assert (TWO52 + f) as real * unit == f as real * (2.0 * unit) + gap as real * unit;
    assert gap as real * unit > 0.0;
  }

  /**
   * The wide pattern stands for the same number exactly when the narrow exponent field is not zero: normal numbers,
   * infinities and NaNs keep their value; zeros and subnormals, whose exponent is re-biased like the others, do not.
   */
  lemma ValueKeptExactly(x: seq<Octet>)
    requires |x| == 8
    ensures Value128(Widen(x)) == Value64(x) <==> Exponent64(x) != 0
  {
    HeadRoundTrip(x);
    FractionWidens(x);
    FieldsKeptExactly(Negative(x), Exponent64(x), Fraction64(x));
  }

  lemma FieldsKeptExactly(negative: bool, e: nat, f: nat)
    requires e < 0x800 && f < TWO52
    ensures Denote128(negative, WidenExponent(e), TWO60 * f) == Denote64(negative, e, f) <==> e != 0
  {
    if e == 0 {
      SubnormalNotKept(negative, f);
    } else if e < 0x7ff {
      WideMagnitude(negative, e, f);
    }
  }

  lemma SubnormalNotKept(negative: bool, f: nat)
    requires f < TWO52
    ensures Denote128(negative, WidenExponent(0), TWO60 * f) != Denote64(negative, 0, f)
  {
    var unit, twice := Pow2(-1075), Pow2(-1074);
    Pow2Step(-1075);
    Pow2Positive(-1075);
    WideMagnitude(negative, 0, f);
    SubnormalDiffers(f, unit, twice);
  }

  /** Positive zero is widened to a pattern that stands for a tiny positive number. */
  lemma ZeroIsNotKept()
    ensures var zero := [0, 0, 0, 0, 0, 0, 0, 0];
            Value64(zero) == Finite(false, 0.0) && Value128(Widen(zero)) == Finite(false, TWO52 as real * Pow2(-1075))
  {
    var zero := [0, 0, 0, 0, 0, 0, 0, 0];
    assert Exponent64(zero) == 0 && Fraction64(zero) == 0 && !Negative(zero);
    HeadRoundTrip(zero);
    FractionWidens(zero);
    WideMagnitude(false, 0, 0);
    assert TWO52 + 0 == TWO52;
  }
}
