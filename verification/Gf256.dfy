// Arithmetic in GF(256): the log/antilog tables and the product computed from them.
//
// The field is modelled independently of the tables: a byte is a polynomial over
// GF(2) of degree below 8, addition is exclusive-or, and Product is shift-and-add
// multiplication modulo x^8 + x^4 + x^3 + x^2 + 1 (0x11d).
module Gf256 {
  import opened Bitwise

  // ---------------------------------------------------------------- the field

  /** Addition. */
  function Add(a: Byte, b: Byte): Byte {
    XorBelow(a, b, 8);
    Xor(a, b)
  }

  lemma Overflow(a: Byte)
    requires a >= 128
    ensures Xor(2 * a, 0x11d) == Xor(2 * a - 256, 0x1d) < 256
  {
    hide Xor;
    XorTop(2 * a - 256, 0x1d, 8);
    XorBelow(2 * a - 256, 0x1d, 8);
  }

  /** Multiplication by x: shift left and, when bit 8 gets set, subtract 0x11d. */
  function Double(a: Byte): Byte {
    if a < 128 then 2 * a
    else
      Overflow(a);
      Xor(2 * a, 0x11d)
  }

  /** The product of a and b as polynomials, reduced modulo 0x11d. */
  function Product(a: Byte, b: Byte): Byte {
    if b == 0 then 0
    else Add(Double(Product(a, b / 2)), if b % 2 == 1 then a else 0)
  }

  lemma AddZero(a: Byte)
    ensures Add(a, 0) == a && Add(0, a) == a && Add(a, a) == 0
  {
    XorZero(a);
    XorSelf(a);
  }

  lemma AddCommutes(a: Byte, b: Byte)
    ensures Add(a, b) == Add(b, a)
  {
    XorCommutes(a, b);
  }

  lemma AddInterchange(w: Byte, x: Byte, y: Byte, z: Byte)
    ensures Add(Add(w, x), Add(y, z)) == Add(Add(w, y), Add(x, z))
  {
    XorInterchange(w, x, y, z);
  }

  lemma AddCancels(a: Byte, b: Byte)
    ensures Add(Add(a, b), b) == a && Add(b, Add(a, b)) == a
    ensures Add(a, b) == 0 ==> a == b
  {
    XorCancels(a, b);
    XorCommutes(b, Xor(a, b));
    XorZero(b);
  }

  /** The polynomial subtracted when a is doubled. */
  function Carry(a: Byte): nat {
    if a < 128 then 0 else 0x11d
  }

  lemma DoubleCarries(a: Byte)
    ensures Double(a) == Xor(2 * a, Carry(a))
  {
    XorZero(2 * a);
  }

  /** The leading digits of bytes add up like any other. */
  lemma LeadingDigitAdds(a: Byte, c: Byte)
    ensures Add(a, c) < 128 <==> (a < 128 <==> c < 128)
  {
    var a' := if a < 128 then a else a - 128;
    var c' := if c < 128 then c else c - 128;
    XorTop(a', c', 7);
    XorBelow(a', c', 7);
  }

  lemma CarryAdds(a: Byte, c: Byte)
    ensures Carry(Add(a, c)) == Xor(Carry(a), Carry(c))
  {
    LeadingDigitAdds(a, c);
    XorZero(Carry(a));
    XorZero(Carry(c));
    XorSelf(Carry(a));
  }

  lemma TwiceXor(a: nat, c: nat)
    ensures Xor(2 * a, 2 * c) == 2 * Xor(a, c)
  {
    XorDigit(a, 0, c, 0);
    hide Xor;
  }

  lemma DoubleAdd(a: Byte, c: Byte)
    ensures Double(Add(a, c)) == Add(Double(a), Double(c))
  {
    hide Double, Carry, Xor;
    DoubleCarries(a);
    DoubleCarries(c);
    DoubleCarries(Add(a, c));
    CarryAdds(a, c);
    TwiceXor(a, c);
    XorInterchange(2 * a, 2 * c, Carry(a), Carry(c));
  }

  lemma DoubleParity(a: Byte)
    ensures Double(a) % 2 == 1 <==> a >= 128
  {
    if a >= 128 { XorDigits(2 * a, 0x11d); }
  }

  lemma DoubleInjective(a: Byte, c: Byte)
    requires Double(a) == Double(c)
    ensures a == c
  {
    DoubleParity(a);
    DoubleParity(c);
    DoubleCarries(a);
    DoubleCarries(c);
    XorCancels(2 * a, Carry(a));
    XorCancels(2 * c, Carry(a));
  }

  /** The product distributes over addition. */
  lemma {:induction false} ProductAdd(a: Byte, c: Byte, b: Byte)
    ensures Product(Add(a, c), b) == Add(Product(a, b), Product(c, b))
  {
    AddZero(0);
    if b > 0 {
      ProductAdd(a, c, b / 2);
      var p, q := Product(a, b / 2), Product(c, b / 2);
      DoubleAdd(p, q);
      AddInterchange(Double(p), Double(q), if b % 2 == 1 then a else 0, if b % 2 == 1 then c else 0);
    }
  }

  lemma {:induction false} ProductDouble(a: Byte, b: Byte)
    ensures Product(Double(a), b) == Double(Product(a, b))
  {
    if b > 0 {
      ProductDouble(a, b / 2);
      DoubleAdd(Double(Product(a, b / 2)), if b % 2 == 1 then a else 0);
    }
  }

  /** 1 is the unit of the product. */
  lemma {:induction false} OneTimes(b: Byte)
    ensures Product(1, b) == b
  {
    if b > 0 {
      OneTimes(b / 2);
      XorZero(2 * (b / 2));
      XorZero(b / 2);
      XorDigits(2 * (b / 2), 1);
    }
  }

  lemma {:induction false} ZeroTimes(b: Byte)
    ensures Product(0, b) == 0
  {
    if b > 0 {
      ZeroTimes(b / 2);
      AddZero(0);
    }
  }

  // ---------------------------------------------------------------- powers of x

  /** x^i applied to b, that is, b doubled i times. */
  function Shifted(b: Byte, i: nat): Byte {
    if i == 0 then b else Double(Shifted(b, i - 1))
  }

  /** The i-th power of the generator. */
  function Alpha(i: nat): Byte {
    Shifted(1, i)
  }

  lemma {:induction false} AlphaTimes(i: nat, b: Byte)
    ensures Product(Alpha(i), b) == Shifted(b, i)
  {
    if i == 0 {
      OneTimes(b);
    } else {
      ProductDouble(Alpha(i - 1), b);
      AlphaTimes(i - 1, b);
    }
  }

  lemma {:induction false} ShiftedTwice(b: Byte, i: nat, j: nat)
    ensures Shifted(Shifted(b, j), i) == Shifted(b, i + j)
  {
    if i > 0 { ShiftedTwice(b, i - 1, j); }
  }

  /** Exponents add. */
  lemma AlphaAdds(i: nat, j: nat)
    ensures Product(Alpha(i), Alpha(j)) == Alpha(i + j)
  {
    AlphaTimes(i, Alpha(j));
    ShiftedTwice(1, i, j);
  }

  lemma {:induction false} ShiftedInjective(a: Byte, c: Byte, i: nat)
    requires Shifted(a, i) == Shifted(c, i)
    ensures a == c
  {
    if i > 0 {
      DoubleInjective(Shifted(a, i - 1), Shifted(c, i - 1));
      ShiftedInjective(a, c, i - 1);
    }
  }

  lemma {:induction false} ShiftedZero(i: nat)
    ensures Shifted(0, i) == 0
  {
    if i > 0 { ShiftedZero(i - 1); }
  }

  lemma AlphaNonzero(i: nat)
    ensures Alpha(i) != 0
  {
    ShiftedZero(i);
    if Alpha(i) == 0 { ShiftedInjective(1, 0, i); }
  }

  // ---------------------------------------------------------------- the order of x

  // The order is found by doubling 1 and watching when it comes back. That much
  // arithmetic on known numbers is done on machine bytes, to which Double is first
  // related digit by digit.

  function BitsDouble(x: bv8): bv8 {
    (x << 1) ^ (if x & 0x80 == 0 then 0 else 0x1d)
  }

  /** Double with the exclusive-or by 0x1d spelt out digit by digit. */
  function DoubleByDigits(a: Byte): int {
    if a < 128 then 2 * a
    else
      var y := 2 * a - 256;
      y + 1 + (if y / 4 % 2 == 0 then 4 else -4)
            + (if y / 8 % 2 == 0 then 8 else -8)
            + (if y / 16 % 2 == 0 then 16 else -16)
  }

  lemma DoubleIsByDigits(a: Byte)
    ensures Double(a) == DoubleByDigits(a)
  {
    if a >= 128 {
      Overflow(a);
      hide Xor;
      XorLowDigits(2 * a - 256);
    }
  }

  /** 0x1d is 11101 in binary; y is even. */
  lemma XorLowDigits(y: nat)
    requires y % 2 == 0
    ensures Xor(y, 0x1d) == y + 1 + (if y / 4 % 2 == 0 then 4 else -4)
                                  + (if y / 8 % 2 == 0 then 8 else -8)
                                  + (if y / 16 % 2 == 0 then 16 else -16)
  {
    FiveDigits(y);
    hide Xor;
    XorOfDigits(y / 32, y / 16 % 2, y / 8 % 2, y / 4 % 2, y / 2 % 2);
  }

  lemma XorOfDigits(q: nat, d4: nat, d3: nat, d2: nat, d1: nat)
    requires d4 < 2 && d3 < 2 && d2 < 2 && d1 < 2
    ensures Xor(32 * q + 16 * d4 + 8 * d3 + 4 * d2 + 2 * d1, 0x1d)
         == 32 * q + 16 * (1 - d4) + 8 * (1 - d3) + 4 * (1 - d2) + 2 * d1 + 1
  {
    XorZero(q);
    hide Xor;
    var s := 2 * q + d4;
    var t := 2 * s + d3;
    var u := 2 * t + d2;
    var v := 2 * u + d1;
    XorDigit(q, d4, 0, 1);
    XorDigit(s, d3, 1, 1);
    XorDigit(t, d2, 3, 1);
    XorDigit(u, d1, 7, 0);
    XorDigit(v, 0, 14, 1);
  }

  lemma FiveDigits(y: nat)
    ensures y == 32 * (y / 32) + 16 * (y / 16 % 2) + 8 * (y / 8 % 2) + 4 * (y / 4 % 2) + 2 * (y / 2 % 2) + y % 2
  {
    assert y / 4 == y / 2 / 2;
    assert y / 8 == y / 4 / 2;
    assert y / 16 == y / 8 / 2;
    assert y / 32 == y / 16 / 2;
  }

  lemma BitsLeading(x: bv8)
    ensures x & 0x80 == 0 <==> x as int < 128
    ensures (x << 1) as int == if x & 0x80 == 0 then 2 * (x as int) else 2 * (x as int) - 256
  {
  }

  lemma BitsFlip(x: bv8)
    ensures x & 1 == 0 ==> (x ^ 1) as int == x as int + 1
    ensures (x ^ 4) as int == x as int + (if x & 4 == 0 then 4 else -4)
    ensures (x ^ 8) as int == x as int + (if x & 8 == 0 then 8 else -8)
    ensures (x ^ 16) as int == x as int + (if x & 16 == 0 then 16 else -16)
  {
  }

  lemma BitsDigit4(x: bv8)
    ensures x & 4 == 0 <==> x as int / 4 % 2 == 0
  {
  }

  lemma BitsDigit8(x: bv8)
    ensures x & 8 == 0 <==> x as int / 8 % 2 == 0
  {
  }

  lemma BitsDigit16(x: bv8)
    ensures x & 16 == 0 <==> x as int / 16 % 2 == 0
  {
  }

  lemma BitsXor1d(y: bv8)
    requires y & 1 == 0
    ensures (y ^ 0x1d) as int == y as int + 1 + (if y & 4 == 0 then 4 else -4)
      + (if y & 8 == 0 then 8 else -8) + (if y & 16 == 0 then 16 else -16)
  {
    BitsFlip(y);
    var y1 := y ^ 1;
    BitsFlip(y1);
    var y5 := y1 ^ 4;
    BitsFlip(y5);
    var yd := y5 ^ 8;
    BitsFlip(yd);
    assert yd ^ 16 == y ^ 0x1d;
    assert y1 & 4 == y & 4 && y5 & 8 == y & 8 && yd & 16 == y & 16;
  }

  /** Doubling machine bytes is doubling. */
  lemma DoubleOfBits(x: bv8, a: Byte)
    requires a == x as int
    ensures Double(a) == BitsDouble(x) as int
  {
    DoubleIsByDigits(a);
    BitsLeading(x);
    hide Double;
    if x & 0x80 != 0 {
      BitsXor1dByDigits(x << 1, 2 * a - 256);
    }
  }

  lemma BitsXor1dByDigits(y: bv8, b: nat)
    requires y & 1 == 0 && b == y as int
    ensures (y ^ 0x1d) as int == b + 1 + (if b / 4 % 2 == 0 then 4 else -4)
      + (if b / 8 % 2 == 0 then 8 else -8) + (if b / 16 % 2 == 0 then 16 else -16)
  {
    BitsXor1d(y);
    BitsDigit4(y);
    BitsDigit8(y);
    BitsDigit16(y);
  }

  function Bits5(x: bv8): bv8 {
    BitsDouble(BitsDouble(BitsDouble(BitsDouble(BitsDouble(x)))))
  }

  function Bits25(x: bv8): bv8 {
    Bits5(Bits5(Bits5(Bits5(Bits5(x)))))
  }

  function Bits125(x: bv8): bv8 {
    Bits25(Bits25(Bits25(Bits25(Bits25(x)))))
  }

  lemma AlphaLeap1(i: nat, x: bv8)
    requires Alpha(i) == x as int
    ensures Alpha(i + 1) == BitsDouble(x) as int
  {
    DoubleOfBits(x, Alpha(i));
  }

  lemma AlphaLeap5(i: nat, x: bv8)
    requires Alpha(i) == x as int
    ensures Alpha(i + 5) == Bits5(x) as int
  {
    hide Alpha, BitsDouble;
    AlphaLeap1(i, x);
    AlphaLeap1(i + 1, BitsDouble(x));
    AlphaLeap1(i + 2, BitsDouble(BitsDouble(x)));
    AlphaLeap1(i + 3, BitsDouble(BitsDouble(BitsDouble(x))));
    AlphaLeap1(i + 4, BitsDouble(BitsDouble(BitsDouble(BitsDouble(x)))));
  }

  lemma AlphaLeap25(i: nat, x: bv8)
    requires Alpha(i) == x as int
    ensures Alpha(i + 25) == Bits25(x) as int
  {
    hide Alpha, Bits5;
    AlphaLeap5(i, x);
    AlphaLeap5(i + 5, Bits5(x));
    AlphaLeap5(i + 10, Bits5(Bits5(x)));
    AlphaLeap5(i + 15, Bits5(Bits5(Bits5(x))));
    AlphaLeap5(i + 20, Bits5(Bits5(Bits5(Bits5(x)))));
  }

  lemma AlphaLeap125(i: nat, x: bv8)
    requires Alpha(i) == x as int
    ensures Alpha(i + 125) == Bits125(x) as int
  {
    hide Alpha, Bits25;
    AlphaLeap25(i, x);
    AlphaLeap25(i + 25, Bits25(x));
    AlphaLeap25(i + 50, Bits25(Bits25(x)));
    AlphaLeap25(i + 75, Bits25(Bits25(Bits25(x))));
    AlphaLeap25(i + 100, Bits25(Bits25(Bits25(Bits25(x)))));
  }

  // Exponents below are offset by a variable: the verifier would otherwise unfold
  // the powers of literal exponents step by step.

  lemma AlphaAt15And51(zero: nat)
    requires zero == 0
    ensures Alpha(zero + 15) == 0x26 && Alpha(zero + 51) == 0x0a
  {
    assert Alpha(zero) == (1 as bv8) as int;
    hide Alpha, Bits5, Bits25, BitsDouble;
    AlphaLeap5(zero, 1);
    AlphaLeap5(zero + 5, Bits5(1));
    AlphaLeap5(zero + 10, Bits5(Bits5(1)));
    BitsAt15And51();
    AlphaLeap25(zero, 1);
    AlphaLeap25(zero + 25, Bits25(1));
    AlphaLeap1(zero + 50, Bits25(Bits25(1)));
  }

  lemma BitsAt15And51()
    ensures Bits5(Bits5(Bits5(1))) == 0x26
    ensures BitsDouble(Bits25(Bits25(1))) == 0x0a
  {
  }

  lemma AlphaAt85And255(zero: nat)
    requires zero == 0
    ensures Alpha(zero + 85) == 0xd6 && Alpha(zero + 255) == 1
  {
    assert Alpha(zero) == (1 as bv8) as int;
    hide Alpha, Bits5, Bits25, Bits125;
    AlphaLeap5(zero, 1);
    AlphaLeap5(zero + 5, Bits5(1));
    AlphaLeap25(zero + 10, Bits5(Bits5(1)));
    AlphaLeap25(zero + 35, Bits25(Bits5(Bits5(1))));
    AlphaLeap25(zero + 60, Bits25(Bits25(Bits5(Bits5(1)))));
    AlphaLeap125(zero + 5, Bits5(1));
    AlphaLeap125(zero + 130, Bits125(Bits5(1)));
    BitsAt85();
    BitsAt255();
  }

  lemma BitsAt85()
    ensures Bits25(Bits25(Bits25(Bits5(Bits5(1))))) == 0xd6
  {
  }

  lemma BitsAt255()
    ensures Bits125(Bits125(Bits5(1))) == 1
  {
  }

  /** n is a multiple of the order of the generator. */
  predicate Period(n: nat) {
    Alpha(n) == 1
  }

  lemma {:induction false} PeriodMultiple(n: nat, q: nat)
    requires Period(n)
    ensures Period(q * n)
  {
    if q > 0 {
      PeriodMultiple(n, q - 1);
      AlphaAdds((q - 1) * n, n);
      OneTimes(1);
      assert (q - 1) * n + n == q * n;
    }
  }

  lemma PeriodDivides(n: nat, m: nat)
    requires n > 0 && m % n == 0 && Period(n)
    ensures Period(m)
  {
    hide Period;
    PeriodMultiple(n, m / n);
  }

  lemma PeriodRemainder(m: nat, n: nat)
    requires n > 0 && Period(m) && Period(n)
    ensures Period(m % n)
  {
    var q, r := m / n, m % n;
    assert m == q * n + r;
    PeriodMultiple(n, q);
    PeriodPlus(q * n, r);
  }

  lemma PeriodPlus(m: nat, r: nat)
    requires Period(m)
    ensures Alpha(m + r) == Alpha(r)
  {
    AlphaAdds(m, r);
    OneTimes(Alpha(r));
  }

  /** A proper divisor of 255 divides 85, 51 or 15. */
  lemma ProperDivisors(n: nat)
    requires 0 < n < 255 && 255 % n == 0
    ensures 85 % n == 0 || 51 % n == 0 || 15 % n == 0
  {
    var q := 255 / n;
    assert q * n == 255;
    if n > 15 {
      assert q <= 15;
      assert q == 3 || q == 5 || q == 15;
    }
  }

  /** The generator has order exactly 255. */
  lemma {:induction false} NoShorterPeriod(zero: nat, n: nat)
    requires zero == 0
    requires 0 < n < 255
    ensures !Period(n)
  {
    if Period(n) {
      AlphaAt15And51(zero);
      AlphaAt85And255(zero);
      hide Alpha;
      if 255 % n > 0 {
        PeriodRemainder(zero + 255, n);
        NoShorterPeriod(zero, 255 % n);
      } else {
        ProperDivisors(n);
        if 85 % n == 0 { PeriodDivides(n, zero + 85); }
        if 51 % n == 0 { PeriodDivides(n, zero + 51); }
        if 15 % n == 0 { PeriodDivides(n, zero + 15); }
      }
    }
  }

  lemma AlphaAt255()
    ensures Period(255)
  {
    var zero :| zero == 0;
    AlphaAt85And255(zero);
    hide Alpha;
    assert zero + 255 == 255;
  }

  /** Below 255 all powers of the generator differ. */
  lemma AlphaDistinct(i: nat, j: nat)
    requires i < j < 255
    ensures Alpha(i) != Alpha(j)
  {
    if Alpha(i) == Alpha(j) {
      ShiftedTwice(1, i, j - i);
      ShiftedInjective(1, Alpha(j - i), i);
      var zero :| zero == 0;
      NoShorterPeriod(zero, j - i);
    }
  }

  lemma AlphaWraps(i: nat)
    ensures Alpha(i + 255) == Alpha(i)
  {
    AlphaAt255();
    PeriodPlus(255, i);
  }

  // ---------------------------------------------------------------- logarithms

  lemma PlacesDistinct(i: nat)
    requires i < 255
    ensures forall k :: 0 <= k < i ==> Alpha(k) != Alpha(i)
  {
    forall k | 0 <= k < i ensures Alpha(k) != Alpha(i) {
      AlphaDistinct(k, i);
    }
  }

  /** The first n powers, as a set of numbers. */
  ghost function Powers(n: nat): set<int> {
    if n == 0 then {} else Powers(n - 1) + {Alpha(n - 1)}
  }

  lemma {:induction false} PowersAre(n: nat)
    ensures forall v :: v in Powers(n) ==> 0 < v < 256 && exists i: nat :: i < n && Alpha(i) == v
  {
    if n > 0 {
      PowersAre(n - 1);
      AlphaNonzero(n - 1);
    }
  }

  lemma {:induction false} PowersCount(n: nat)
    requires n <= 255
    ensures |Powers(n)| == n
  {
    if n > 0 {
      PowersCount(n - 1);
      PowersAre(n - 1);
      PlacesDistinct(n - 1);
      assert Alpha(n - 1) !in Powers(n - 1);
    }
  }

  lemma {:induction false} CountTo(s: set<int>, n: nat)
    requires forall v :: v in s ==> 0 < v <= n
    ensures |s| <= n
    ensures |s| == n ==> forall v :: 0 < v <= n ==> v in s
  {
    if n == 0 {
      assert forall v :: v in s ==> v in {0} - {0};
    } else {
      CountTo(s - {n}, n - 1);
    }
  }

  /** Every nonzero element is a power of the generator. */
  lemma EveryByteIsAPower(a: Byte)
    requires a != 0
    ensures exists i: nat :: i < 255 && Alpha(i) == a
  {
    PowersAre(255);
    PowersCount(255);
    CountTo(Powers(255), 255);
    assert a in Powers(255);
    var i: nat :| i < 255 && Alpha(i) == a;
  }

  /** The exponent below 255 of a nonzero element. */
  ghost function Log(a: Byte): (i: nat)
    requires a != 0
    ensures i < 255 && Alpha(i) == a
  {
    EveryByteIsAPower(a);
    var i: nat :| i < 255 && Alpha(i) == a;
    i
  }

  lemma ProductCommutes(a: Byte, b: Byte)
    ensures Product(a, b) == Product(b, a)
  {
    ZeroTimes(a);
    ZeroTimes(b);
    if a != 0 && b != 0 {
      AlphaAdds(Log(a), Log(b));
      AlphaAdds(Log(b), Log(a));
    }
  }

  lemma ProductAssociates(a: Byte, b: Byte, c: Byte)
    ensures Product(Product(a, b), c) == Product(a, Product(b, c))
  {
    if a == 0 || b == 0 || c == 0 {
      ZeroTimes(b); ZeroTimes(c); ZeroTimes(Product(b, c));
    } else {
      var i, j, k := Log(a), Log(b), Log(c);
      AlphaAdds(i, j);
      AlphaAdds(i + j, k);
      AlphaAdds(j, k);
      AlphaAdds(i, j + k);
    }
  }

  lemma ProductNonzero(a: Byte, b: Byte)
    requires a != 0 && b != 0
    ensures Product(a, b) != 0
  {
    AlphaAdds(Log(a), Log(b));
    AlphaNonzero(Log(a) + Log(b));
  }

  // ---------------------------------------------------------------- the tables

  /** EXP: the powers of the generator, twice over. */
  ghost predicate IsExpTable(exp: seq<Byte>) {
    |exp| == 512 && forall i :: 0 <= i < 512 ==> exp[i] == Alpha(i)
  }

  /** LOG: the exponent of each nonzero element; the entry at 0 is not used. */
  ghost predicate IsLogTable(log: seq<nat>) {
    |log| == 256 && forall a: Byte :: a != 0 ==> log[a] == Log(a)
  }

  ghost predicate ExpFilled(exp: seq<Byte>, n: nat) {
    n <= |exp| && forall k :: 0 <= k < n ==> exp[k] == Alpha(k)
  }

  ghost predicate LogFilled(log: seq<nat>, n: nat) {
    |log| == 256 && forall k :: 0 <= k < n ==> log[Alpha(k)] == k
  }

  /** One iteration's effect on LOG: no earlier power has the same place. */
  lemma LogFilledNext(log: seq<nat>, n: nat)
    requires n < 255 && LogFilled(log, n)
    ensures LogFilled(log[Alpha(n) := n], n + 1)
  {
    PlacesDistinct(n);
    hide Alpha;
  }

  lemma LogComplete(log: seq<nat>)
    requires LogFilled(log, 255)
    ensures IsLogTable(log)
  {
    hide Alpha;
    forall a: Byte | a != 0 ensures log[a] == Log(a) {
      assert Alpha(Log(a)) == a;
    }
  }

  /** The step of the table loop: shift left, subtract 0x11d when bit 8 is set. */
  method NextPower(x: Byte) returns (y: Byte)
    ensures y == Double(x)
  {
    var wide := 2 * x;
    if wide / 256 % 2 == 1 {
      wide := Xor(wide, 0x11d);
    }
    assert wide == Double(x);
    y := wide;
  }

  /** The first loop of the table initialiser. */
  method FillPowers(exp: array<Byte>, log: array<nat>)
    requires exp.Length == 512 && log.Length == 256
    modifies exp, log
    ensures ExpFilled(exp[..], 255) && LogFilled(log[..], 255)
  {
    var x: Byte := 1;
    assert Alpha(0) == 1;
    assert LogFilled(log[..], 0);
    hide Alpha, LogFilled;
    for i := 0 to 255
      invariant x == Alpha(i)
      invariant ExpFilled(exp[..], i) && LogFilled(log[..], i)
    {
      exp[i] := x;
      LogFilledNext(log[..], i);
      log[x] := i;
      AlphaNext(i);
      x := NextPower(x);
    }
  }

  /** The table initialiser of the module. */
  method InitTables() returns (exp: array<Byte>, log: array<nat>)
    ensures fresh(exp) && fresh(log)
    ensures IsExpTable(exp[..]) && IsLogTable(log[..])
  {
    exp := new Byte[512];
    log := new nat[256];
    FillPowers(exp, log);
    LogComplete(log[..]);
    hide Alpha, LogFilled, IsLogTable;
    for i := 255 to 512
      invariant ExpFilled(exp[..], i) && IsLogTable(log[..])
    {
      exp[i] := exp[i - 255];
      AlphaWraps(i - 255);
    }
  }

  lemma AlphaNext(i: nat)
    ensures Alpha(i + 1) == Double(Alpha(i))
  {
  }

  /** The product as computed: look the logarithms up, add them, look up the power. */
  function GfMul(exp: seq<Byte>, log: seq<nat>, a: Byte, b: Byte): Byte
    requires IsExpTable(exp) && IsLogTable(log)
  {
    if a == 0 || b == 0 then 0
    else
      assert log[a] == Log(a) && log[b] == Log(b);
      exp[log[a] + log[b]]
  }

  /** Looking up logarithms multiplies polynomials modulo 0x11d. */
  lemma GfMulIsProduct(exp: seq<Byte>, log: seq<nat>, a: Byte, b: Byte)
    requires IsExpTable(exp) && IsLogTable(log)
    ensures GfMul(exp, log, a, b) == Product(a, b)
  {
    ZeroTimes(b);
    if a != 0 && b != 0 { AlphaAdds(Log(a), Log(b)); }
  }
}
