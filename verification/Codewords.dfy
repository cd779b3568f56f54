// What the Reed-Solomon parity means: evaluation of the polynomials involved.
//
// The encoder builds its generator lowest degree first and then reads the list
// highest degree first. StandardLaw settles exactly when the usual law (data
// followed by parity vanishes at alpha^0 .. alpha^(n-1)) survives that.
module Codewords {
  import opened Bitwise
  import opened Gf256
  import opened ReedSolomon

  // ---------------------------------------------------------------- uniqueness

  /** A product by a monic polynomial determines the other factor from its top coefficients. */
  lemma {:induction false} QuotientDetermined(q: Polynomial, q': Polynomial, d: Polynomial)
    requires |d| > 1 && d[0] == 1 && |q| == |q'|
    requires forall j :: 0 <= j < |q| ==> Times(q, d)[j] == Times(q', d)[j]
    ensures q == q'
  {
    if q != [] {
      var k := |q| - 1;
      var p, p' := q[..k], q'[..k];
      assert q == p + [q[k]] && q' == p' + [q'[k]];
      TimesAppend(p, q[k], d);
      TimesAppend(p', q'[k], d);
      forall j | 0 <= j < k ensures Times(p, d)[j] == Times(p', d)[j] {
        AddZero(Times(p, d)[j]);
        AddZero(Times(p', d)[j]);
        assert Times(q, d)[j] == Add(Times(p, d)[j], 0);
        assert Times(q', d)[j] == Add(Times(p', d)[j], 0);
      }
      QuotientDetermined(p, p', d);
      LeadingTerm(p, q[k], d);
      LeadingTerm(p', q'[k], d);
      AddCancels(q[k], Times(p, d)[k]);
      AddCancels(q'[k], Times(p, d)[k]);
    }
  }

  lemma LeadingTerm(p: Polynomial, f: Byte, d: Polynomial)
    requires |d| > 1 && d[0] == 1
    ensures Times(p + [f], d)[|p|] == Add(f, Times(p, d)[|p|])
  {
    TimesAppend(p, f, d);
    OneTimes(f);
    AddCommutes(f, Times(p, d)[|p|]);
  }

  /** There is only one remainder, so RemainderLaw pins the register down. */
  lemma RemainderUnique(data: Polynomial, d: Polynomial, q: Polynomial, r: Polynomial,
                        q': Polynomial, r': Polynomial)
    requires |d| > 1 && d[0] == 1
    requires Divides(data, d, q, r) && Divides(data, d, q', r')
    ensures q == q' && r == r'
  {
    var n, k := |r|, |data|;
    forall j | 0 <= j < k ensures Times(q, d)[j] == Times(q', d)[j] {
      AddZero(Times(q, d)[j]);
      AddZero(Times(q', d)[j]);
      assert (data + Zeros(n))[j] == Add(Times(q, d)[j], 0);
      assert (data + Zeros(n))[j] == Add(Times(q', d)[j], 0);
    }
    QuotientDetermined(q, q', d);
    forall i | 0 <= i < n ensures r[i] == r'[i] {
      var t := Times(q, d)[k + i];
      assert (data + Zeros(n))[k + i] == Add(t, r[i]);
      assert (data + Zeros(n))[k + i] == Add(t, r'[i]);
      AddCancels(t, r[i]);
      AddCancels(t, r'[i]);
    }
  }

  // ---------------------------------------------------------------- evaluation

  lemma EvalAppend(p: Polynomial, c: Byte, x: Byte)
    ensures EvalDown(p + [c], x) == Add(Product(EvalDown(p, x), x), c)
  {
    assert (p + [c])[..|p|] == p;
  }

  lemma {:induction false} EvalSum(p: Polynomial, q: Polynomial, x: Byte)
    requires |p| == |q|
    ensures EvalDown(Sum(p, q), x) == Add(EvalDown(p, x), EvalDown(q, x))
  {
    AddZero(0);
    if p != [] {
      var k := |p| - 1;
      assert Sum(p, q)[..k] == Sum(p[..k], q[..k]);
      EvalSum(p[..k], q[..k], x);
      var u, v := EvalDown(p[..k], x), EvalDown(q[..k], x);
      ProductAdd(u, v, x);
      AddInterchange(Product(u, x), Product(v, x), p[k], q[k]);
    }
  }

  lemma {:induction false} EvalScale(p: Polynomial, c: Byte, x: Byte)
    ensures EvalDown(Scale(p, c), x) == Product(EvalDown(p, x), c)
  {
    ZeroTimes(c);
    if p != [] {
      var k := |p| - 1;
      assert Scale(p, c)[..k] == Scale(p[..k], c);
      EvalScale(p[..k], c, x);
      var u := EvalDown(p[..k], x);
      ProductAssociates(u, c, x);
      ProductCommutes(c, x);
      ProductAssociates(u, x, c);
      ProductAdd(Product(u, x), p[k], c);
    }
  }

  lemma {:induction false} EvalZeros(k: nat, x: Byte)
    ensures EvalDown(Zeros(k), x) == 0
  {
    if k > 0 {
      assert Zeros(k)[..k - 1] == Zeros(k - 1);
      EvalZeros(k - 1, x);
      ZeroTimes(x);
      AddZero(0);
    }
  }

  lemma {:induction false} EvalLeadingZeros(k: nat, p: Polynomial, x: Byte)
    ensures EvalDown(Zeros(k) + p, x) == EvalDown(p, x)
  {
    if p == [] {
      EvalZeros(k, x);
      assert Zeros(k) + [] == Zeros(k);
    } else {
      assert (Zeros(k) + p)[..k + |p| - 1] == Zeros(k) + p[..|p| - 1];
      EvalLeadingZeros(k, p[..|p| - 1], x);
    }
  }

  lemma TimesNothing(d: Polynomial)
    requires |d| > 0
    ensures Times([], d) == Zeros(|d| - 1)
  {
  }

  lemma EvalNothing(x: Byte)
    ensures EvalDown([], x) == 0
  {
  }

  /** Times is multiplication of the polynomials' values. */
  lemma {:induction false} EvalTimes(q: Polynomial, d: Polynomial, x: Byte)
    requires |d| > 0
    ensures EvalDown(Times(q, d), x) == Product(EvalDown(q, x), EvalDown(d, x))
  {
    hide EvalDown, Times, Product, Add, Scale, Sum;
    if q == [] {
      TimesNothing(d);
      EvalNothing(x);
      EvalLeadingZeros(|d| - 1, [], x);
      assert Zeros(|d| - 1) + [] == Zeros(|d| - 1);
      ZeroTimes(EvalDown(d, x));
    } else {
      var k := |q| - 1;
      var p, f := q[..k], q[k];
      EvalTimes(p, d, x);
      assert q == p + [f];
      TimesAppend(p, f, d);
      ScaleLength(d, f);
      EvalSum(Times(p, d) + [0], Zeros(k) + Scale(d, f), x);
      EvalAppend(Times(p, d), 0, x);
      EvalAppend(p, f, x);
      EvalLeadingZeros(k, Scale(d, f), x);
      EvalScale(d, f, x);
      EvalTimesStep(EvalDown(p, x), EvalDown(d, x), f, x);
    }
  }

  lemma EvalTimesStep(u: Byte, v: Byte, f: Byte, x: Byte)
    ensures Add(Add(Product(Product(u, v), x), 0), Product(v, f)) == Product(Add(Product(u, x), f), v)
  {
    AddZero(Product(Product(u, v), x));
    ProductAssociates(u, v, x);
    ProductCommutes(v, x);
    ProductAssociates(u, x, v);
    ProductCommutes(v, f);
    ProductAdd(Product(u, x), f, v);
  }

  // ---------------------------------------------------------------- the generator

  /** (x + 1)(x + alpha) ... (x + alpha^(n-1)) at a point. */
  function RootProduct(n: nat, x: Byte): Byte {
    if n == 0 then 1 else Product(RootProduct(n - 1, x), Add(x, Alpha(n - 1)))
  }

  lemma {:induction false} EvalUpSum(p: Polynomial, q: Polynomial, x: Byte)
    requires |p| == |q|
    ensures EvalUp(Sum(p, q), x) == Add(EvalUp(p, x), EvalUp(q, x))
  {
    AddZero(0);
    if p != [] {
      assert Sum(p, q)[1..] == Sum(p[1..], q[1..]);
      EvalUpSum(p[1..], q[1..], x);
      var u, v := EvalUp(p[1..], x), EvalUp(q[1..], x);
      ProductAdd(u, v, x);
      AddInterchange(p[0], q[0], Product(u, x), Product(v, x));
    }
  }

  lemma EvalUpNothing(x: Byte)
    ensures EvalUp([], x) == 0
  {
  }

  lemma EvalUpNext(a: Byte, p: Polynomial, x: Byte)
    ensures EvalUp([a] + p, x) == Add(a, Product(EvalUp(p, x), x))
  {
    hide Product, Add;
    assert ([a] + p)[1..] == p;
  }

  lemma ScaleNothing(c: Byte)
    ensures Scale([], c) == []
  {
  }

  lemma ScaleNext(p: Polynomial, c: Byte)
    requires p != []
    ensures Scale(p, c) == [Product(p[0], c)] + Scale(p[1..], c)
  {
    hide Product;
  }

  lemma {:induction false} EvalUpScale(p: Polynomial, c: Byte, x: Byte)
    ensures EvalUp(Scale(p, c), x) == Product(EvalUp(p, x), c)
  {
    hide EvalUp, Scale, Product, Add;
    if p == [] {
      EvalUpNothing(x);
      ScaleNothing(c);
      ZeroTimes(c);
    } else {
      var rest, u := p[1..], EvalUp(p[1..], x);
      ScaleNext(p, c);
      EvalUpScale(rest, c, x);
      EvalUpNext(p[0], rest, x);
      EvalUpNext(Product(p[0], c), Scale(rest, c), x);
      assert p == [p[0]] + rest;
      ProductAssociates(u, c, x);
      ProductCommutes(c, x);
      ProductAssociates(u, x, c);
      ProductAdd(p[0], Product(u, x), c);
    }
  }

  lemma {:induction false} EvalUpTrailingZero(p: Polynomial, x: Byte)
    ensures EvalUp(p + [0], x) == EvalUp(p, x)
  {
    ZeroTimes(x);
    AddZero(0);
    if p == [] {
      assert ([] + [0])[1..] == [];
    } else {
      assert (p + [0])[1..] == p[1..] + [0];
      EvalUpTrailingZero(p[1..], x);
    }
  }

  lemma TimesLinearSplits(p: Polynomial, c: Byte)
    ensures TimesLinear(p, c) == Sum(Scale(p + [0], c), [0] + p)
  {
    hide Product, Add;
    ZeroTimes(c);
  }

  /** The generator list, read lowest degree first, is the product of its linear factors. */
  lemma {:induction false} GeneratorIsRootProduct(n: nat, x: Byte)
    ensures EvalUp(Generator(n), x) == RootProduct(n, x)
  {
    if n == 0 {
      ZeroTimes(x);
      AddZero(1);
      assert [1 as Byte][1..] == [];
    } else {
      GeneratorIsRootProduct(n - 1, x);
      var p, c := Generator(n - 1), Alpha(n - 1);
      TimesLinearSplits(p, c);
      EvalUpSum(Scale(p + [0], c), [0] + p, x);
      EvalUpScale(p + [0], c, x);
      EvalUpTrailingZero(p, x);
      EvalUpShift(p, x);
      Distribute(EvalUp(p, x), c, x);
    }
  }

  lemma EvalUpShift(p: Polynomial, x: Byte)
    ensures EvalUp([0] + p, x) == Product(EvalUp(p, x), x)
  {
    assert ([0] + p)[1..] == p;
    AddZero(Product(EvalUp(p, x), x));
  }

  lemma Distribute(u: Byte, c: Byte, x: Byte)
    ensures Add(Product(u, c), Product(u, x)) == Product(u, Add(x, c))
  {
    ProductAdd(x, c, u);
    ProductCommutes(u, c);
    ProductCommutes(u, x);
    ProductCommutes(u, Add(x, c));
    AddCommutes(Product(u, c), Product(u, x));
  }

  /** Its roots are exactly the first n powers of alpha. */
  lemma {:induction false} GeneratorRoots(n: nat, x: Byte)
    ensures EvalUp(Generator(n), x) == 0 <==> exists i: nat :: i < n && x == Alpha(i)
  {
    GeneratorIsRootProduct(n, x);
    RootProductRoots(n, x);
  }

  lemma {:induction false} RootProductRoots(n: nat, x: Byte)
    ensures RootProduct(n, x) == 0 <==> exists i: nat :: i < n && x == Alpha(i)
  {
    if n > 0 {
      RootProductRoots(n - 1, x);
      var u, v := RootProduct(n - 1, x), Add(x, Alpha(n - 1));
      AddCancels(x, Alpha(n - 1));
      AddZero(x);
      ZeroTimes(v);
      ZeroTimes(u);
      ProductCommutes(u, v);
      if u != 0 && v != 0 { ProductNonzero(u, v); }
      hide Alpha, Product, Add;
    }
  }

  // ---------------------------------------------------------------- the standard law

  /** The block followed by its parity, as a polynomial. */
  function Codeword(data: Polynomial, n: nat): Polynomial
    requires n > 0
  {
    data + Parity(data, n)
  }

  /** Section 7.5 of ISO/IEC 18004:2015: the generator divides the codeword. */
  ghost predicate VanishesAtRoots(c: Polynomial, n: nat) {
    forall i: nat :: i < n ==> EvalDown(c, Alpha(i)) == 0
  }

  /** A codeword is a multiple of the divisor the register reads. */
  lemma CodewordValue(data: Polynomial, n: nat, x: Byte)
    requires n > 0
    ensures EvalDown(Codeword(data, n), x)
         == Product(EvalDown(Quotient(Generator(n), data), x), EvalDown(Divisor(Generator(n)), x))
  {
    var gen, r, k := Generator(n), Parity(data, n), |data|;
    var t := Times(Quotient(gen, data), Divisor(gen));
    RemainderLaw(gen, data);
    CodewordSplits(data, r);
    EvalSum(data + Zeros(n), Zeros(k) + r, x);
    EvalSum(t, Zeros(k) + r, x);
    AddCancels(EvalDown(t, x), EvalDown(Zeros(k) + r, x));
    EvalTimes(Quotient(gen, data), Divisor(gen), x);
  }

  lemma CodewordSplits(data: Polynomial, r: Polynomial)
    ensures data + r == Sum(data + Zeros(|r|), Zeros(|data|) + r)
  {
    hide Add;
    forall j | 0 <= j < |data| + |r|
      ensures (data + r)[j] == Add((data + Zeros(|r|))[j], (Zeros(|data|) + r)[j])
    {
      AddZero((data + r)[j]);
    }
  }

  function Power(x: Byte, n: nat): Byte {
    if n == 0 then 1 else Product(Power(x, n - 1), x)
  }

  lemma PowerSteps(x: Byte, n: nat)
    ensures Power(x, n) == if n == 0 then 1 else Product(Power(x, n - 1), x)
  {
    hide Product;
  }

  lemma {:induction false} EvalMonomial(c: Byte, n: nat, x: Byte)
    ensures EvalDown([c] + Zeros(n), x) == Product(c, Power(x, n))
  {
    hide EvalDown, Power, Product, Add;
    PowerSteps(x, n);
    if n == 0 {
      assert [c] + Zeros(0) == [] + [c];
      EvalNothing(x);
      EvalAppend([], c, x);
      ZeroTimes(x);
      AddZero(c);
      ProductCommutes(c, 1);
      OneTimes(c);
    } else {
      EvalMonomial(c, n - 1, x);
      assert [c] + Zeros(n) == ([c] + Zeros(n - 1)) + [0];
      EvalAppend([c] + Zeros(n - 1), 0, x);
      AddZero(Product(Product(c, Power(x, n - 1)), x));
      ProductAssociates(c, Power(x, n - 1), x);
    }
  }

  /** (1 + x)(1 + alpha x) ... (1 + alpha^(n-1) x): the generator with its list turned round. */
  function TurnedProduct(n: nat, x: Byte): Byte {
    if n == 0 then 1 else Product(TurnedProduct(n - 1, x), Add(1, Product(x, Alpha(n - 1))))
  }

  lemma TurnedProductEnds(x: Byte)
    ensures TurnedProduct(0, x) == 1
  {
  }

  lemma TurnedProductNext(n: nat, x: Byte)
    requires n > 0
    ensures TurnedProduct(n, x) == Product(TurnedProduct(n - 1, x), Add(1, Product(x, Alpha(n - 1))))
  {
    hide Product, Add, Alpha;
  }

  lemma EvalOne(x: Byte)
    ensures EvalDown([1], x) == 1
  {
    EvalAppend([], 1, x);
    ZeroTimes(x);
    AddZero(1);
    assert [] + [1 as Byte] == [1];
    hide Product, Add;
  }

  lemma EvalTimesLinear(p: Polynomial, c: Byte, x: Byte)
    ensures EvalDown(TimesLinear(p, c), x) == Add(Product(Product(EvalDown(p, x), x), c), EvalDown(p, x))
  {
    hide EvalDown, Product, Add, TimesLinear, Scale, Sum;
    TimesLinearSplits(p, c);
    ScaleLength(p + [0], c);
    EvalSum(Scale(p + [0], c), [0] + p, x);
    EvalScale(p + [0], c, x);
    EvalAppend(p, 0, x);
    EvalLeadingZeros(1, p, x);
    assert Zeros(1) + p == [0] + p;
    AddZero(Product(EvalDown(p, x), x));
  }

  lemma ScaleLength(p: Polynomial, c: Byte)
    ensures |Scale(p, c)| == |p|
  {
  }

  lemma {:induction false} GeneratorReadBackwards(n: nat, x: Byte)
    ensures EvalDown(Generator(n), x) == TurnedProduct(n, x)
  {
    hide EvalDown, TurnedProduct, Product, Add, Alpha, TimesLinear, Scale, Sum, Zeros;
    if n == 0 {
      TurnedProductEnds(x);
      EvalOne(x);
    } else {
      GeneratorReadBackwards(n - 1, x);
      var p, c := Generator(n - 1), Alpha(n - 1);
      TurnedProductNext(n, x);
      EvalTimesLinear(p, c, x);
      TurnedStep(EvalDown(p, x), x, c);
    }
  }

  lemma TurnedStep(u: Byte, x: Byte, c: Byte)
    ensures Add(Product(Product(u, x), c), u) == Product(u, Add(1, Product(x, c)))
  {
    ProductAssociates(u, x, c);
    var xc := Product(x, c);
    ProductCommutes(u, Add(1, xc));
    ProductAdd(1, xc, u);
    OneTimes(u);
    ProductCommutes(xc, u);
    AddCommutes(Product(u, xc), u);
  }

  lemma DivisorValue(n: nat, x: Byte)
    requires n > 0
    ensures EvalDown(Divisor(Generator(n)), x)
         == Add(TurnedProduct(n, x), Product(Add(1, Generator(n)[0]), Power(x, n)))
  {
    var gen := Generator(n);
    var c := Add(1, gen[0]);
    DivisorSplits(gen);
    EvalSum(gen, [c] + Zeros(n), x);
    GeneratorReadBackwards(n, x);
    EvalMonomial(c, n, x);
  }

  lemma DivisorSplits(gen: Polynomial)
    requires |gen| > 1
    ensures Divisor(gen) == Sum(gen, [Add(1, gen[0])] + Zeros(|gen| - 1))
  {
    AddCancels(1, gen[0]);
    hide Add;
    forall j | 0 <= j < |gen|
      ensures Divisor(gen)[j] == Add(gen[j], ([Add(1, gen[0])] + Zeros(|gen| - 1))[j])
    {
      AddZero(gen[j]);
    }
  }

  /** At alpha^j the turned product vanishes only if some root i + j wraps round to 0. */
  lemma {:induction false} TurnedNonzero(n: nat, j: nat)
    requires j > 0 && n + j <= 255
    ensures TurnedProduct(n, Alpha(j)) != 0
  {
    if n > 0 {
      TurnedNonzero(n - 1, j);
      AlphaAdds(j, n - 1);
      AlphaDistinct(0, j + n - 1);
      AddCancels(1, Alpha(j + n - 1));
      hide Alpha;
      ProductNonzero(TurnedProduct(n - 1, Alpha(j)), Add(1, Alpha(j + n - 1)));
    }
  }

  lemma {:induction false} TurnedVanishesAtOne(n: nat)
    requires n > 0
    ensures TurnedProduct(n, 1) == 0
  {
    if n == 1 {
      OneTimes(Alpha(0));
      OneTimes(Add(1, 1));
      AddZero(1);
    } else {
      TurnedVanishesAtOne(n - 1);
      ZeroTimes(Add(1, Product(1, Alpha(n - 1))));
    }
  }

  lemma {:induction false} PowerOfOne(n: nat)
    ensures Power(1, n) == 1
  {
    if n > 0 {
      PowerOfOne(n - 1);
      OneTimes(1);
    }
  }

  /** The divisor is the generator's divisor only for a single parity byte. */
  lemma DivisorMissesARoot(n: nat)
    requires 2 <= n <= 254
    ensures EvalDown(Divisor(Generator(n)), Alpha(0)) != 0 || EvalDown(Divisor(Generator(n)), Alpha(1)) != 0
  {
    var c := Add(1, Generator(n)[0]);
    DivisorValue(n, 1);
    DivisorValue(n, Alpha(1));
    TurnedVanishesAtOne(n);
    TurnedNonzero(n, 1);
    PowerOfOne(n);
    ProductCommutes(c, 1);
    OneTimes(c);
    ZeroTimes(Power(Alpha(1), n));
    assert Alpha(0) == 1;
    hide Alpha, Product, TurnedProduct, Power;
    AddZero(c);
    AddZero(TurnedProduct(n, Alpha(1)));
  }

  /** The smallest block for which the law fails, for every longer parity. */
  lemma SingleByteFails(n: nat)
    requires 2 <= n <= 254
    ensures !VanishesAtRoots(Codeword([1], n), n)
  {
    var gen := Generator(n);
    assert [1 as Byte][..0] == [];
    assert Quotient(gen, [1]) == [Add(1, 0)];
    AddZero(1);
    EvalAppend([], 1, Alpha(0));
    EvalAppend([], 1, Alpha(1));
    ZeroTimes(Alpha(0));
    ZeroTimes(Alpha(1));
    CodewordValue([1], n, Alpha(0));
    CodewordValue([1], n, Alpha(1));
    OneTimes(EvalDown(Divisor(gen), Alpha(0)));
    OneTimes(EvalDown(Divisor(gen), Alpha(1)));
    DivisorMissesARoot(n);
  }

  /** A block keeps the law if and only if its quotient vanishes at every root that the divisor misses. */
  lemma KeepsLawIff(data: Polynomial, n: nat)
    requires n > 0
    ensures VanishesAtRoots(Codeword(data, n), n) <==>
            forall i: nat :: i < n && EvalDown(Divisor(Generator(n)), Alpha(i)) != 0 ==>
              EvalDown(Quotient(Generator(n), data), Alpha(i)) == 0
  {
    hide EvalDown, Alpha, Product, Divisor, Quotient, Generator, Codeword;
    forall i: nat | i < n
      ensures EvalDown(Codeword(data, n), Alpha(i)) == 0 <==>
              EvalDown(Divisor(Generator(n)), Alpha(i)) == 0 || EvalDown(Quotient(Generator(n), data), Alpha(i)) == 0
    {
      CodewordValue(data, n, Alpha(i));
      ZeroProduct(EvalDown(Quotient(Generator(n), data), Alpha(i)), EvalDown(Divisor(Generator(n)), Alpha(i)));
    }
  }

  lemma ZeroProduct(u: Byte, v: Byte)
    ensures Product(u, v) == 0 <==> u == 0 || v == 0
  {
    ZeroTimes(u);
    ZeroTimes(v);
    ProductCommutes(u, v);
    if u != 0 && v != 0 { ProductNonzero(u, v); }
  }

  lemma LastByteSteers(gen: Polynomial, head: Polynomial, x: Byte, a: Byte)
    requires |gen| > 1
    ensures EvalDown(Quotient(gen, head + [x]), a)
         == Add(Product(EvalDown(Quotient(gen, head), a), a), Add(x, Register(gen, head)[0]))
  {
    hide EvalDown, Quotient, Register, Product, Add;
    RegisterAppend(gen, head, x);
    EvalAppend(Quotient(gen, head), Add(x, Register(gen, head)[0]), a);
  }

  /** Of the blocks that differ in their last byte alone, at most one keeps the law. */
  lemma OneLastByteAtMost(head: Polynomial, x: Byte, y: Byte, n: nat)
    requires 2 <= n <= 254 && x != y
    ensures !VanishesAtRoots(Codeword(head + [x], n), n) || !VanishesAtRoots(Codeword(head + [y], n), n)
  {
    var gen := Generator(n);
    DivisorMissesARoot(n);
    hide EvalDown, Alpha, Product, Divisor, Quotient, Register, Generator, Codeword, Add, VanishesAtRoots;
    var i: nat := if EvalDown(Divisor(gen), Alpha(0)) != 0 then 0 else 1;
    var u, r := Product(EvalDown(Quotient(gen, head), Alpha(i)), Alpha(i)), Register(gen, head)[0];
    LastByteSteers(gen, head, x, Alpha(i));
    LastByteSteers(gen, head, y, Alpha(i));
    KeepsLawIff(head + [x], n);
    KeepsLawIff(head + [y], n);
    if Add(u, Add(x, r)) == 0 && Add(u, Add(y, r)) == 0 { SameLastByte(u, x, y, r); }
  }

  lemma SameLastByte(u: Byte, x: Byte, y: Byte, r: Byte)
    requires Add(u, Add(x, r)) == 0 && Add(u, Add(y, r)) == 0
    ensures x == y
  {
    AddCancels(u, Add(x, r));
    AddCancels(u, Add(y, r));
    AddCancels(x, r);
    AddCancels(y, r);
  }

  lemma OneParityByte(data: Polynomial)
    ensures VanishesAtRoots(Codeword(data, 1), 1)
  {
    assert Alpha(0) == 1;
    CodewordValue(data, 1, 1);
    DivisorValue(1, 1);
    TurnedVanishesAtOne(1);
    var g := Generator(1);
    OneTimes(1);
    assert g == TimesLinear([1], 1);
    AddZero(1);
    assert g[0] == 1;
    ZeroTimes(Power(1, 1));
    AddZero(0);
    var q := EvalDown(Quotient(g, data), 1);
    ProductCommutes(q, 0);
    ZeroTimes(q);
  }

  /**
   * The standard law holds for every data block if and only if there is a single
   * parity byte. Every parity length in the version table is longer than that.
   */
  lemma StandardLaw(n: nat)
    requires 1 <= n <= 254
    ensures (forall data: Polynomial :: VanishesAtRoots(Codeword(data, n), n)) <==> n == 1
  {
    if n == 1 {
      forall data: Polynomial ensures VanishesAtRoots(Codeword(data, 1), 1) {
        OneParityByte(data);
      }
    } else {
      SingleByteFails(n);
    }
  }
  /** For blocks of every length: behind any beginning, all last bytes keep the law for one parity byte only. */
  lemma StandardLawAtLength(head: Polynomial, n: nat)
    requires 1 <= n <= 254
    ensures (forall x: Byte :: VanishesAtRoots(Codeword(head + [x], n), n)) <==> n == 1
  {
    hide VanishesAtRoots, Codeword;
    if n == 1 {
      forall x: Byte ensures VanishesAtRoots(Codeword(head + [x], 1), 1) {
        OneParityByte(head + [x]);
      }
    } else {
      OneLastByteAtMost(head, 0, 1, n);
    }
  }
}
