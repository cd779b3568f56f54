// Reed-Solomon parity as the encoder computes it.
//
// Polynomials over GF(256) are sequences of coefficients. The generator list is
// built lowest degree first; data, parity, quotient and divisor are read highest
// degree first, which is how the shift register consumes them.
module ReedSolomon {
  import opened Bitwise
  import opened Gf256

  type Polynomial = seq<Byte>

  // ---------------------------------------------------------------- polynomials

  function Zeros(n: nat): Polynomial {
    seq(n, _ => 0)
  }

  /** Coefficientwise sum. */
  function Sum(p: Polynomial, q: Polynomial): Polynomial
    requires |p| == |q|
  {
    seq(|p|, i requires 0 <= i < |p| => Add(p[i], q[i]))
  }

  function Scale(p: Polynomial, c: Byte): Polynomial {
    seq(|p|, i requires 0 <= i < |p| => Product(p[i], c))
  }

  /** The product q * d, both highest degree first, by long multiplication. */
  function Times(q: Polynomial, d: Polynomial): (p: Polynomial)
    requires |d| > 0
    ensures |p| == |q| + |d| - 1
  {
    if q == [] then Zeros(|d| - 1)
    else
      var k := |q| - 1;
      Sum(Times(q[..k], d) + [0], Zeros(k) + Scale(d, q[k]))
  }

  /** The value at x of a polynomial written highest degree first. */
  function EvalDown(p: Polynomial, x: Byte): Byte {
    if p == [] then 0 else Add(Product(EvalDown(p[..|p| - 1], x), x), p[|p| - 1])
  }

  /** The value at x of a polynomial written lowest degree first. */
  function EvalUp(p: Polynomial, x: Byte): Byte {
    if p == [] then 0 else Add(p[0], Product(EvalUp(p[1..], x), x))
  }

  // ---------------------------------------------------------------- the generator

  function TimesLinearAt(p: Polynomial, c: Byte, j: nat): Byte
    requires j <= |p|
  {
    Add(if j < |p| then Product(p[j], c) else 0, if j > 0 then p[j - 1] else 0)
  }

  /** p * (x + c), lowest degree first. */
  function TimesLinear(p: Polynomial, c: Byte): Polynomial {
    seq(|p| + 1, j requires 0 <= j <= |p| => TimesLinearAt(p, c, j))
  }

  /** (x + 1)(x + alpha) ... (x + alpha^(n-1)), lowest degree first. */
  function Generator(n: nat): (p: Polynomial)
    ensures |p| == n + 1
  {
    if n == 0 then [1] else TimesLinear(Generator(n - 1), Alpha(n - 1))
  }

  /** The inner loop of the generator: one more linear factor. */
  method MultiplyByLinear(exp: seq<Byte>, log: seq<nat>, poly: array<Byte>, c: Byte)
    returns (next: array<Byte>)
    requires IsExpTable(exp) && IsLogTable(log)
    ensures fresh(next) && next[..] == TimesLinear(poly[..], c)
  {
    hide Product, Add, GfMul, IsExpTable, IsLogTable;
    next := new Byte[poly.Length + 1](_ => 0);
    for j := 0 to poly.Length
      invariant forall k :: 0 <= k < j ==> next[k] == TimesLinear(poly[..], c)[k]
      invariant next[j] == if j > 0 then poly[j - 1] else 0
      invariant forall k :: j < k <= poly.Length ==> next[k] == 0
    {
      GfMulIsProduct(exp, log, poly[j], c);
      AddCommutes(next[j], Product(poly[j], c));
      AddZero(poly[j]);
      next[j] := Add(next[j], GfMul(exp, log, poly[j], c));
      next[j + 1] := Add(next[j + 1], poly[j]);
    }
    AddZero(next[poly.Length]);
  }

  method RsGenerator(exp: seq<Byte>, log: seq<nat>, degree: nat) returns (poly: array<Byte>)
    requires IsExpTable(exp) && IsLogTable(log)
    requires degree <= 512
    ensures poly[..] == Generator(degree)
  {
    hide TimesLinear, Alpha;
    poly := new Byte[1](_ => 1);
    for i := 0 to degree
      invariant poly[..] == Generator(i)
    {
      poly := MultiplyByLinear(exp, log, poly, exp[i]);
    }
  }

  // ---------------------------------------------------------------- the shift register

  /** One turn of the register: feed in a byte, shift, subtract a multiple of the divisor. */
  function Turn(gen: Polynomial, register: Polynomial, byte: Byte): Polynomial
    requires |gen| == |register| + 1 && |register| > 0
  {
    var factor := Add(byte, register[0]);
    seq(|register|, i requires 0 <= i < |register| =>
      Add(if i + 1 < |register| then register[i + 1] else 0, Product(gen[i + 1], factor)))
  }

  /** The register after all of data has been fed in. */
  function Register(gen: Polynomial, data: Polynomial): (r: Polynomial)
    requires |gen| > 1
    ensures |r| == |gen| - 1
  {
    if data == [] then Zeros(|gen| - 1)
    else Turn(gen, Register(gen, data[..|data| - 1]), data[|data| - 1])
  }

  /** The parity of a data block, for a given parity length. */
  function Parity(data: Polynomial, n: nat): (r: Polynomial)
    requires n > 0
    ensures |r| == n
  {
    Register(Generator(n), data)
  }

  /** The register of the encoder, turned once in place. */
  method TurnInPlace(exp: seq<Byte>, log: seq<nat>, gen: array<Byte>, result: array<Byte>, byte: Byte)
    requires IsExpTable(exp) && IsLogTable(log)
    requires gen.Length == result.Length + 1 && result.Length > 0 && gen != result
    modifies result
    ensures result[..] == Turn(gen[..], old(result[..]), byte)
  {
    hide Product, Add, GfMul, IsExpTable, IsLogTable;
    var n := result.Length;
    var factor := Add(byte, result[0]);
    forall i | 0 <= i < n - 1 {
      result[i] := result[i + 1];
    }
    result[n - 1] := 0;
    SubtractMultiple(exp, log, gen, result, factor);
  }

  /** The inner loop of the encoder. */
  method SubtractMultiple(exp: seq<Byte>, log: seq<nat>, gen: array<Byte>, result: array<Byte>, factor: Byte)
    requires IsExpTable(exp) && IsLogTable(log)
    requires gen.Length == result.Length + 1 && gen != result
    modifies result
    ensures forall j :: 0 <= j < result.Length ==>
      result[j] == Add(old(result[j]), Product(gen[j + 1], factor))
  {
    hide Product, Add, GfMul, IsExpTable, IsLogTable;
    for i := 0 to result.Length
      invariant forall j :: 0 <= j < i ==> result[j] == Add(old(result[j]), Product(gen[j + 1], factor))
      invariant forall j :: i <= j < result.Length ==> result[j] == old(result[j])
    {
      GfMulIsProduct(exp, log, gen[i + 1], factor);
      result[i] := Add(result[i], GfMul(exp, log, gen[i + 1], factor));
    }
  }

  method RsEncode(exp: seq<Byte>, log: seq<nat>, data: seq<Byte>, eccLength: nat)
    returns (result: array<Byte>)
    requires IsExpTable(exp) && IsLogTable(log)
    requires 0 < eccLength <= 512
    ensures result[..] == Parity(data, eccLength)
  {
    hide Turn;
    var gen := RsGenerator(exp, log, eccLength);
    result := new Byte[eccLength](_ => 0);
    for k := 0 to |data|
      invariant gen[..] == Generator(eccLength)
      invariant result[..] == Register(gen[..], data[..k])
    {
      assert data[..k + 1][..k] == data[..k];
      TurnInPlace(exp, log, gen, result, data[k]);
    }
    assert data[..|data|] == data;
  }

  // ---------------------------------------------------------------- the remainder law

  /** The bytes fed back into the register, in order. */
  function Quotient(gen: Polynomial, data: Polynomial): (q: Polynomial)
    requires |gen| > 1
    ensures |q| == |data|
  {
    if data == [] then []
    else
      var k := |data| - 1;
      Quotient(gen, data[..k]) + [Add(data[k], Register(gen, data[..k])[0])]
  }

  /** The polynomial the register divides by: it takes the leading coefficient to be 1. */
  function Divisor(gen: Polynomial): Polynomial
    requires |gen| > 1
  {
    [1] + gen[1..]
  }

  /** data * x^n is q * d + r. */
  ghost predicate Divides(data: Polynomial, d: Polynomial, q: Polynomial, r: Polynomial)
    requires |d| > 1
  {
    && |q| == |data|
    && |r| == |d| - 1
    && data + Zeros(|r|) == Sum(Times(q, d), Zeros(|q|) + r)
  }

  /** The register holds the remainder of data * x^n by the divisor it reads. */
  lemma {:induction false} RemainderLaw(gen: Polynomial, data: Polynomial)
    requires |gen| > 1
    ensures Divides(data, Divisor(gen), Quotient(gen, data), Register(gen, data))
  {
    var d, n := Divisor(gen), |gen| - 1;
    if data == [] {
      AddZero(0);
      assert data + Zeros(n) == Sum(Times([], d), Zeros(0) + Zeros(n));
    } else {
      var head, byte := data[..|data| - 1], data[|data| - 1];
      assert data == head + [byte];
      RemainderLaw(gen, head);
      var q, r := Quotient(gen, head), Register(gen, head);
      TimesAppend(q, Add(byte, r[0]), d);
      RemainderStep(gen, head, byte, Times(q, d), r);
      RegisterAppend(gen, head, byte);
      hide Sum, Times, Quotient, Register, Turn, Add, Scale, Zeros;
    }
  }

  lemma TimesAppend(q: Polynomial, f: Byte, d: Polynomial)
    requires |d| > 0
    ensures Times(q + [f], d) == Sum(Times(q, d) + [0], Zeros(|q|) + Scale(d, f))
  {
    assert (q + [f])[..|q|] == q;
  }

  lemma RegisterAppend(gen: Polynomial, head: Polynomial, byte: Byte)
    requires |gen| > 1
    ensures Register(gen, head + [byte]) == Turn(gen, Register(gen, head), byte)
    ensures Quotient(gen, head + [byte]) == Quotient(gen, head) + [Add(byte, Register(gen, head)[0])]
  {
    assert (head + [byte])[..|head|] == head;
  }

  /** RemainderLaw one byte later. */
  lemma RemainderStep(gen: Polynomial, head: Polynomial, byte: Byte, t: Polynomial, r: Polynomial)
    requires |gen| == |r| + 1 && |r| > 0 && |t| == |head| + |r|
    requires head + Zeros(|r|) == Sum(t, Zeros(|head|) + r)
    ensures var k, f := |head|, Add(byte, r[0]);
            head + [byte] + Zeros(|r|)
            == Sum(Sum(t + [0], Zeros(k) + Scale(Divisor(gen), f)), Zeros(k + 1) + Turn(gen, r, byte))
  {
    var k, n, f := |head|, |r|, Add(byte, r[0]);
    hide Product, Add;
    var lhs := head + [byte] + Zeros(n);
    var u, v, w := t + [0], Zeros(k) + Scale(Divisor(gen), f), Zeros(k + 1) + Turn(gen, r, byte);
    forall j | 0 <= j < k + 1 + n
      ensures lhs[j] == Add(Add(u[j], v[j]), w[j])
    {
      if j < k + n {
        assert (head + Zeros(n))[j] == Add(t[j], (Zeros(k) + r)[j]);
      }
      if j < k {
        AddZero(t[j]);
        AddZero(head[j]);
      } else if j == k {
        AddCancels(t[k], r[0]);
        OneTimes(f);
        AddCancels(byte, r[0]);
        AddZero(byte);
      } else {
        if j < k + n { AddCancels(t[j], r[j - k]); }
        TurnDigit(gen, r, byte, j - k - 1);
        AddZero(w[j]);
      }
    }
  }

  lemma TurnDigit(gen: Polynomial, r: Polynomial, byte: Byte, i: nat)
    requires |gen| == |r| + 1 && i < |r|
    ensures Turn(gen, r, byte)[i]
         == Add(if i + 1 < |r| then r[i + 1] else 0, Product(Divisor(gen)[i + 1], Add(byte, r[0])))
  {
  }
}
