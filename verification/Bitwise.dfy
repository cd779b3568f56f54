// Bitwise operations on natural numbers, defined digit by digit.
//
// Every bitwise operation modelled with these acts on non-negative values small
// enough that JavaScript's 32-bit operators never wrap. (The Base32 accumulator
// does wrap; its module says how.)
module Bitwise {

  type Byte = x: int | 0 <= x < 256

  function Pow2(k: nat): nat
    ensures Pow2(k) > 0
  {
    if k == 0 then 1 else 2 * Pow2(k - 1)
  }

  /** Unsigned right shift. */
  function ShiftRight(value: nat, k: nat): nat {
    if k == 0 then value else ShiftRight(value, k - 1) / 2
  }

  /** Exclusive-or. */
  function Xor(a: nat, b: nat): nat
    decreases a + b
  {
    if a == 0 && b == 0 then 0
    else 2 * Xor(a / 2, b / 2) + (if a % 2 == b % 2 then 0 else 1)
  }

  lemma {:induction false} XorZero(a: nat)
    ensures Xor(a, 0) == a && Xor(0, a) == a
  {
    if a > 0 { XorZero(a / 2); }
  }

  lemma {:induction false} XorSelf(a: nat)
    ensures Xor(a, a) == 0
  {
    if a > 0 { XorSelf(a / 2); }
  }

  lemma {:induction false} XorCommutes(a: nat, b: nat)
    ensures Xor(a, b) == Xor(b, a)
    decreases a + b
  {
    if a + b > 0 { XorCommutes(a / 2, b / 2); }
  }

  lemma {:induction false} XorAssociates(a: nat, b: nat, c: nat)
    ensures Xor(Xor(a, b), c) == Xor(a, Xor(b, c))
    decreases a + b + c
  {
    if a + b + c > 0 {
      XorAssociates(a / 2, b / 2, c / 2);
      XorDigits(a, b);
      XorDigits(b, c);
      XorDigits(Xor(a, b), c);
      XorDigits(a, Xor(b, c));
    }
  }

  lemma XorDigits(a: nat, b: nat)
    ensures Xor(a, b) / 2 == Xor(a / 2, b / 2)
    ensures Xor(a, b) % 2 == if a % 2 == b % 2 then 0 else 1
  {
  }

  lemma XorInterchange(w: nat, x: nat, y: nat, z: nat)
    ensures Xor(Xor(w, x), Xor(y, z)) == Xor(Xor(w, y), Xor(x, z))
  {
    XorAssociates(w, x, Xor(y, z));
    XorAssociates(x, y, z);
    XorCommutes(x, y);
    XorAssociates(y, x, z);
    XorAssociates(w, y, Xor(x, z));
  }

  /** Adding the same thing twice cancels. */
  lemma XorCancels(a: nat, b: nat)
    ensures Xor(Xor(a, b), b) == a
  {
    XorAssociates(a, b, b);
    XorSelf(b);
    XorZero(a);
  }

  lemma {:induction false} XorBelow(a: nat, b: nat, k: nat)
    requires a < Pow2(k) && b < Pow2(k)
    ensures Xor(a, b) < Pow2(k)
  {
    if k > 0 { XorBelow(a / 2, b / 2, k - 1); }
  }

  lemma XorDigit(h: nat, b: nat, g: nat, c: nat)
    requires b < 2 && c < 2
    ensures Xor(2 * h + b, 2 * g + c) == 2 * Xor(h, g) + (if b == c then 0 else 1)
  {
  }

  lemma Halves(a: nat) returns (h: nat, l: nat)
    ensures a == 2 * h + l && l < 2
  {
    h, l := a / 2, a % 2;
  }

  /** What exclusive-or does to the digit of weight 2^k. */
  lemma {:induction false} XorTop(a: nat, b: nat, k: nat)
    requires a < Pow2(k) && b < Pow2(k)
    ensures Xor(a + Pow2(k), b) == Xor(a, b) + Pow2(k)
    ensures Xor(a, b + Pow2(k)) == Xor(a, b) + Pow2(k)
    ensures Xor(a + Pow2(k), b + Pow2(k)) == Xor(a, b)
  {
    hide Xor;
    if k == 0 {
      XorOne();
    } else {
      var p := Pow2(k - 1);
      var ah, al := Halves(a);
      var bh, bl := Halves(b);
      XorTop(ah, bh, k - 1);
      hide Pow2;
      XorTopStep(ah, al, bh, bl, p);
    }
  }

  lemma XorOne()
    ensures Xor(1, 0) == 1 && Xor(0, 1) == 1 && Xor(1, 1) == 0 && Xor(0, 0) == 0
  {
  }

  lemma XorTopStep(ah: nat, al: nat, bh: nat, bl: nat, p: nat)
    requires al < 2 && bl < 2
    requires Xor(ah + p, bh) == Xor(ah, bh) + p
    requires Xor(ah, bh + p) == Xor(ah, bh) + p
    requires Xor(ah + p, bh + p) == Xor(ah, bh)
    ensures Xor(2 * ah + al + 2 * p, 2 * bh + bl) == Xor(2 * ah + al, 2 * bh + bl) + 2 * p
    ensures Xor(2 * ah + al, 2 * bh + bl + 2 * p) == Xor(2 * ah + al, 2 * bh + bl) + 2 * p
    ensures Xor(2 * ah + al + 2 * p, 2 * bh + bl + 2 * p) == Xor(2 * ah + al, 2 * bh + bl)
  {
    hide Xor;
    XorDigit(ah, al, bh, bl);
    XorDigit(ah + p, al, bh, bl);
    XorDigit(ah, al, bh + p, bl);
    XorDigit(ah + p, al, bh + p, bl);
  }
}
