// Format information: fifteen bits that carry the mask index twice over.
module QrFormat {
  import opened Bitwise
  import opened QrTables
  import opened QrWalk
  import opened QrMatrix
  import opened QrPlacement

  // ---------------------------------------------------------------- the bits

  const GENERATOR := 0x537
  const SCRAMBLE := 0x5412

  /** The remainder register after n of its ten steps. */
  function Remainder(data: nat, n: nat): nat {
    if n == 0 then data
    else
      var rem := Remainder(data, n - 1);
      Xor(2 * rem, ShiftRight(rem, 9) * GENERATOR)
  }

  /** Level M puts zeros in front of the mask index. */
  function FormatBits(k: MaskIndex): nat {
    Xor(1024 * k + Remainder(k, 10), SCRAMBLE)
  }

  /** formatBits. */
  method ComputeFormatBits(k: MaskIndex) returns (bits: nat)
    ensures bits == FormatBits(k)
  {
    var data := k;
    var rem: nat := data;
    for i := 0 to 10
      invariant rem == Remainder(k, i)
    {
      rem := Xor(2 * rem, ShiftRight(rem, 9) * GENERATOR);
    }
    // the remainder has ten bits, so combining it with data << 10 is adding it
    RemainderBelow(k, 10);
    bits := Xor(1024 * data + rem, SCRAMBLE);
  }

  lemma {:induction false} RemainderBelow(k: MaskIndex, n: nat)
    ensures Remainder(k, n) < 1024
  {
    if n > 0 {
      RemainderBelow(k, n - 1);
      RemainderStep(Remainder(k, n - 1));
    }
  }

  lemma RemainderStep(rem: nat)
    requires rem < 1024
    ensures Xor(2 * rem, ShiftRight(rem, 9) * GENERATOR) < 1024
  {
    PowersOfTwo();
    if rem < 512 {
      ShiftRightBelow(rem, 9);
      XorZero(2 * rem);
    } else {
      ShiftRightBelow(rem - 512, 9);
      ShiftRightTop(rem - 512, 9);
      XorTop(2 * rem - 1024, GENERATOR - 1024, 10);
      XorBelow(2 * rem - 1024, GENERATOR - 1024, 10);
    }
  }

  lemma PowersOfTwo()
    ensures Pow2(9) == 512 && Pow2(10) == 1024 && Pow2(13) == 8192 && Pow2(15) == 32768
  {
    assert Pow2(12) == 4096;
  }

  lemma {:induction false} ShiftRightBelow(x: nat, n: nat)
    requires x < Pow2(n)
    ensures ShiftRight(x, n) == 0
  {
    ShiftRightRest(x, n, 0);
  }

  lemma {:induction false} ShiftRightTop(x: nat, n: nat)
    requires x < Pow2(n)
    ensures ShiftRight(x + Pow2(n), n) == 1
  {
    ShiftRightRest(x, n, 1);
  }

  lemma NothingShifted(high: nat)
    ensures ShiftRight(high * Pow2(0) + 0, 0) == high && Pow2(0) == 1
  {
  }

  lemma PowerDoubles(n: nat)
    requires n > 0
    ensures Pow2(n) == 2 * Pow2(n - 1)
  {
  }

  lemma ShiftOne(x: nat, n: nat)
    requires n > 0
    ensures ShiftRight(x, n) == ShiftRight(x, n - 1) / 2
  {
  }

  lemma HighAndLow(high: nat, p: nat, x: nat)
    ensures high * (2 * p) + x == (2 * high) * p + x
    ensures high * (2 * p) + x == (2 * high + 1) * p + (x - p)
  {
  }

  /** Shifting out the low n digits. */
  lemma {:induction false} ShiftRightRest(x: nat, n: nat, high: nat)
    requires x < Pow2(n)
    ensures ShiftRight(high * Pow2(n) + x, n) == high
  {
    hide ShiftRight, Pow2;
    if n == 0 {
      NothingShifted(high);
    } else {
      var p := Pow2(n - 1);
      var y := if x < p then x else x - p;
      var h := if x < p then 2 * high else 2 * high + 1;
      PowerDoubles(n);
      HighAndLow(high, p, x);
      ShiftRightRest(y, n - 1, h);
      ShiftOne(high * Pow2(n) + x, n);
    }
  }

  lemma FormatBitsBelow(k: MaskIndex)
    ensures FormatBits(k) < 32768
  {
    RemainderBelow(k, 10);
    PowersOfTwo();
    XorBelow(1024 * k + Remainder(k, 10), SCRAMBLE, 15);
  }

  // ---------------------------------------------------------------- where they go

  /** The copy beside the first finder pattern, split around the timing row and column. */
  function NearCell(i: nat): Cell
    requires i < 15
  {
    if i < 6 then Cell(8, i)
    else if i == 6 then Cell(8, 7)
    else if i == 7 then Cell(8, 8)
    else if i == 8 then Cell(7, 8)
    else Cell(14 - i, 8)
  }

  /** The copy along the ends of row 8 and column 8. */
  function FarCell(size: nat, i: nat): Cell
    requires i < 15 && size >= 21
  {
    if i < 8 then Cell(8, size - 1 - i) else Cell(size - 15 + i, 8)
  }

  function FormatBit(bits: nat, i: nat): Module {
    Shade(ShiftRight(bits, i) % 2 == 1)
  }

  /** The writes of the first n steps. */
  function FormatSteps(size: nat, bits: nat, n: nat): (writes: seq<Write>)
    requires size >= 21 && n <= 15
    ensures |writes| == 2 * n && AllInside(writes, size)
    ensures forall i :: 0 <= i < n ==> writes[2 * i] == Write(NearCell(i), FormatBit(bits, i))
    ensures forall i :: 0 <= i < n ==> writes[2 * i + 1] == Write(FarCell(size, i), FormatBit(bits, i))
  {
    if n == 0 then []
    else
      FormatSteps(size, bits, n - 1)
      + [Write(NearCell(n - 1), FormatBit(bits, n - 1)), Write(FarCell(size, n - 1), FormatBit(bits, n - 1))]
  }

  /** Everything placeFormat writes; the always-dark module comes last. */
  function FormatWrites(size: nat, k: MaskIndex): (writes: seq<Write>)
    requires size >= 21
    ensures AllInside(writes, size)
  {
    FormatSteps(size, FormatBits(k), 15) + [Write(Cell(size - 8, 8), Dark)]
  }

  method SetNear(m: Matrix, ghost was: Grid, ghost steps: seq<Write>, i: nat, bit: Module)
    requires m.Valid() && m.size >= 21 && i < 15
    requires Square(was, m.size) && AllInside(steps, m.size) && m.modules == PutAll(was, steps)
    modifies m
    ensures m.Valid() && AllInside(steps + [Write(NearCell(i), bit)], m.size)
    ensures m.modules == PutAll(was, steps + [Write(NearCell(i), bit)])
  {
    hide PutAll, Put, AllInside, Square;
    if i < 6 { m.Append(was, steps, 8, i, bit); }
    else if i == 6 { m.Append(was, steps, 8, 7, bit); }
    else if i == 7 { m.Append(was, steps, 8, 8, bit); }
    else if i == 8 { m.Append(was, steps, 7, 8, bit); }
    else { m.Append(was, steps, 14 - i, 8, bit); }
  }

  method SetFar(m: Matrix, ghost was: Grid, ghost steps: seq<Write>, i: nat, bit: Module)
    requires m.Valid() && m.size >= 21 && i < 15
    requires Square(was, m.size) && AllInside(steps, m.size) && m.modules == PutAll(was, steps)
    modifies m
    ensures m.Valid() && AllInside(steps + [Write(FarCell(m.size, i), bit)], m.size)
    ensures m.modules == PutAll(was, steps + [Write(FarCell(m.size, i), bit)])
  {
    hide PutAll, Put, AllInside, Square;
    if i < 8 { m.Append(was, steps, 8, m.size - 1 - i, bit); }
    else { m.Append(was, steps, m.size - 15 + i, 8, bit); }
  }

  /** placeFormat. */
  method PlaceFormat(m: Matrix, k: MaskIndex)
    requires m.Valid() && m.size >= 21
    modifies m
    ensures m.Valid() && m.modules == PutAll(old(m.modules), FormatWrites(m.size, k))
  {
    hide PutAll, Put, FormatBits, NearCell, FarCell;
    ghost var was := m.modules;
    PutNothing(was);
    var bits := ComputeFormatBits(k);
    for i := 0 to 15
      invariant m.Valid() && m.modules == PutAll(was, FormatSteps(m.size, bits, i))
    {
      ghost var steps := FormatSteps(m.size, bits, i);
      var bit := Shade(ShiftRight(bits, i) % 2 == 1);
      SetNear(m, was, steps, i, bit);
      ghost var near := steps + [Write(NearCell(i), bit)];
      SetFar(m, was, near, i, bit);
      assert near + [Write(FarCell(m.size, i), bit)] == FormatSteps(m.size, bits, i + 1);
    }
    m.Append(was, FormatSteps(m.size, bits, 15), m.size - 8, 8, Dark);
  }

  /** The cell of write number j. */
  function FormatCell(size: nat, j: nat): Cell
    requires size >= 21 && j <= 30
  {
    if j == 30 then Cell(size - 8, 8)
    else if j % 2 == 0 then NearCell(j / 2) else FarCell(size, j / 2)
  }

  lemma FormatWriteCells(size: nat, k: MaskIndex)
    requires size >= 21
    ensures |FormatWrites(size, k)| == 31
    ensures forall j :: 0 <= j < 31 ==> FormatWrites(size, k)[j].cell == FormatCell(size, j)
  {
    hide FormatBits, NearCell, FarCell, FormatBit;
    forall j | 0 <= j < 31 ensures FormatWrites(size, k)[j].cell == FormatCell(size, j) {
      if j < 30 { assert j == 2 * (j / 2) || j == 2 * (j / 2) + 1; }
    }
  }

  /** Format information never lands on a data cell. */
  lemma FormatWritesStay(v: Version, k: MaskIndex)
    ensures OnFunctionCells(FormatWrites(SizeFor(v), k), v)
  {
    FormatWriteCells(SizeFor(v), k);
    hide FormatWrites, IsFunction, FormatCell;
    forall j | 0 <= j < 31 ensures IsFunction(v, SizeFor(v), FormatWrites(SizeFor(v), k)[j].cell) {
      FormatCellIsFunction(v, j);
    }
  }

  lemma FormatCellIsFunction(v: Version, j: nat)
    requires j <= 30
    ensures IsFunction(v, SizeFor(v), FormatCell(SizeFor(v), j))
  {
    hide InAlignment, Alignment;
  }

  lemma NearCellOnce(size: nat, i: nat, j: nat)
    requires size >= 21 && i < 15 && 2 * i < j <= 30
    ensures FormatCell(size, j) != NearCell(i)
  {
  }

  // ---------------------------------------------------------------- reading back

  /** The number spelt by the first n bits of the near copy. */
  function NearBits(g: Grid, n: nat): nat
    requires Square(g, |g|) && |g| >= 21 && n <= 15
  {
    if n == 0 then 0
    else NearBits(g, n - 1) + (if Get(g, NearCell(n - 1)) == Dark then Pow2(n - 1) else 0)
  }

  datatype Format = Format(ec: nat, mask: MaskIndex)

  function FormatOf(bits: nat): Format {
    var data := ShiftRight(Xor(bits, SCRAMBLE), 10);
    Format(data / 8 % 4, data % 8)
  }

  /** readFormat. */
  method ReadFormat(modules: Grid) returns (f: Format)
    requires Square(modules, |modules|) && |modules| >= 21
    ensures f == FormatOf(NearBits(modules, 15))
  {
    var bits: nat := 0;
    for i := 0 to 15
      invariant bits == NearBits(modules, i)
    {
      var bit;
      if i < 6 { bit := modules[8][i]; }
      else if i == 6 { bit := modules[8][7]; }
      else if i == 7 { bit := modules[8][8]; }
      else if i == 8 { bit := modules[7][8]; }
      else { bit := modules[14 - i][8]; }
      assert bit == Get(modules, NearCell(i));
      if bit == Dark { bits := bits + Pow2(i); }
    }
    f := FormatOf(bits);
  }

  /** No later write of placeFormat covers a bit of the near copy. */
  lemma NearBitSurvives(g: Grid, k: MaskIndex, i: nat)
    requires Square(g, |g|) && |g| >= 21 && i < 15
    ensures Get(PutAll(g, FormatWrites(|g|, k)), NearCell(i)) == FormatBit(FormatBits(k), i)
  {
    var writes := FormatWrites(|g|, k);
    assert writes[2 * i] == Write(NearCell(i), FormatBit(FormatBits(k), i));
    FormatWriteCells(|g|, k);
    hide PutAll, FormatBits, FormatBit, FormatWrites, FormatCell, NearCell;
    forall j | 2 * i < j < |writes| ensures writes[j].cell != NearCell(i) {
      NearCellOnce(|g|, i, j);
    }
    PutAllLast(g, writes, 2 * i);
  }

  /** Adding up the digits of a number gives the number back. */
  lemma {:induction false} DigitsAddUp(g: Grid, bits: nat, n: nat)
    requires Square(g, |g|) && |g| >= 21 && n <= 15
    requires forall i :: 0 <= i < n ==> Get(g, NearCell(i)) == FormatBit(bits, i)
    ensures NearBits(g, n) + ShiftRight(bits, n) * Pow2(n) == bits
  {
    if n > 0 {
      DigitsAddUp(g, bits, n - 1);
      var high, p := ShiftRight(bits, n - 1), Pow2(n - 1);
      assert Get(g, NearCell(n - 1)) == FormatBit(bits, n - 1);
      Halving(high, p);
    }
  }

  lemma Halving(high: nat, p: nat)
    ensures high * p == high / 2 * (2 * p) + (if high % 2 == 1 then p else 0)
  {
    assert high == 2 * (high / 2) + high % 2;
  }

  /** What placeFormat wrote, readFormat reads: level M and the mask index. */
  lemma FormatRoundTrip(g: Grid, k: MaskIndex)
    requires Square(g, |g|) && |g| >= 21
    ensures FormatOf(NearBits(PutAll(g, FormatWrites(|g|, k)), 15)) == Format(0, k)
  {
    var bits, h := FormatBits(k), PutAll(g, FormatWrites(|g|, k));
    forall i | 0 <= i < 15 ensures Get(h, NearCell(i)) == FormatBit(bits, i) {
      NearBitSurvives(g, k, i);
    }
    FormatBitsBelow(k);
    PowersOfTwo();
    ShiftRightBelow(bits, 15);
    hide PutAll, FormatBit, Get;
    DigitsAddUp(h, bits, 15);
    Unscramble(k);
  }

  lemma Unscramble(k: MaskIndex)
    ensures FormatOf(FormatBits(k)) == Format(0, k)
  {
    hide Xor, Remainder, ShiftRight;
    RemainderBelow(k, 10);
    TenDigitsGone(k, Remainder(k, 10));
    XorCancels(1024 * k + Remainder(k, 10), SCRAMBLE);
  }

  /** Whatever the level, the mask and the ten check bits are, the level and the mask are read. */
  lemma FormatReads(ec: nat, mask: nat, check: nat)
    requires ec < 4 && mask < 8 && check < 1024
    ensures FormatOf(Xor(1024 * (8 * ec + mask) + check, 0x5412)) == Format(ec, mask)
  {
    hide Xor, ShiftRight;
    TenDigitsGone(8 * ec + mask, check);
    XorCancels(1024 * (8 * ec + mask) + check, SCRAMBLE);
  }

  lemma TenDigitsGone(high: nat, low: nat)
    requires low < 1024
    ensures ShiftRight(1024 * high + low, 10) == high
  {
    hide ShiftRight;
    PowersOfTwo();
    ShiftRightRest(low, 10, high);
  }

  // ---------------------------------------------------------------- the BCH code

  /** The carry-less product: polynomials over GF(2), one bit a coefficient. */
  function PolyTimes(a: nat, b: nat): nat {
    if a == 0 then 0 else Xor(2 * PolyTimes(a / 2, b), if a % 2 == 1 then b else 0)
  }

  /** The bits shifted out of the register in its first n steps. */
  function Carried(k: MaskIndex, n: nat): nat {
    if n == 0 then 0 else 2 * Carried(k, n - 1) + ShiftRight(Remainder(k, n - 1), 9)
  }

  lemma XorDoubles(a: nat, b: nat)
    ensures Xor(2 * a, 2 * b) == 2 * Xor(a, b)
  {
    assert 2 * a / 2 == a && 2 * b / 2 == b;
    if a == 0 && b == 0 { XorZero(0); }
  }

  lemma PolyTimesNext(q: nat, bit: nat, b: nat)
    requires bit < 2
    ensures PolyTimes(2 * q + bit, b) == Xor(2 * PolyTimes(q, b), bit * b)
  {
    hide Xor;
    assert (2 * q + bit) / 2 == q && (2 * q + bit) % 2 == bit;
    if 2 * q + bit == 0 { XorZero(0); }
  }

  /** What comes in equals what was carried out, times the generator, and the register. */
  lemma {:induction false} CarriedAndLeft(k: MaskIndex, n: nat)
    ensures Xor(PolyTimes(Carried(k, n), GENERATOR), Remainder(k, n)) == k * Pow2(n)
  {
    hide Xor, PolyTimes, ShiftRight;
    if n == 0 {
      NoProduct(GENERATOR);
      XorZero(k);
    } else {
      var rem, q := Remainder(k, n - 1), Carried(k, n - 1);
      var bit := ShiftRight(rem, 9);
      RemainderBelow(k, n - 1);
      TopBit(rem);
      CarriedAndLeft(k, n - 1);
      PolyTimesNext(q, bit, GENERATOR);
      SameCancels(2 * PolyTimes(q, GENERATOR), bit * GENERATOR, 2 * rem);
      XorDoubles(PolyTimes(q, GENERATOR), rem);
    }
  }

  lemma NoProduct(b: nat)
    ensures PolyTimes(0, b) == 0
  {
  }

  lemma TopBit(rem: nat)
    requires rem < 1024
    ensures ShiftRight(rem, 9) < 2
  {
    PowersOfTwo();
    ShiftRightRest(rem % 512, 9, rem / 512);
    hide ShiftRight, Pow2;
  }

  lemma SameCancels(a: nat, b: nat, c: nat)
    ensures Xor(Xor(a, b), Xor(c, b)) == Xor(a, c)
  {
    hide Xor;
    XorCommutes(c, b);
    XorAssociates(a, b, Xor(b, c));
    XorAssociates(b, b, c);
    XorSelf(b);
    XorZero(c);
  }

  lemma {:induction false} XorOfParts(high: nat, low: nat, n: nat)
    requires low < Pow2(n)
    ensures Xor(high * Pow2(n), low) == high * Pow2(n) + low
  {
    if n == 0 {
      XorZero(high);
    } else {
      hide Xor;
      var p := Pow2(n - 1);
      var half, last := Halves(low);
      XorOfParts(high, half, n - 1);
      XorDigit(high * p, 0, half, last);
      DoubledProduct(high, p);
      hide Pow2;
    }
  }

  lemma DoubledProduct(high: nat, p: nat)
    ensures high * (2 * p) == 2 * (high * p)
  {
  }

  /**
   * Unscrambled, the format information is a codeword of the BCH code: five bits of
   * data, ten below them, and the whole a multiple of the generator polynomial
   * (ISO/IEC 18004:2015, section 7.9).
   */
  lemma FormatIsCodeword(k: MaskIndex)
    ensures var word := Xor(FormatBits(k), 0x5412);
            word / 1024 == k && word == PolyTimes(Carried(k, 10), 0x537)
  {
    hide Xor, PolyTimes, Remainder, Carried, Pow2;
    PowersOfTwo();
    var rem := Remainder(k, 10);
    RemainderBelow(k, 10);
    XorCancels(1024 * k + rem, SCRAMBLE);
    CarriedAndLeft(k, 10);
    XorOfParts(k, rem, 10);
    XorCancels(PolyTimes(Carried(k, 10), GENERATOR), rem);
  }
}
