// What the eight masks do to a symbol, in the terms of ISO/IEC 18004:2015, section 7.8.2.
module QrMasks {
  import opened Bitwise
  import opened QrTables
  import opened QrFraming
  import opened QrWalk
  import opened QrMatrix
  import opened QrPlacement
  import opened QrFormat
  import opened QrCode
  import opened QrRoundTrip

  predicate DataCell(v: Version, p: Cell) {
    Inside(p, SizeFor(v)) && !IsFunction(v, SizeFor(v), p)
  }

  /** Masking a grid turns the module over: dark to light, anything else to dark. */
  predicate Turned(g: Grid, v: Version, k: MaskIndex, p: Cell)
    requires Square(g, |g|) && Inside(p, |g|)
  {
    Get(Masked(g, v, k), p) == if Get(g, p) == Dark then Light else Dark
  }

  /** Or it leaves the module alone. */
  predicate Left(g: Grid, v: Version, k: MaskIndex, p: Cell)
    requires Square(g, |g|) && Inside(p, |g|)
  {
    Get(Masked(g, v, k), p) == Get(g, p)
  }

  lemma TurnedOrLeft(g: Grid, v: Version, k: MaskIndex, p: Cell)
    requires Square(g, |g|) && |g| == SizeFor(v) && DataCell(v, p)
    ensures Left(g, v, k, p) <==> !Turned(g, v, k, p)
    ensures Turned(g, v, k, p) <==> MaskAt(k, p.row, p.col)
  {
    hide IsFunction, MaskAt;
  }

  // ---------------------------------------------------------------- arithmetic of the conditions

  lemma Parities(a: nat, b: nat)
    ensures (a + b) % 2 == 0 <==> a % 2 == b % 2
  {
  }

  /** A product against 2 and 3 is the product against 6. */
  lemma Sixths(x: nat)
    ensures x % 2 + x % 3 == 0 <==> x % 6 == 0
    ensures (x % 2 + x % 3) % 2 == 0 <==> x % 6 < 3
  {
    var q, r := x / 6, x % 6;
    SixthsOf(q, r);
    assert x == 6 * q + r;
  }

  lemma SixthsOf(q: nat, r: nat)
    requires r < 6
    ensures (6 * q + r) % 2 == r % 2 && (6 * q + r) % 3 == r % 3
  {
    OverTwo(3 * q, r);
    OverThree(2 * q, r);
    assert 6 * q == 2 * (3 * q) && 6 * q == 3 * (2 * q);
  }

  lemma OverTwo(q: nat, r: nat)
    ensures (2 * q + r) % 2 == r % 2
  {
  }

  lemma OverThree(q: nat, r: nat)
    ensures (3 * q + r) % 3 == r % 3
  {
  }

  lemma Halves(n: nat)
    ensures n % 2 == 0 <==> exists q :: n == 2 * q
  {
    if n % 2 == 0 { assert n == 2 * (n / 2); }
  }

  lemma Thirds(n: nat)
    ensures n % 3 == 0 <==> exists q :: n == 3 * q
  {
    if n % 3 == 0 { assert n == 3 * (n / 3); }
  }

  lemma NextParity(n: nat)
    ensures (n + 1) % 2 != n % 2
  {
  }

  lemma InBlock(i: nat, a: nat, j: nat, b: nat)
    requires a < 2 && b < 3
    ensures (2 * i + a) / 2 == i && (3 * j + b) / 3 == j
  {
  }

  // ---------------------------------------------------------------- the eight masks

  /** Which data cells each mask turns over; the others it leaves. */
  lemma MasksTurn(g: Grid, v: Version, p: Cell)
    requires Square(g, |g|) && |g| == SizeFor(v) && DataCell(v, p)
    ensures Turned(g, v, 0, p) <==> p.row % 2 == p.col % 2
    ensures Turned(g, v, 1, p) <==> exists i :: p.row == 2 * i
    ensures Turned(g, v, 2, p) <==> exists j :: p.col == 3 * j
    ensures Turned(g, v, 3, p) <==> exists d :: p.row + p.col == 3 * d
    ensures Turned(g, v, 5, p) <==> p.row * p.col % 6 == 0
    ensures Turned(g, v, 6, p) <==> p.row * p.col % 6 < 3
    ensures Turned(g, v, 7, p) <==> (p.row % 2 == p.col % 2 <==> p.row * p.col % 3 != 1)
  {
    forall k: MaskIndex ensures Turned(g, v, k, p) <==> MaskAt(k, p.row, p.col) {
      TurnedOrLeft(g, v, k, p);
    }
    hide Turned, DataCell;
    ConditionsAre(p.row, p.col, p.row * p.col);
  }

  lemma ConditionsAre(r: nat, c: nat, x: nat)
    requires x == r * c
    ensures MaskAt(0, r, c) <==> r % 2 == c % 2
    ensures MaskAt(1, r, c) <==> exists i :: r == 2 * i
    ensures MaskAt(2, r, c) <==> exists j :: c == 3 * j
    ensures MaskAt(3, r, c) <==> exists d :: r + c == 3 * d
    ensures MaskAt(5, r, c) <==> x % 6 == 0
    ensures MaskAt(6, r, c) <==> x % 6 < 3
    ensures MaskAt(7, r, c) <==> (r % 2 == c % 2 <==> x % 3 != 1)
  {
    ConditionIs(r, c, x);
    hide MaskAt;
    Parities(r, c);
    Halves(r);
    Thirds(c);
    Thirds(r + c);
    ProductConditions(r + c, x);
  }

  lemma ProductConditions(s: nat, x: nat)
    ensures x % 2 + x % 3 == 0 <==> x % 6 == 0
    ensures (x % 2 + x % 3) % 2 == 0 <==> x % 6 < 3
    ensures (s % 2 + x % 3) % 2 == 0 <==> (s % 2 == 0 <==> x % 3 != 1)
  {
    Sixths(x);
    SeventhIs(s % 2, x % 3);
  }

  lemma ConditionIs(r: nat, c: nat, x: nat)
    requires x == r * c
    ensures MaskAt(0, r, c) == ((r + c) % 2 == 0) && MaskAt(1, r, c) == (r % 2 == 0) && MaskAt(2, r, c) == (c % 3 == 0)
    ensures MaskAt(3, r, c) == ((r + c) % 3 == 0) && MaskAt(5, r, c) == (x % 2 + x % 3 == 0)
    ensures MaskAt(6, r, c) == ((x % 2 + x % 3) % 2 == 0) && MaskAt(7, r, c) == (((r + c) % 2 + x % 3) % 2 == 0)
  {
  }

  lemma SeventhIs(a: nat, b: nat)
    requires a < 2 && b < 3
    ensures (a + b) % 2 == 0 <==> (a == 0 <==> b != 1)
  {
  }

  /** Mask 4 turns over blocks two rows high and three columns wide, like the fields of a chessboard. */
  lemma MaskFourTurns(g: Grid, v: Version, p: Cell, i: nat, a: nat, j: nat, b: nat)
    requires Square(g, |g|) && |g| == SizeFor(v) && DataCell(v, p)
    requires p == Cell(2 * i + a, 3 * j + b) && a < 2 && b < 3
    ensures Turned(g, v, 4, p) <==> i % 2 == j % 2
  {
    TurnedOrLeft(g, v, 4, p);
    InBlock(i, a, j, b);
    Parities(i, j);
  }

  /** Of two neighbours in a row or a column, mask 0 turns over exactly one. */
  lemma MaskZeroAlternates(g: Grid, v: Version, p: Cell, q: Cell)
    requires Square(g, |g|) && |g| == SizeFor(v) && DataCell(v, p) && DataCell(v, q)
    requires (q.row == p.row && q.col == p.col + 1) || (q.col == p.col && q.row == p.row + 1)
    ensures Turned(g, v, 0, p) <==> Left(g, v, 0, q)
  {
    MaskZeroTurns(g, v, p);
    MaskZeroTurns(g, v, q);
    TurnedOrLeft(g, v, 0, q);
    hide Turned, Left, DataCell, Masked;
    Neighbours(p.row, p.col);
  }

  lemma MaskZeroTurns(g: Grid, v: Version, p: Cell)
    requires Square(g, |g|) && |g| == SizeFor(v) && DataCell(v, p)
    ensures Turned(g, v, 0, p) <==> p.row % 2 == p.col % 2
  {
    MasksTurn(g, v, p);
    hide Turned, DataCell;
  }

  lemma Neighbours(r: nat, c: nat)
    ensures r % 2 == (c + 1) % 2 <==> r % 2 != c % 2
    ensures (r + 1) % 2 == c % 2 <==> r % 2 != c % 2
  {
    NextParity(r);
    NextParity(c);
  }

  // ---------------------------------------------------------------- in a symbol

  /**
   * The i-th data cell of a finished symbol is dark if and only if bit i of the
   * codewords is set and the mask that the format information names leaves the
   * cell, or the bit is clear and the mask turns the cell over.
   */
  lemma SymbolMasked(bytes: seq<Byte>, v: Version, k: MaskIndex, i: nat)
    requires QrTables.Fits(|bytes|, v) && i < |DataCells(v)|
    ensures Inside(DataCells(v)[i], SizeFor(v)) && DataCell(v, DataCells(v)[i])
    ensures Get(Symbol(bytes, v, k), DataCells(v)[i]) == Dark <==>
            (DataBit(Codewords(bytes, v), i) == 1 <==> Left(Base(bytes, v), v, k, DataCells(v)[i]))
  {
    var p, base := DataCells(v)[i], Base(bytes, v);
    DataCellsAre(v);
    assert p in DataCells(v);
    BaseReads(bytes, v, i);
    hide DataCells, IsFunction, Base, PutAll, Codewords, FormatWrites, MaskAt, DataBit, Distinct, CellsInside;
    FormatMisses(Masked(base, v, k), v, k, p);
    TurnedOrLeft(base, v, k, p);
    hide Masked;
  }
}
