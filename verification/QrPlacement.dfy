// Reserving the format cells, laying the codewords along the walk, masking.
module QrPlacement {
  import opened Bitwise
  import opened QrTables
  import opened QrFraming
  import opened QrWalk
  import opened QrMatrix

  // ---------------------------------------------------------------- reserving

  /** Light, unless something is there already. */
  function PutUnset(g: Grid, p: Cell): (g': Grid)
    requires Square(g, |g|) && Inside(p, |g|)
    ensures Square(g', |g'|) && |g'| == |g|
  {
    if Get(g, p) == Unset then Put(g, p, Light) else g
  }

  /** The cells around the first finder pattern, up to index n. */
  function NearFormatCells(n: nat): seq<Cell> {
    if n == 0 then [] else NearFormatCells(n - 1) + [Cell(8, n - 1), Cell(n - 1, 8)]
  }

  /** The cells beside the other two finder patterns, the last n of row and column 8. */
  function FarFormatCells(size: nat, n: nat): seq<Cell>
    requires n <= size
  {
    if n == 0 then [] else FarFormatCells(size, n - 1) + [Cell(8, size - n), Cell(size - n, 8)]
  }

  predicate CellsInside(cells: seq<Cell>, size: nat) {
    forall i :: 0 <= i < |cells| ==> Inside(cells[i], size)
  }

  function Reserved(g: Grid, cells: seq<Cell>): (g': Grid)
    requires Square(g, |g|) && CellsInside(cells, |g|)
    ensures Square(g', |g'|) && |g'| == |g|
  {
    if cells == [] then g else PutUnset(Reserved(g, cells[..|cells| - 1]), cells[|cells| - 1])
  }

  lemma {:induction false} FormatCellsInside(size: nat, near: nat, far: nat)
    requires near <= size && far <= size && size > 8
    ensures CellsInside(NearFormatCells(near), size) && CellsInside(FarFormatCells(size, far), size)
    decreases near + far
  {
    if near > 0 { FormatCellsInside(size, near - 1, far); }
    else if far > 0 { FormatCellsInside(size, near, far - 1); }
  }

  function FormatCells(size: nat): (cells: seq<Cell>)
    requires size >= 21
    ensures CellsInside(cells, size)
  {
    FormatCellsInside(size, 9, 8);
    NearFormatCells(9) + FarFormatCells(size, 8)
  }

  lemma ReservedAppend(g: Grid, cells: seq<Cell>, p: Cell)
    requires Square(g, |g|) && CellsInside(cells, |g|) && Inside(p, |g|)
    ensures CellsInside(cells + [p], |g|)
    ensures Reserved(g, cells + [p]) == PutUnset(Reserved(g, cells), p)
  {
    assert (cells + [p])[..|cells|] == cells;
    hide Put;
  }

  method ReserveCell(m: Matrix, ghost was: Grid, ghost cells: seq<Cell>, row: nat, col: nat)
    requires m.Valid() && row < m.size && col < m.size
    requires Square(was, m.size) && CellsInside(cells, m.size) && m.modules == Reserved(was, cells)
    modifies m
    ensures m.Valid() && CellsInside(cells + [Cell(row, col)], m.size)
    ensures m.modules == Reserved(was, cells + [Cell(row, col)])
  {
    ReservedAppend(was, cells, Cell(row, col));
    hide Put, Reserved;
    if m.modules[row][col] == Unset {
      m.Set(row, col, Light);
    }
  }

  method ReserveFormat(m: Matrix)
    requires m.Valid() && m.size >= 21
    modifies m
    ensures m.Valid() && m.modules == Reserved(old(m.modules), FormatCells(m.size))
  {
    hide Reserved, Put;
    ghost var was := m.modules;
    ReservedNothing(was);
    for i := 0 to 9
      invariant m.Valid() && CellsInside(NearFormatCells(i), m.size)
      invariant m.modules == Reserved(was, NearFormatCells(i))
    {
      ghost var cells := NearFormatCells(i);
      ReserveCell(m, was, cells, 8, i);
      ReserveCell(m, was, cells + [Cell(8, i)], i, 8);
      assert cells + [Cell(8, i)] + [Cell(i, 8)] == NearFormatCells(i + 1);
    }
    ghost var near := NearFormatCells(9);
    assert near + FarFormatCells(m.size, 0) == near;
    for i := 0 to 8
      invariant m.Valid() && CellsInside(near + FarFormatCells(m.size, i), m.size)
      invariant m.modules == Reserved(was, near + FarFormatCells(m.size, i))
    {
      ghost var cells := near + FarFormatCells(m.size, i);
      ReserveCell(m, was, cells, 8, m.size - 1 - i);
      ReserveCell(m, was, cells + [Cell(8, m.size - 1 - i)], m.size - 1 - i, 8);
      assert cells + [Cell(8, m.size - 1 - i)] + [Cell(m.size - 1 - i, 8)] == near + FarFormatCells(m.size, i + 1);
    }
  }

  lemma ReservedNothing(g: Grid)
    requires Square(g, |g|)
    ensures Reserved(g, []) == g
  {
  }

  // ---------------------------------------------------------------- placing data

  /** Which cells the walk skips. */
  function FunctionCells(v: Version): Cell -> bool {
    (p: Cell) => IsFunction(v, SizeFor(v), p)
  }

  /** The data cells in walk order. */
  function DataCells(v: Version): seq<Cell> {
    Kept(Walk(SizeFor(v)), FunctionCells(v))
  }

  /** One write per cell: bit k of the codewords goes to cell k, zeros past the end. */
  function DataWrites(cells: seq<Cell>, codewords: seq<Byte>): (writes: seq<Write>)
    ensures |writes| == |cells|
    ensures forall i :: 0 <= i < |cells| ==> writes[i] == Write(cells[i], Shade(DataBit(codewords, i) == 1))
  {
    if cells == [] then []
    else
      var k := |cells| - 1;
      DataWrites(cells[..k], codewords) + [Write(cells[k], Shade(DataBit(codewords, k) == 1))]
  }

  lemma DataCellIff(v: Version, p: Cell)
    ensures p in DataCells(v) <==> Inside(p, SizeFor(v)) && !IsFunction(v, SizeFor(v), p)
  {
    hide InAlignment, Walk;
    WalkVisitsOnce(SizeFor(v));
    KeptMembers(Walk(SizeFor(v)), FunctionCells(v), p);
  }

  /** The data cells are distinct, and they are the cells that are not function cells. */
  lemma DataCellsAre(v: Version)
    ensures Distinct(DataCells(v)) && CellsInside(DataCells(v), SizeFor(v))
    ensures forall p: Cell :: p in DataCells(v) <==> Inside(p, SizeFor(v)) && !IsFunction(v, SizeFor(v), p)
  {
    DataCellsDistinct(v);
    hide DataCells, IsFunction, Distinct;
    forall p: Cell
      ensures p in DataCells(v) <==> Inside(p, SizeFor(v)) && !IsFunction(v, SizeFor(v), p)
    {
      DataCellIff(v, p);
    }
    forall i | 0 <= i < |DataCells(v)| ensures Inside(DataCells(v)[i], SizeFor(v)) {
      DataCellIff(v, DataCells(v)[i]);
    }
  }

  lemma DataCellsDistinct(v: Version)
    ensures Distinct(DataCells(v))
  {
    WalkVisitsOnce(SizeFor(v));
    KeptDistinct(Walk(SizeFor(v)), FunctionCells(v));
  }

  lemma WritesInside(cells: seq<Cell>, codewords: seq<Byte>, size: nat)
    requires CellsInside(cells, size)
    ensures AllInside(DataWrites(cells, codewords), size)
  {
    hide DataWrites;
  }

  lemma DataWritesAppend(cells: seq<Cell>, p: Cell, codewords: seq<Byte>)
    ensures DataWrites(cells + [p], codewords)
         == DataWrites(cells, codewords) + [Write(p, Shade(DataBit(codewords, |cells|) == 1))]
  {
    assert (cells + [p])[..|cells|] == cells;
  }

  lemma {:induction false} StripInside(size: nat, right: nat, upward: bool, n: nat)
    requires 1 <= right < size && n <= size
    ensures CellsInside(Strip(size, right, upward, n), size)
  {
    if n > 0 { StripInside(size, right, upward, n - 1); }
  }

  lemma {:induction false} KeptStaysInside(cells: seq<Cell>, skip: Cell -> bool, size: nat)
    requires CellsInside(cells, size)
    ensures CellsInside(Kept(cells, skip), size)
  {
    if cells != [] { KeptStaysInside(cells[..|cells| - 1], skip, size); }
  }

  /** The kept cells carry the first bits. */
  ghost predicate Laid(g: Grid, was: Grid, kept: seq<Cell>, codewords: seq<Byte>) {
    && Square(was, |was|) && CellsInside(kept, |was|)
    && AllInside(DataWrites(kept, codewords), |was|)
    && g == PutAll(was, DataWrites(kept, codewords))
  }

  lemma LaidNext(g: Grid, was: Grid, kept: seq<Cell>, codewords: seq<Byte>, p: Cell)
    requires Laid(g, was, kept, codewords) && Inside(p, |was|)
    ensures Square(g, |was|) && |g| == |was|
    ensures Laid(Put(g, p, Shade(DataBit(codewords, |kept|) == 1)), was, kept + [p], codewords)
  {
    var w := Write(p, Shade(DataBit(codewords, |kept|) == 1));
    DataWritesAppend(kept, p, codewords);
    PutAllAppend(was, DataWrites(kept, codewords), w);
    hide DataWrites, PutAll, Put, DataBit, Shade;
  }

  /** The state of the placement loop after some cells of the walk. */
  ghost predicate PlacedSoFar(g: Grid, was: Grid, visited: seq<Cell>, v: Version, codewords: seq<Byte>, bitIndex: nat)
  {
    var kept := Kept(visited, FunctionCells(v));
    |was| == SizeFor(v) && bitIndex == |kept| && Laid(g, was, kept, codewords)
  }

  lemma PlacedNext(g: Grid, was: Grid, visited: seq<Cell>, v: Version, codewords: seq<Byte>, bitIndex: nat, p: Cell)
    requires PlacedSoFar(g, was, visited, v, codewords, bitIndex) && Inside(p, SizeFor(v))
    ensures Square(g, |g|) && |g| == SizeFor(v)
    ensures var bit := Shade(DataBit(codewords, bitIndex) == 1);
            if IsFunction(v, SizeFor(v), p) then PlacedSoFar(g, was, visited + [p], v, codewords, bitIndex)
            else PlacedSoFar(Put(g, p, bit), was, visited + [p], v, codewords, bitIndex + 1)
  {
    hide Kept, Laid, Put, IsFunction, DataBit, Shade;
    var kept := Kept(visited, FunctionCells(v));
    KeptAppend(visited, p, FunctionCells(v));
    assert kept + [] == kept;
    LaidNext(g, was, kept, codewords, p);
  }

  /** The body of the innermost placement loop. */
  method PlaceCell(m: Matrix, v: Version, codewords: seq<Byte>, row: nat, col: nat, bitIndex: nat,
                   ghost was: Grid, ghost visited: seq<Cell>)
    returns (newIndex: nat)
    requires m.Valid() && m.size == SizeFor(v) && row < m.size && col < m.size
    requires PlacedSoFar(m.modules, was, visited, v, codewords, bitIndex)
    modifies m
    ensures m.Valid() && PlacedSoFar(m.modules, was, visited + [Cell(row, col)], v, codewords, newIndex)
  {
    hide PlacedSoFar, IsFunction, Put;
    PlacedNext(m.modules, was, visited, v, codewords, bitIndex, Cell(row, col));
    newIndex := bitIndex;
    var skip := FunctionCell(v, m.size, row, col);
    if !skip {
      ShiftRightZero(7 - bitIndex % 8);
      var byte := if bitIndex / 8 < |codewords| then codewords[bitIndex / 8] else 0;
      var bit := ShiftRight(byte, 7 - bitIndex % 8) % 2;
      m.Set(row, col, Shade(bit == 1));
      newIndex := bitIndex + 1;
    }
  }

  /** The middle loop of placeData: one strip, up or down. */
  method PlaceStrip(m: Matrix, v: Version, codewords: seq<Byte>, right: nat, upward: bool, bitIndex: nat,
                    ghost was: Grid, ghost visited: seq<Cell>)
    returns (newIndex: nat)
    requires m.Valid() && m.size == SizeFor(v) && 1 <= right < m.size
    requires PlacedSoFar(m.modules, was, visited, v, codewords, bitIndex)
    modifies m
    ensures m.Valid()
    ensures PlacedSoFar(m.modules, was, visited + Strip(m.size, right, upward, m.size), v, codewords, newIndex)
  {
    hide PlacedSoFar, Strip;
    newIndex := bitIndex;
    StripNothing(m.size, right, upward);
    ghost var done := visited;
    for step := 0 to m.size
      invariant m.Valid() && done == visited + Strip(m.size, right, upward, step)
      invariant PlacedSoFar(m.modules, was, done, v, codewords, newIndex)
    {
      var row := if upward then m.size - 1 - step else step;
      newIndex := PlaceCell(m, v, codewords, row, right, newIndex, was, done);
      done := done + [Cell(row, right)];
      newIndex := PlaceCell(m, v, codewords, row, right - 1, newIndex, was, done);
      done := done + [Cell(row, right - 1)];
      StripNext(m.size, right, upward, step);
    }
  }

  /** placeData. */
  method PlaceData(m: Matrix, v: Version, codewords: seq<Byte>)
    requires m.Valid() && m.size == SizeFor(v)
    modifies m
    ensures m.Valid() && Laid(m.modules, old(m.modules), DataCells(v), codewords)
  {
    hide PlacedSoFar, Strip, WalkFrom;
    ghost var was, visited := m.modules, [];
    PlacedStart(was, v, codewords);
    var bitIndex, upward, right := 0, true, m.size - 1;
    while right >= 1
      invariant m.Valid() && right < m.size && OnCourse(right)
      invariant PlacedSoFar(m.modules, was, visited, v, codewords, bitIndex)
      invariant visited + WalkFrom(m.size, right, upward) == Walk(m.size)
      decreases right
    {
      WalkStep(m.size, right, upward);
      if right == 6 { right := 5; }
      bitIndex := PlaceStrip(m, v, codewords, right, upward, bitIndex, was, visited);
      visited := visited + Strip(m.size, right, upward, m.size);
      upward := !upward;
      right := right - 2;
    }
    WalkDone(m.size, right, upward);
    PlacedEnd(m.modules, was, visited, v, codewords, bitIndex);
  }

  lemma StripNothing(size: nat, right: nat, upward: bool)
    requires 1 <= right
    ensures Strip(size, right, upward, 0) == []
  {
  }

  lemma StripNext(size: nat, right: nat, upward: bool, n: nat)
    requires 1 <= right && n < size
    ensures var row := RowAt(size, upward, n);
            Strip(size, right, upward, n + 1)
            == Strip(size, right, upward, n) + [Cell(row, right), Cell(row, right - 1)]
  {
  }

  lemma PlacedStart(was: Grid, v: Version, codewords: seq<Byte>)
    requires Square(was, SizeFor(v))
    ensures PlacedSoFar(was, was, [], v, codewords, 0)
  {
  }

  lemma PlacedEnd(g: Grid, was: Grid, visited: seq<Cell>, v: Version, codewords: seq<Byte>, bitIndex: nat)
    requires PlacedSoFar(g, was, visited, v, codewords, bitIndex) && visited == Walk(SizeFor(v))
    ensures Laid(g, was, DataCells(v), codewords)
  {
  }

  /** Every data cell ends up with its bit, and no other cell changes. */
  lemma LaidReads(g: Grid, was: Grid, kept: seq<Cell>, codewords: seq<Byte>)
    requires Laid(g, was, kept, codewords) && Distinct(kept)
    ensures Square(g, |was|)
    ensures forall i :: 0 <= i < |kept| ==> Get(g, kept[i]) == Shade(DataBit(codewords, i) == 1)
    ensures forall p: Cell :: Inside(p, |was|) && p !in kept ==> Get(g, p) == Get(was, p)
  {
    var writes := DataWrites(kept, codewords);
    hide PutAll, DataWrites, Get, DataBit;
    forall i | 0 <= i < |kept| ensures Get(g, kept[i]) == Shade(DataBit(codewords, i) == 1) {
      PutAllLast(was, writes, i);
    }
    forall p: Cell | Inside(p, |was|) && p !in kept ensures Get(g, p) == Get(was, p) {
      PutAllElsewhere(was, writes, p);
    }
  }

  // ---------------------------------------------------------------- masking

  type MaskIndex = k: int | 0 <= k < 8

  /** The eight mask conditions. */
  predicate MaskAt(k: MaskIndex, r: nat, c: nat) {
    match k
    case 0 => (r + c) % 2 == 0
    case 1 => r % 2 == 0
    case 2 => c % 3 == 0
    case 3 => (r + c) % 3 == 0
    case 4 => (r / 2 + c / 3) % 2 == 0
    case 5 => r * c % 2 + r * c % 3 == 0
    case 6 => (r * c % 2 + r * c % 3) % 2 == 0
    case 7 => ((r + c) % 2 + r * c % 3) % 2 == 0
  }

  /** Logical negation; an unset module counts as light. */
  function Flip(m: Module): Module {
    if m == Dark then Light else Dark
  }

  function MaskedModule(m: Module, v: Version, k: MaskIndex, p: Cell): Module {
    if !IsFunction(v, SizeFor(v), p) && MaskAt(k, p.row, p.col) then Flip(m) else m
  }

  /** The grid with the data cells that meet the mask condition flipped. */
  function Masked(g: Grid, v: Version, k: MaskIndex): (g': Grid)
    requires Square(g, |g|)
    ensures Square(g', |g'|) && |g'| == |g|
    ensures forall p: Cell :: Inside(p, |g|) ==> Get(g', p) == MaskedModule(Get(g, p), v, k, p)
  {
    seq(|g|, r requires 0 <= r < |g| =>
      seq(|g|, c requires 0 <= c < |g| => MaskedModule(g[r][c], v, k, Cell(r, c))))
  }

  /** The cells before (row, col) in reading order. */
  predicate Earlier(p: Cell, row: nat, col: nat) {
    p.row < row || (p.row == row && p.col < col)
  }

  ghost predicate MaskedSoFar(g: Grid, was: Grid, v: Version, k: MaskIndex, row: nat, col: nat) {
    && Square(was, |was|) && Square(g, |was|)
    && forall p: Cell :: Inside(p, |was|) ==>
         Get(g, p) == if Earlier(p, row, col) then MaskedModule(Get(was, p), v, k, p) else Get(was, p)
  }

  /** applyMask. */
  method ApplyMask(m: Matrix, v: Version, k: MaskIndex) returns (out: Matrix)
    requires m.Valid() && m.size == SizeFor(v)
    ensures fresh(out) && out.Valid() && out.size == m.size
    ensures out.modules == Masked(m.modules, v, k)
  {
    hide IsFunction, MaskAt, Flip;
    out := new Matrix.Copy(m);
    for r := 0 to m.size
      invariant out.Valid() && MaskedSoFar(out.modules, m.modules, v, k, r, 0)
    {
      for c := 0 to m.size
        invariant out.Valid() && MaskedSoFar(out.modules, m.modules, v, k, r, c)
      {
        var skip := FunctionCell(v, m.size, r, c);
        assert Get(out.modules, Cell(r, c)) == out.modules[r][c];
        if !skip && MaskAt(k, r, c) {
          out.Set(r, c, Flip(out.modules[r][c]));
        }
      }
    }
    SameGrid(out.modules, Masked(m.modules, v, k));
  }

  lemma SameGrid(a: Grid, b: Grid)
    requires Square(a, |a|) && Square(b, |a|)
    requires forall p: Cell :: Inside(p, |a|) ==> Get(a, p) == Get(b, p)
    ensures a == b
  {
    forall r | 0 <= r < |a| ensures a[r] == b[r] {
      forall c | 0 <= c < |a| ensures a[r][c] == b[r][c] {
        assert Get(a, Cell(r, c)) == Get(b, Cell(r, c));
      }
    }
  }

  /** Masking twice shows every data module the way it was; function modules never change. */
  lemma MaskTwice(g: Grid, v: Version, k: MaskIndex, p: Cell)
    requires Square(g, |g|) && Inside(p, |g|)
    ensures Get(Masked(Masked(g, v, k), v, k), p) == Dark <==> Get(g, p) == Dark
    ensures IsFunction(v, SizeFor(v), p) ==> Get(Masked(g, v, k), p) == Get(g, p)
  {
    hide IsFunction, MaskAt;
  }
}
