// The module matrix: function patterns, reserved cells, data and mask.
module QrMatrix {
  import opened QrTables
  import opened QrWalk

  // ---------------------------------------------------------------- lists of writes

  lemma PutAllAppend(g: Grid, a: seq<Write>, w: Write)
    requires Square(g, |g|) && AllInside(a, |g|) && Inside(w.cell, |g|)
    ensures AllInside(a + [w], |g|)
    ensures PutAll(g, a + [w]) == Put(PutAll(g, a), w.cell, w.module_)
  {
    assert (a + [w])[..|a|] == a;
    hide Put;
  }

  lemma InsideConcat(a: seq<Write>, b: seq<Write>, size: nat)
    requires AllInside(a, size) && AllInside(b, size)
    ensures AllInside(a + b, size)
  {
  }

  lemma {:induction false} PutAllConcat(g: Grid, a: seq<Write>, b: seq<Write>)
    requires Square(g, |g|) && AllInside(a, |g|) && AllInside(b, |g|)
    ensures AllInside(a + b, |g|)
    ensures PutAll(g, a + b) == PutAll(PutAll(g, a), b)
  {
    InsideConcat(a, b, |g|);
    if b == [] {
      assert a + b == a;
      hide Put;
    } else {
      var init, w := b[..|b| - 1], b[|b| - 1];
      assert b == init + [w] && a + b == (a + init) + [w];
      PutAllConcat(g, a, init);
      PutAllAppend(g, a + init, w);
      PutAllAppend(PutAll(g, a), init, w);
      hide Put, PutAll, AllInside;
    }
  }

  function Shade(dark: bool): Module {
    if dark then Dark else Light
  }

  /** A square matrix of modules, written cell by cell. */
  class Matrix {
    const size: nat
    var modules: Grid

    ghost predicate Valid()
      reads this
    {
      Square(modules, size)
    }

    /** emptyMatrix. */
    constructor (size: nat)
      ensures Valid() && this.size == size && modules == Blank(size)
    {
      this.size := size;
      modules := Blank(size);
    }

    constructor Copy(m: Matrix)
      requires m.Valid()
      ensures Valid() && size == m.size && modules == m.modules
    {
      size := m.size;
      modules := m.modules;
    }

    method Set(row: nat, col: nat, v: Module)
      requires Valid() && row < size && col < size
      modifies this
      ensures Valid() && modules == Put(old(modules), Cell(row, col), v)
    {
      modules := modules[row := modules[row][col := v]];
    }

    /** One more write on top of a list of them. */
    method Append(ghost was: Grid, ghost writes: seq<Write>, row: nat, col: nat, v: Module)
      requires Valid() && row < size && col < size
      requires Square(was, size) && AllInside(writes, size) && modules == PutAll(was, writes)
      modifies this
      ensures Valid() && AllInside(writes + [Write(Cell(row, col), v)], size)
      ensures modules == PutAll(was, writes + [Write(Cell(row, col), v)])
    {
      Set(row, col, v);
      assert (writes + [Write(Cell(row, col), v)])[..|writes|] == writes;
    }
  }

  function Blank(size: nat): (g: Grid)
    ensures Square(g, size)
  {
    seq(size, _ => seq(size, _ => Unset))
  }

  // ---------------------------------------------------------------- finder patterns

  /** Whether the finder pattern is dark at offset (r, c) from its corner. */
  predicate FinderDark(r: int, c: int) {
    || (0 <= r <= 6 && (c == 0 || c == 6))
    || (0 <= c <= 6 && (r == 0 || r == 6))
    || (2 <= r <= 4 && 2 <= c <= 4)
  }

  /** The first n cells of row r of a finder pattern with its separator; cells off the matrix are left out. */
  function FinderRow(size: nat, row: nat, col: nat, r: int, n: nat): (writes: seq<Write>)
    ensures AllInside(writes, size)
  {
    if n == 0 then []
    else
      var c := n - 2;
      var before := FinderRow(size, row, col, r, n - 1);
      if row + r < 0 || row + r >= size || col + c < 0 || col + c >= size then before
      else before + [Write(Cell(row + r, col + c), Shade(FinderDark(r, c)))]
  }

  function FinderRows(size: nat, row: nat, col: nat, n: nat): (writes: seq<Write>)
    ensures AllInside(writes, size)
  {
    if n == 0 then [] else FinderRows(size, row, col, n - 1) + FinderRow(size, row, col, n - 2, 9)
  }

  method PlaceFinder(m: Matrix, row: nat, col: nat)
    requires m.Valid()
    modifies m
    ensures m.Valid() && m.modules == PutAll(old(m.modules), FinderRows(m.size, row, col, 9))
  {
    hide PutAll, Put;
    ghost var was := m.modules;
    var r := -1;
    PutNothing(was);
    while r <= 7
      invariant -1 <= r <= 8 && m.Valid()
      invariant m.modules == PutAll(was, FinderRows(m.size, row, col, r + 1))
    {
      ghost var done := FinderRows(m.size, row, col, r + 1);
      var c := -1;
      assert done + FinderRow(m.size, row, col, r, 0) == done;
      while c <= 7
        invariant -1 <= c <= 8 && m.Valid()
        invariant m.modules == PutAll(was, done + FinderRow(m.size, row, col, r, c + 1))
      {
        var rr, cc := row + r, col + c;
        ghost var writes := done + FinderRow(m.size, row, col, r, c + 1);
        if !(rr < 0 || rr >= m.size || cc < 0 || cc >= m.size) {
          m.Append(was, writes, rr, cc, Shade(FinderDark(r, c)));
          assert writes + [Write(Cell(rr, cc), Shade(FinderDark(r, c)))]
              == done + FinderRow(m.size, row, col, r, c + 2);
        }
        c := c + 1;
      }
      r := r + 1;
    }
  }

  lemma PutNothing(g: Grid)
    requires Square(g, |g|)
    ensures PutAll(g, []) == g
  {
  }

  // ---------------------------------------------------------------- timing and alignment patterns

  function TimingWrites(size: nat, n: nat): (writes: seq<Write>)
    requires n + 16 <= size
    ensures AllInside(writes, size)
  {
    if n == 0 then []
    else
      var i := 7 + n;
      TimingWrites(size, n - 1) + [Write(Cell(6, i), Shade(i % 2 == 0)), Write(Cell(i, 6), Shade(i % 2 == 0))]
  }

  method PlaceTiming(m: Matrix)
    requires m.Valid() && m.size >= 21
    modifies m
    ensures m.Valid() && m.modules == PutAll(old(m.modules), TimingWrites(m.size, m.size - 16))
  {
    hide PutAll, Put;
    ghost var was := m.modules;
    PutNothing(was);
    for i := 8 to m.size - 8
      invariant m.Valid() && m.modules == PutAll(was, TimingWrites(m.size, i - 8))
    {
      ghost var writes := TimingWrites(m.size, i - 8);
      m.Append(was, writes, 6, i, Shade(i % 2 == 0));
      m.Append(was, writes + [Write(Cell(6, i), Shade(i % 2 == 0))], i, 6, Shade(i % 2 == 0));
      assert writes + [Write(Cell(6, i), Shade(i % 2 == 0))] + [Write(Cell(i, 6), Shade(i % 2 == 0))]
          == TimingWrites(m.size, i - 7);
    }
  }

  function Abs(x: int): nat {
    if x < 0 then -x else x
  }

  /** The three corners that hold finder patterns get no alignment pattern. */
  predicate FinderCorner(size: nat, r: nat, c: nat) {
    (r == 6 && c == 6) || (r == 6 && c == size - 7) || (r == size - 7 && c == 6)
  }

  predicate CentresFit(size: nat, centres: seq<nat>) {
    forall i :: 0 <= i < |centres| ==> 2 <= centres[i] && centres[i] + 2 < size
  }

  /** Dark at the centre and two cells away from it, light in between. */
  function RingShade(dr: int, dc: int): Module {
    Shade((if Abs(dr) > Abs(dc) then Abs(dr) else Abs(dc)) != 1)
  }

  /** Row dr of the pattern around (r, c): its first n cells. */
  function RingRow(size: nat, r: nat, c: nat, dr: int, n: nat): (writes: seq<Write>)
    requires 2 <= r && r + 2 < size && 2 <= c && c + 2 < size && -2 <= dr <= 2 && n <= 5
    ensures AllInside(writes, size)
  {
    if n == 0 then []
    else
      var dc := n - 3;
      RingRow(size, r, c, dr, n - 1) + [Write(Cell(r + dr, c + dc), RingShade(dr, dc))]
  }

  function RingRows(size: nat, r: nat, c: nat, n: nat): (writes: seq<Write>)
    requires 2 <= r && r + 2 < size && 2 <= c && c + 2 < size && n <= 5
    ensures AllInside(writes, size)
  {
    if n == 0 then [] else RingRows(size, r, c, n - 1) + RingRow(size, r, c, n - 3, 5)
  }

  /** The patterns with centres in row r and the first n columns of the table. */
  function AlignmentRow(size: nat, centres: seq<nat>, r: nat, n: nat): (writes: seq<Write>)
    requires CentresFit(size, centres) && 2 <= r && r + 2 < size && n <= |centres|
    ensures AllInside(writes, size)
  {
    if n == 0 then []
    else
      var before := AlignmentRow(size, centres, r, n - 1);
      if FinderCorner(size, r, centres[n - 1]) then before else before + RingRows(size, r, centres[n - 1], 5)
  }

  function AlignmentRows(size: nat, centres: seq<nat>, n: nat): (writes: seq<Write>)
    requires CentresFit(size, centres) && n <= |centres|
    ensures AllInside(writes, size)
  {
    if n == 0 then []
    else AlignmentRows(size, centres, n - 1) + AlignmentRow(size, centres, centres[n - 1], |centres|)
  }

  /** The two inner loops of an alignment pattern. */
  method PlaceRing(m: Matrix, r: nat, c: nat)
    requires m.Valid() && 2 <= r && r + 2 < m.size && 2 <= c && c + 2 < m.size
    modifies m
    ensures m.Valid() && m.modules == PutAll(old(m.modules), RingRows(m.size, r, c, 5))
  {
    hide PutAll, Put;
    ghost var was := m.modules;
    PutNothing(was);
    for dr := -2 to 3
      invariant m.Valid() && m.modules == PutAll(was, RingRows(m.size, r, c, dr + 2))
    {
      ghost var done := RingRows(m.size, r, c, dr + 2);
      assert done + RingRow(m.size, r, c, dr, 0) == done;
      for dc := -2 to 3
        invariant m.Valid() && m.modules == PutAll(was, done + RingRow(m.size, r, c, dr, dc + 2))
      {
        ghost var writes := done + RingRow(m.size, r, c, dr, dc + 2);
        m.Append(was, writes, r + dr, c + dc, RingShade(dr, dc));
        assert writes + [Write(Cell(r + dr, c + dc), RingShade(dr, dc))]
            == done + RingRow(m.size, r, c, dr, dc + 3);
      }
    }
  }

  /** The second loop over the centres: the patterns of one row. */
  method PlaceAlignmentRow(m: Matrix, centres: seq<nat>, r: nat)
    requires m.Valid() && CentresFit(m.size, centres) && 2 <= r && r + 2 < m.size
    modifies m
    ensures m.Valid() && m.modules == PutAll(old(m.modules), AlignmentRow(m.size, centres, r, |centres|))
  {
    hide PutAll, Put, RingRows;
    ghost var was := m.modules;
    PutNothing(was);
    for j := 0 to |centres|
      invariant m.Valid() && m.modules == PutAll(was, AlignmentRow(m.size, centres, r, j))
    {
      if !FinderCorner(m.size, r, centres[j]) {
        PutAllConcat(was, AlignmentRow(m.size, centres, r, j), RingRows(m.size, r, centres[j], 5));
        PlaceRing(m, r, centres[j]);
      }
    }
  }

  method PlaceAlignment(m: Matrix, centres: seq<nat>)
    requires m.Valid() && CentresFit(m.size, centres)
    modifies m
    ensures m.Valid() && m.modules == PutAll(old(m.modules), AlignmentRows(m.size, centres, |centres|))
  {
    hide PutAll, Put, AlignmentRow;
    ghost var was := m.modules;
    PutNothing(was);
    for i := 0 to |centres|
      invariant m.Valid() && m.modules == PutAll(was, AlignmentRows(m.size, centres, i))
    {
      PutAllConcat(was, AlignmentRows(m.size, centres, i), AlignmentRow(m.size, centres, centres[i], |centres|));
      PlaceAlignmentRow(m, centres, centres[i]);
    }
  }

  // ---------------------------------------------------------------- all function patterns

  lemma CentresOfVersion(v: Version)
    ensures CentresFit(SizeFor(v), Alignment(v)) && SizeFor(v) >= 21
  {
  }

  /** Everything placeFunctionPatterns writes, in order. */
  function FunctionWrites(v: Version): (writes: seq<Write>)
    ensures AllInside(writes, SizeFor(v))
  {
    var size := SizeFor(v);
    CentresOfVersion(v);
    FinderRows(size, 0, 0, 9) + FinderRows(size, 0, size - 7, 9) + FinderRows(size, size - 7, 0, 9)
    + TimingWrites(size, size - 16)
    + AlignmentRows(size, Alignment(v), |Alignment(v)|)
    + [Write(Cell(size - 8, 8), Dark)]
  }

  method PlaceFunctionPatterns(m: Matrix, v: Version)
    requires m.Valid() && m.size == SizeFor(v)
    modifies m
    ensures m.Valid() && m.modules == PutAll(old(m.modules), FunctionWrites(v))
  {
    hide PutAll, Put, FinderRows, TimingWrites, AlignmentRows;
    CentresOfVersion(v);
    ghost var was := m.modules;
    ghost var f1 := FinderRows(m.size, 0, 0, 9);
    ghost var f2 := FinderRows(m.size, 0, m.size - 7, 9);
    ghost var f3 := FinderRows(m.size, m.size - 7, 0, 9);
    ghost var t := TimingWrites(m.size, m.size - 16);
    ghost var a := AlignmentRows(m.size, Alignment(v), |Alignment(v)|);
    PlaceFinder(m, 0, 0);
    PlaceFinder(m, 0, m.size - 7);
    PutAllConcat(was, f1, f2);
    PlaceFinder(m, m.size - 7, 0);
    PutAllConcat(was, f1 + f2, f3);
    PlaceTiming(m);
    PutAllConcat(was, f1 + f2 + f3, t);
    PlaceAlignment(m, Alignment(v));
    PutAllConcat(was, f1 + f2 + f3 + t, a);
    m.Append(was, f1 + f2 + f3 + t + a, m.size - 8, 8, Dark);
  }

  // ---------------------------------------------------------------- function cells

  /** The cells that never carry data. */
  predicate IsFunction(v: Version, size: nat, p: Cell) {
    || p.row == 6 || p.col == 6
    || (p.row < 9 && p.col < 9)
    || (p.row < 9 && p.col >= size - 8)
    || (p.row >= size - 8 && p.col < 9)
    || InAlignment(size, Alignment(v), p, |Alignment(v)|)
  }

  /** p lies in a pattern whose centre row is among the first n centres. */
  predicate InAlignment(size: nat, centres: seq<nat>, p: Cell, n: nat)
    requires n <= |centres|
  {
    n > 0 && (InAlignment(size, centres, p, n - 1) || InAlignmentRow(size, centres, p, centres[n - 1], |centres|))
  }

  predicate InAlignmentRow(size: nat, centres: seq<nat>, p: Cell, r: nat, n: nat)
    requires n <= |centres|
  {
    n > 0 && (InAlignmentRow(size, centres, p, r, n - 1) || InRing(size, p, r, centres[n - 1]))
  }

  predicate InRing(size: nat, p: Cell, r: nat, c: nat) {
    !FinderCorner(size, r, c) && Abs(p.row - r) <= 2 && Abs(p.col - c) <= 2
  }

  /** isFunction. */
  method FunctionCell(v: Version, size: nat, row: nat, col: nat) returns (b: bool)
    ensures b == IsFunction(v, size, Cell(row, col))
  {
    if row == 6 || col == 6 { return true; }
    if row < 9 && col < 9 { return true; }
    if row < 9 && col >= size - 8 { return true; }
    if row >= size - 8 && col < 9 { return true; }
    b := InAlignmentLoop(size, Alignment(v), row, col);
  }

  method InAlignmentLoop(size: nat, centres: seq<nat>, row: nat, col: nat) returns (b: bool)
    ensures b == InAlignment(size, centres, Cell(row, col), |centres|)
  {
    var p := Cell(row, col);
    for i := 0 to |centres|
      invariant !InAlignment(size, centres, p, i)
    {
      var r := centres[i];
      for j := 0 to |centres|
        invariant !InAlignmentRow(size, centres, p, r, j)
      {
        var c := centres[j];
        if !FinderCorner(size, r, c) {
          if Abs(row - r) <= 2 && Abs(col - c) <= 2 {
            InAlignmentFound(size, centres, p, i, j);
            return true;
          }
        }
      }
    }
    b := false;
  }

  lemma InAlignmentFound(size: nat, centres: seq<nat>, p: Cell, i: nat, j: nat)
    requires i < |centres| && j < |centres| && InRing(size, p, centres[i], centres[j])
    ensures InAlignment(size, centres, p, |centres|)
  {
    InAlignmentRowFound(size, centres, p, centres[i], j, |centres|);
    InAlignmentUp(size, centres, p, i + 1, |centres|);
  }

  lemma {:induction false} InAlignmentRowFound(size: nat, centres: seq<nat>, p: Cell, r: nat, j: nat, n: nat)
    requires j < n <= |centres| && InRing(size, p, r, centres[j])
    ensures InAlignmentRow(size, centres, p, r, n)
  {
    if j < n - 1 { InAlignmentRowFound(size, centres, p, r, j, n - 1); }
  }

  lemma {:induction false} InAlignmentUp(size: nat, centres: seq<nat>, p: Cell, i: nat, n: nat)
    requires i <= n <= |centres| && InAlignment(size, centres, p, i)
    ensures InAlignment(size, centres, p, n)
  {
    if i < n { InAlignmentUp(size, centres, p, i, n - 1); }
  }

  // ---------------------------------------------------------------- patterns stay on function cells

  ghost predicate OnFunctionCells(writes: seq<Write>, v: Version) {
    forall i :: 0 <= i < |writes| ==> IsFunction(v, SizeFor(v), writes[i].cell)
  }

  lemma {:induction false} FinderRowCells(size: nat, row: nat, col: nat, r: int, n: nat)
    ensures forall i :: 0 <= i < |FinderRow(size, row, col, r, n)| ==>
      var p := FinderRow(size, row, col, r, n)[i].cell;
      p.row == row + r && col - 1 <= p.col && p.col <= col + n - 2
  {
    if n > 0 { FinderRowCells(size, row, col, r, n - 1); }
  }

  lemma {:induction false} FinderCells(size: nat, row: nat, col: nat, n: nat)
    ensures forall i :: 0 <= i < |FinderRows(size, row, col, n)| ==>
      var p := FinderRows(size, row, col, n)[i].cell;
      row - 1 <= p.row && p.row <= row + n - 2 && col - 1 <= p.col && p.col <= col + 7
  {
    if n > 0 {
      FinderCells(size, row, col, n - 1);
      FinderRowCells(size, row, col, n - 2, 9);
      hide FinderRow;
    }
  }

  lemma {:induction false} TimingCells(size: nat, n: nat)
    requires n + 16 <= size
    ensures forall i :: 0 <= i < |TimingWrites(size, n)| ==>
      var p := TimingWrites(size, n)[i].cell; p.row == 6 || p.col == 6
  {
    if n > 0 { TimingCells(size, n - 1); }
  }

  lemma {:induction false} RingRowCells(size: nat, r: nat, c: nat, dr: int, n: nat)
    requires 2 <= r && r + 2 < size && 2 <= c && c + 2 < size && -2 <= dr <= 2 && n <= 5
    ensures forall i :: 0 <= i < |RingRow(size, r, c, dr, n)| ==>
      var p := RingRow(size, r, c, dr, n)[i].cell; Abs(p.row - r) <= 2 && Abs(p.col - c) <= 2
  {
    if n > 0 { RingRowCells(size, r, c, dr, n - 1); }
  }

  lemma {:induction false} RingCells(size: nat, r: nat, c: nat, n: nat)
    requires 2 <= r && r + 2 < size && 2 <= c && c + 2 < size && n <= 5
    ensures forall i :: 0 <= i < |RingRows(size, r, c, n)| ==>
      var p := RingRows(size, r, c, n)[i].cell; Abs(p.row - r) <= 2 && Abs(p.col - c) <= 2
  {
    if n > 0 {
      RingCells(size, r, c, n - 1);
      RingRowCells(size, r, c, n - 3, 5);
      hide RingRow;
    }
  }

  lemma {:induction false} AlignmentRowCells(size: nat, centres: seq<nat>, r: nat, n: nat)
    requires CentresFit(size, centres) && 2 <= r && r + 2 < size && n <= |centres|
    ensures forall i :: 0 <= i < |AlignmentRow(size, centres, r, n)| ==>
      InAlignmentRow(size, centres, AlignmentRow(size, centres, r, n)[i].cell, r, n)
  {
    if n > 0 {
      AlignmentRowCells(size, centres, r, n - 1);
      RingCells(size, r, centres[n - 1], 5);
      hide RingRows;
    }
  }

  lemma CentreFits(size: nat, centres: seq<nat>, i: nat)
    requires CentresFit(size, centres) && i < |centres|
    ensures 2 <= centres[i] && centres[i] + 2 < size
  {
  }

  lemma {:induction false} AlignmentCells(size: nat, centres: seq<nat>, n: nat)
    requires CentresFit(size, centres) && n <= |centres|
    ensures forall i :: 0 <= i < |AlignmentRows(size, centres, n)| ==>
      InAlignment(size, centres, AlignmentRows(size, centres, n)[i].cell, n)
  {
    hide AlignmentRow, InAlignmentRow, CentresFit;
    if n > 0 {
      var r := centres[n - 1];
      CentreFits(size, centres, n - 1);
      var before: seq<Write> := AlignmentRows(size, centres, n - 1);
      var row: seq<Write> := AlignmentRow(size, centres, r, |centres|);
      AlignmentCells(size, centres, n - 1);
      AlignmentRowCells(size, centres, r, |centres|);
      forall i | 0 <= i < |before + row| ensures InAlignment(size, centres, (before + row)[i].cell, n) {
        if i >= |before| { assert (before + row)[i] == row[i - |before|]; }
      }
    }
  }

  lemma StayConcat(a: seq<Write>, b: seq<Write>, v: Version)
    requires OnFunctionCells(a, v) && OnFunctionCells(b, v)
    ensures OnFunctionCells(a + b, v)
  {
    hide IsFunction;
  }

  lemma FinderStays(v: Version, row: nat, col: nat)
    requires var far := SizeFor(v) - 7; (row == 0 && (col == 0 || col == far)) || (row == far && col == 0)
    ensures OnFunctionCells(FinderRows(SizeFor(v), row, col, 9), v)
  {
    FinderCells(SizeFor(v), row, col, 9);
    hide FinderRows, InAlignment;
  }

  lemma TimingStays(v: Version)
    ensures SizeFor(v) >= 21 && OnFunctionCells(TimingWrites(SizeFor(v), SizeFor(v) - 16), v)
  {
    TimingCells(SizeFor(v), SizeFor(v) - 16);
    hide TimingWrites, InAlignment;
  }

  lemma AlignmentStays(v: Version)
    requires CentresFit(SizeFor(v), Alignment(v))
    ensures OnFunctionCells(AlignmentRows(SizeFor(v), Alignment(v), |Alignment(v)|), v)
  {
    AlignmentCells(SizeFor(v), Alignment(v), |Alignment(v)|);
    hide AlignmentRows, InAlignment, Alignment;
  }

  lemma DarkStays(v: Version)
    ensures OnFunctionCells([Write(Cell(SizeFor(v) - 8, 8), Dark)], v)
  {
  }

  lemma StaySix(a: seq<Write>, b: seq<Write>, c: seq<Write>, d: seq<Write>, e: seq<Write>, f: seq<Write>, v: Version)
    requires OnFunctionCells(a, v) && OnFunctionCells(b, v) && OnFunctionCells(c, v)
    requires OnFunctionCells(d, v) && OnFunctionCells(e, v) && OnFunctionCells(f, v)
    ensures OnFunctionCells(a + b + c + d + e + f, v)
  {
    hide OnFunctionCells;
    StayConcat(a, b, v);
    StayConcat(a + b, c, v);
    StayConcat(a + b + c, d, v);
    StayConcat(a + b + c + d, e, v);
    StayConcat(a + b + c + d + e, f, v);
  }

  /** No function pattern is ever drawn on a data cell. */
  lemma FunctionWritesStay(v: Version)
    ensures OnFunctionCells(FunctionWrites(v), v)
  {
    hide FinderRows, TimingWrites, AlignmentRows, Alignment, OnFunctionCells;
    var far := SizeFor(v) - 7;
    CentresOfVersion(v);
    FinderStays(v, 0, 0);
    FinderStays(v, 0, far);
    FinderStays(v, far, 0);
    TimingStays(v);
    AlignmentStays(v);
    DarkStays(v);
    StaySix(FinderRows(SizeFor(v), 0, 0, 9), FinderRows(SizeFor(v), 0, far, 9), FinderRows(SizeFor(v), far, 0, 9),
            TimingWrites(SizeFor(v), SizeFor(v) - 16), AlignmentRows(SizeFor(v), Alignment(v), |Alignment(v)|),
            [Write(Cell(SizeFor(v) - 8, 8), Dark)], v);
  }
}
