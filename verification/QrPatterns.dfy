// What the function patterns look like when all of them are drawn, and that no module is left unset.
module QrPatterns {
  import opened Bitwise
  import opened Options
  import opened QrTables
  import opened QrFraming
  import opened QrWalk
  import opened QrMatrix
  import opened QrPlacement
  import opened QrFormat
  import opened QrCode
  import QrCapacity

  // ------------------------------------------------------------ the last write to a cell

  /** What the last write to the cell puts there, if there is one. */
  function LastWrite(writes: seq<Write>, p: Cell): Option<Module> {
    if writes == [] then None
    else
      var k := |writes| - 1;
      if writes[k].cell == p then Some(writes[k].module_) else LastWrite(writes[..k], p)
  }

  function Or(a: Option<Module>, b: Option<Module>): Option<Module> {
    if a.Some? then a else b
  }

  function Over(a: Option<Module>, m: Module): Module {
    if a.Some? then a.value else m
  }

  lemma {:induction false} LastWriteShows(g: Grid, writes: seq<Write>, p: Cell)
    requires Square(g, |g|) && AllInside(writes, |g|) && Inside(p, |g|)
    ensures Get(PutAll(g, writes), p) == Over(LastWrite(writes, p), Get(g, p))
  {
    hide Get;
    if writes != [] { LastWriteShows(g, writes[..|writes| - 1], p); }
  }

  lemma {:induction false} LastWriteConcat(a: seq<Write>, b: seq<Write>, p: Cell)
    ensures LastWrite(a + b, p) == Or(LastWrite(b, p), LastWrite(a, p))
  {
    if b == [] {
      assert a + b == a;
    } else {
      var k := |b| - 1;
      assert (a + b)[..|a + b| - 1] == a + b[..k];
      LastWriteConcat(a, b[..k], p);
    }
  }

  lemma LastWriteOne(a: seq<Write>, w: Write, p: Cell)
    ensures LastWrite(a + [w], p) == if w.cell == p then Some(w.module_) else LastWrite(a, p)
  {
    assert (a + [w])[..|a|] == a;
  }

  // ------------------------------------------------------------ each pattern, cell by cell

  /** A finder pattern with its separator around the corner (row, col). */
  function FinderShows(row: nat, col: nat, p: Cell): Option<Module> {
    var (r, c) := (p.row - row, p.col - col);
    if -1 <= r <= 7 && -1 <= c <= 7 then Some(Shade(FinderDark(r, c))) else None
  }

  lemma {:induction false} FinderRowShows(size: nat, row: nat, col: nat, r: int, n: nat, p: Cell)
    requires Inside(p, size)
    ensures LastWrite(FinderRow(size, row, col, r, n), p) ==
      if p.row == row + r && -1 <= p.col - col <= n - 2 then Some(Shade(FinderDark(r, p.col - col))) else None
  {
    hide FinderDark, LastWrite;
    if n == 0 {
      LastWriteNone(p);
    } else {
      FinderRowShows(size, row, col, r, n - 1, p);
      var c := n - 2;
      var before := FinderRow(size, row, col, r, n - 1);
      if !(row + r < 0 || row + r >= size || col + c < 0 || col + c >= size) {
        LastWriteOne(before, Write(Cell(row + r, col + c), Shade(FinderDark(r, c))), p);
      }
    }
  }

  lemma LastWriteNone(p: Cell)
    ensures LastWrite([], p) == None
  {
  }

  lemma {:induction false} FinderRowsShow(size: nat, row: nat, col: nat, n: nat, p: Cell)
    requires Inside(p, size)
    ensures LastWrite(FinderRows(size, row, col, n), p) ==
      if -1 <= p.row - row <= n - 2 && -1 <= p.col - col <= 7 then Some(Shade(FinderDark(p.row - row, p.col - col)))
      else None
  {
    hide FinderDark, LastWrite, FinderRow;
    if n == 0 {
      LastWriteNone(p);
    } else {
      FinderRowsShow(size, row, col, n - 1, p);
      FinderRowShows(size, row, col, n - 2, 9, p);
      LastWriteConcat(FinderRows(size, row, col, n - 1), FinderRow(size, row, col, n - 2, 9), p);
    }
  }

  /** The dotted lines of row 6 and column 6 between the finder patterns. */
  function TimingShows(size: nat, p: Cell): Option<Module> {
    if p.row == 6 && 8 <= p.col < size - 8 then Some(Shade(p.col % 2 == 0))
    else if p.col == 6 && 8 <= p.row < size - 8 then Some(Shade(p.row % 2 == 0))
    else None
  }

  lemma {:induction false} TimingWritesShow(size: nat, n: nat, p: Cell)
    requires n + 16 <= size
    ensures LastWrite(TimingWrites(size, n), p) ==
      if p.row == 6 && 8 <= p.col < 8 + n then Some(Shade(p.col % 2 == 0))
      else if p.col == 6 && 8 <= p.row < 8 + n then Some(Shade(p.row % 2 == 0))
      else None
  {
    hide LastWrite;
    if n == 0 {
      LastWriteNone(p);
    } else {
      var i := 7 + n;
      var across, down := Write(Cell(6, i), Shade(i % 2 == 0)), Write(Cell(i, 6), Shade(i % 2 == 0));
      TimingWritesShow(size, n - 1, p);
      LastWriteOne(TimingWrites(size, n - 1), across, p);
      LastWriteOne(TimingWrites(size, n - 1) + [across], down, p);
      assert TimingWrites(size, n - 1) + [across] + [down] == TimingWrites(size, n);
    }
  }

  lemma {:induction false} RingRowShows(size: nat, r: nat, c: nat, dr: int, n: nat, p: Cell)
    requires 2 <= r && r + 2 < size && 2 <= c && c + 2 < size && -2 <= dr <= 2 && n <= 5
    ensures LastWrite(RingRow(size, r, c, dr, n), p) ==
      if p.row == r + dr && -2 <= p.col - c <= n - 3 then Some(RingShade(dr, p.col - c)) else None
  {
    hide RingShade, LastWrite;
    if n == 0 {
      LastWriteNone(p);
    } else {
      RingRowShows(size, r, c, dr, n - 1, p);
      LastWriteOne(RingRow(size, r, c, dr, n - 1), Write(Cell(r + dr, c + n - 3), RingShade(dr, n - 3)), p);
    }
  }

  lemma {:induction false} RingRowsShow(size: nat, r: nat, c: nat, n: nat, p: Cell)
    requires 2 <= r && r + 2 < size && 2 <= c && c + 2 < size && n <= 5
    ensures LastWrite(RingRows(size, r, c, n), p) ==
      if -2 <= p.row - r <= n - 3 && -2 <= p.col - c <= 2 then Some(RingShade(p.row - r, p.col - c)) else None
  {
    hide RingShade, LastWrite, RingRow;
    if n == 0 {
      LastWriteNone(p);
    } else {
      RingRowsShow(size, r, c, n - 1, p);
      RingRowShows(size, r, c, n - 3, 5, p);
      LastWriteConcat(RingRows(size, r, c, n - 1), RingRow(size, r, c, n - 3, 5), p);
    }
  }

  /** The alignment pattern that covers the cell, among those with centres in row r and the first n columns. */
  function RowShows(size: nat, centres: seq<nat>, r: nat, n: nat, p: Cell): Option<Module>
    requires n <= |centres|
  {
    if n == 0 then None
    else if InRing(size, p, r, centres[n - 1]) then Some(RingShade(p.row - r, p.col - centres[n - 1]))
    else RowShows(size, centres, r, n - 1, p)
  }

  function AlignmentShows(size: nat, centres: seq<nat>, n: nat, p: Cell): Option<Module>
    requires n <= |centres|
  {
    if n == 0 then None
    else Or(RowShows(size, centres, centres[n - 1], |centres|, p), AlignmentShows(size, centres, n - 1, p))
  }

  lemma {:induction false} AlignmentRowShows(size: nat, centres: seq<nat>, r: nat, n: nat, p: Cell)
    requires CentresFit(size, centres) && 2 <= r && r + 2 < size && n <= |centres|
    ensures LastWrite(AlignmentRow(size, centres, r, n), p) == RowShows(size, centres, r, n, p)
    ensures RowShows(size, centres, r, n, p).Some? <==> InAlignmentRow(size, centres, p, r, n)
  {
    hide RingShade, LastWrite, RingRows;
    if n == 0 {
      LastWriteNone(p);
    } else {
      var before := AlignmentRow(size, centres, r, n - 1);
      AlignmentRowShows(size, centres, r, n - 1, p);
      RingRowsShow(size, r, centres[n - 1], 5, p);
      LastWriteConcat(before, RingRows(size, r, centres[n - 1], 5), p);
    }
  }

  lemma {:induction false} AlignmentRowsShow(size: nat, centres: seq<nat>, n: nat, p: Cell)
    requires CentresFit(size, centres) && n <= |centres|
    ensures LastWrite(AlignmentRows(size, centres, n), p) == AlignmentShows(size, centres, n, p)
    ensures AlignmentShows(size, centres, n, p).Some? <==> InAlignment(size, centres, p, n)
  {
    hide LastWrite, AlignmentRow, RowShows, InAlignmentRow;
    if n == 0 {
      LastWriteNone(p);
    } else {
      var r := centres[n - 1];
      AlignmentRowsShow(size, centres, n - 1, p);
      AlignmentRowShows(size, centres, r, |centres|, p);
      LastWriteConcat(AlignmentRows(size, centres, n - 1), AlignmentRow(size, centres, r, |centres|), p);
    }
  }

  // ------------------------------------------------------------ the whole picture

  /** The function patterns of a version, each where it lies uppermost. */
  function PatternShows(v: Version, p: Cell): Option<Module> {
    var size := SizeFor(v);
    if p == Cell(size - 8, 8) then Some(Dark)
    else
      Or(AlignmentShows(size, Alignment(v), |Alignment(v)|, p),
         Or(TimingShows(size, p),
            Or(FinderShows(size - 7, 0, p), Or(FinderShows(0, size - 7, p), FinderShows(0, 0, p)))))
  }

  lemma FinderWritesShow(size: nat, row: nat, col: nat, p: Cell)
    requires Inside(p, size)
    ensures LastWrite(FinderRows(size, row, col, 9), p) == FinderShows(row, col, p)
  {
    FinderRowsShow(size, row, col, 9, p);
    hide FinderRows, FinderDark, LastWrite;
  }

  lemma SixInTurn(f1: seq<Write>, f2: seq<Write>, f3: seq<Write>, t: seq<Write>, a: seq<Write>, w: Write, p: Cell)
    ensures LastWrite(f1 + f2 + f3 + t + a + [w], p) ==
      if w.cell == p then Some(w.module_)
      else Or(LastWrite(a, p), Or(LastWrite(t, p), Or(LastWrite(f3, p), Or(LastWrite(f2, p), LastWrite(f1, p)))))
  {
    LastWriteConcat(f1, f2, p);
    LastWriteConcat(f1 + f2, f3, p);
    LastWriteConcat(f1 + f2 + f3, t, p);
    LastWriteConcat(f1 + f2 + f3 + t, a, p);
    LastWriteOne(f1 + f2 + f3 + t + a, w, p);
    hide LastWrite;
  }

  lemma TimingShown(size: nat, p: Cell)
    requires size >= 21
    ensures LastWrite(TimingWrites(size, size - 16), p) == TimingShows(size, p)
  {
    TimingWritesShow(size, size - 16, p);
    hide LastWrite, TimingWrites;
  }

  lemma FunctionWritesShow(v: Version, p: Cell)
    requires Inside(p, SizeFor(v))
    ensures LastWrite(FunctionWrites(v), p) == PatternShows(v, p)
  {
    hide FinderRows, TimingWrites, AlignmentRows, AllInside, Alignment, LastWrite;
    hide FinderShows, AlignmentShows, TimingShows;
    var size, far := SizeFor(v), SizeFor(v) - 7;
    CentresOfVersion(v);
    FinderWritesShow(size, 0, 0, p);
    FinderWritesShow(size, 0, far, p);
    FinderWritesShow(size, far, 0, p);
    TimingShown(size, p);
    AlignmentRowsShow(size, Alignment(v), |Alignment(v)|, p);
    SixInTurn(FinderRows(size, 0, 0, 9), FinderRows(size, 0, far, 9), FinderRows(size, far, 0, 9),
              TimingWrites(size, size - 16), AlignmentRows(size, Alignment(v), |Alignment(v)|),
              Write(Cell(size - 8, 8), Dark), p);
  }

  /** Drawn over any grid, every cell shows its pattern, and the others are as they were. */
  lemma PatternsDrawn(v: Version, g: Grid, p: Cell)
    requires Square(g, |g|) && |g| == SizeFor(v) && Inside(p, |g|)
    ensures Get(PutAll(g, FunctionWrites(v)), p) == Over(PatternShows(v, p), Get(g, p))
  {
    hide PutAll, FunctionWrites, PatternShows, Get;
    LastWriteShows(g, FunctionWrites(v), p);
    FunctionWritesShow(v, p);
  }

  /** The three corners that hold a finder pattern. */
  predicate FinderCornerAt(size: nat, row: nat, col: nat) {
    size >= 21 && ((row == 0 && (col == 0 || col == size - 7)) || (row == size - 7 && col == 0))
  }

  /** A cell of one finder pattern is in no other, nor on a timing line, nor the dark module. */
  lemma FinderAlone(size: nat, row: nat, col: nat, p: Cell)
    requires FinderCornerAt(size, row, col) && Inside(p, size) && FinderShows(row, col, p).Some?
    ensures p != Cell(size - 8, 8) && TimingShows(size, p).None?
    ensures forall r: nat, c: nat :: FinderCornerAt(size, r, c) && FinderShows(r, c, p).Some? ==> r == row && c == col
  {
    hide FinderDark;
  }

  /** The three finder patterns are whole: nothing else is drawn over them. */
  lemma FindersWhole(v: Version, row: nat, col: nat, p: Cell)
    requires Inside(p, SizeFor(v)) && FinderCornerAt(SizeFor(v), row, col) && FinderShows(row, col, p).Some?
    ensures PatternShows(v, p) == FinderShows(row, col, p)
  {
    var size := SizeFor(v);
    FinderAlone(size, row, col, p);
    assert FinderCornerAt(size, 0, 0) && FinderCornerAt(size, 0, size - 7) && FinderCornerAt(size, size - 7, 0);
    CentresOfVersion(v);
    hide FinderShows, TimingShows, AlignmentShows, Alignment, InAlignment;
    AlignmentRowsShow(size, Alignment(v), |Alignment(v)|, p);
    if AlignmentShows(size, Alignment(v), |Alignment(v)|, p).Some? { AlignmentClear(v, p); }
  }

  /** Alignment patterns keep clear of the finder patterns and the dark module. */
  lemma AlignmentClear(v: Version, p: Cell)
    requires Inside(p, SizeFor(v)) && InAlignment(SizeFor(v), Alignment(v), p, |Alignment(v)|)
    ensures var far := SizeFor(v) - 7;
            FinderShows(0, 0, p).None? && FinderShows(0, far, p).None? && FinderShows(far, 0, p).None?
    ensures p != Cell(SizeFor(v) - 8, 8)
  {
    QrCapacity.RingsAre(v, p);
    hide FinderDark, InAlignment, Alignment;
  }

  // ------------------------------------------------------------ no module is left unset

  predicate AllSet(writes: seq<Write>) {
    forall i :: 0 <= i < |writes| ==> writes[i].module_ != Unset
  }

  lemma {:induction false} RowShowsSet(size: nat, centres: seq<nat>, r: nat, n: nat, p: Cell)
    requires n <= |centres|
    ensures RowShows(size, centres, r, n, p) != Some(Unset)
  {
    if n > 0 { RowShowsSet(size, centres, r, n - 1, p); }
  }

  lemma {:induction false} AlignmentShowsSet(size: nat, centres: seq<nat>, n: nat, p: Cell)
    requires n <= |centres|
    ensures AlignmentShows(size, centres, n, p) != Some(Unset)
  {
    hide RowShows;
    if n > 0 {
      RowShowsSet(size, centres, centres[n - 1], |centres|, p);
      AlignmentShowsSet(size, centres, n - 1, p);
    }
  }

  lemma PatternShowsSet(v: Version, p: Cell)
    ensures PatternShows(v, p) != Some(Unset)
  {
    hide AlignmentShows, FinderDark, Alignment;
    AlignmentShowsSet(SizeFor(v), Alignment(v), |Alignment(v)|, p);
  }

  lemma {:induction false} ReservedShows(g: Grid, cells: seq<Cell>, p: Cell)
    requires Square(g, |g|) && CellsInside(cells, |g|) && Inside(p, |g|)
    ensures Get(Reserved(g, cells), p) == if p in cells && Get(g, p) == Unset then Light else Get(g, p)
  {
    hide Get;
    if cells != [] {
      var k := |cells| - 1;
      ReservedShows(g, cells[..k], p);
      assert p in cells <==> p in cells[..k] || p == cells[k];
    }
  }

  /** The cells of the two copies of the format information. */
  predicate FormatZone(size: nat, p: Cell) {
    (p.row == 8 && (p.col < 9 || p.col >= size - 8)) || (p.col == 8 && (p.row < 9 || p.row >= size - 8))
  }

  lemma {:induction false} NearFormatCellsAre(n: nat, p: Cell)
    ensures p in NearFormatCells(n) <==> (p.row == 8 && p.col < n) || (p.col == 8 && p.row < n)
  {
    if n > 0 { NearFormatCellsAre(n - 1, p); }
  }

  lemma {:induction false} FarFormatCellsAre(size: nat, n: nat, p: Cell)
    requires n <= size && Inside(p, size)
    ensures p in FarFormatCells(size, n) <==> (p.row == 8 && p.col >= size - n) || (p.col == 8 && p.row >= size - n)
  {
    if n > 0 { FarFormatCellsAre(size, n - 1, p); }
  }

  lemma FormatCellsAre(size: nat, p: Cell)
    requires size >= 21 && Inside(p, size)
    ensures p in FormatCells(size) <==> FormatZone(size, p)
  {
    NearFormatCellsAre(9, p);
    FarFormatCellsAre(size, 8, p);
    hide NearFormatCells, FarFormatCells;
  }

  /** Every function cell is drawn on or reserved. */
  lemma FunctionCellsCovered(v: Version, p: Cell)
    requires Inside(p, SizeFor(v)) && IsFunction(v, SizeFor(v), p)
    ensures PatternShows(v, p).Some? || FormatZone(SizeFor(v), p)
  {
    CentresOfVersion(v);
    AlignmentRowsShow(SizeFor(v), Alignment(v), |Alignment(v)|, p);
    hide AlignmentShows, Alignment, InAlignment, FinderDark;
  }

  lemma BaseSet(bytes: seq<Byte>, v: Version, p: Cell)
    requires QrTables.Fits(|bytes|, v) && Inside(p, SizeFor(v))
    ensures Get(Base(bytes, v), p) != Unset
  {
    hide Codewords, DataCells, FunctionWrites, FormatCells, DataWrites, PutAll, Reserved, IsFunction, PatternShows;
    hide Get, DataBit, Distinct;
    var blank, size := Blank(SizeFor(v)), SizeFor(v);
    var drawn := PutAll(blank, FunctionWrites(v));
    var reserved := Reserved(drawn, FormatCells(size));
    DataCellsAre(v);
    WritesInside(DataCells(v), Codewords(bytes, v), size);
    LaidReads(Base(bytes, v), reserved, DataCells(v), Codewords(bytes, v));
    if p !in DataCells(v) {
      PatternsDrawn(v, blank, p);
      PatternShowsSet(v, p);
      ReservedShows(drawn, FormatCells(size), p);
      FunctionCellsCovered(v, p);
      FormatCellsAre(size, p);
    }
  }

  lemma {:induction false} LastWriteSet(writes: seq<Write>, p: Cell)
    requires AllSet(writes)
    ensures LastWrite(writes, p) != Some(Unset)
  {
    if writes != [] { LastWriteSet(writes[..|writes| - 1], p); }
  }

  lemma {:induction false} FormatStepsSet(size: nat, bits: nat, n: nat)
    requires size >= 21 && n <= 15
    ensures AllSet(FormatSteps(size, bits, n))
  {
    hide NearCell, FarCell;
    if n > 0 { FormatStepsSet(size, bits, n - 1); }
  }

  lemma FormatWritesSet(size: nat, k: MaskIndex)
    requires size >= 21
    ensures AllSet(FormatWrites(size, k))
  {
    hide FormatSteps, FormatBits;
    FormatStepsSet(size, FormatBits(k), 15);
  }

  /** Every module of a symbol is dark or light. */
  lemma SymbolSet(bytes: seq<Byte>, v: Version, k: MaskIndex, p: Cell)
    requires QrTables.Fits(|bytes|, v) && Inside(p, SizeFor(v))
    ensures Get(Symbol(bytes, v, k), p) != Unset
  {
    hide Base, FormatWrites, PutAll, IsFunction, MaskAt, LastWrite, AllSet;
    var masked := Masked(Base(bytes, v), v, k);
    BaseSet(bytes, v, p);
    assert Get(masked, p) == MaskedModule(Get(Base(bytes, v), p), v, k, p);
    FormatWritesSet(SizeFor(v), k);
    LastWriteSet(FormatWrites(SizeFor(v), k), p);
    LastWriteShows(masked, FormatWrites(SizeFor(v), k), p);
  }

  // ------------------------------------------------------------ both copies of the format information

  lemma FarCellOnce(size: nat, i: nat, j: nat)
    requires size >= 21 && i < 15 && 2 * i + 1 < j <= 30
    ensures FormatCell(size, j) != FarCell(size, i)
  {
  }

  predicate Shows(g: Grid, p: Cell, m: Module) {
    Square(g, |g|) && Inside(p, |g|) && Get(g, p) == m
  }

  lemma NearBitShows(g: Grid, k: MaskIndex, i: nat)
    requires Square(g, |g|) && |g| >= 21 && i < 15
    ensures Shows(PutAll(g, FormatWrites(|g|, k)), NearCell(i), FormatBit(FormatBits(k), i))
  {
    hide PutAll, FormatBits, FormatBit, FormatWrites;
    NearBitSurvives(g, k, i);
  }

  lemma FarBitSurvives(g: Grid, k: MaskIndex, i: nat)
    requires Square(g, |g|) && |g| >= 21 && i < 15
    ensures Shows(PutAll(g, FormatWrites(|g|, k)), FarCell(|g|, i), FormatBit(FormatBits(k), i))
  {
    var writes := FormatWrites(|g|, k);
    assert writes[2 * i + 1] == Write(FarCell(|g|, i), FormatBit(FormatBits(k), i));
    FormatWriteCells(|g|, k);
    hide PutAll, FormatBits, FormatBit, FormatWrites, FormatCell, NearCell, FarCell;
    forall j | 2 * i + 1 < j < |writes| ensures writes[j].cell != FarCell(|g|, i) {
      FarCellOnce(|g|, i, j);
    }
    PutAllLast(g, writes, 2 * i + 1);
  }

  /** The symbol carries all fifteen bits of its format twice, bit for bit. */
  lemma FormatCopiesAgree(bytes: seq<Byte>, v: Version, k: MaskIndex, i: nat)
    requires QrTables.Fits(|bytes|, v) && i < 15
    ensures SizeFor(v) >= 21
    ensures Shows(Symbol(bytes, v, k), NearCell(i), FormatBit(FormatBits(k), i))
    ensures Shows(Symbol(bytes, v, k), FarCell(SizeFor(v), i), FormatBit(FormatBits(k), i))
  {
    hide Shows;
    hide Base, FormatWrites, PutAll, FormatBits, FormatBit, NearCell, FarCell;
    CentresOfVersion(v);
    NearBitShows(Masked(Base(bytes, v), v, k), k, i);
    FarBitSurvives(Masked(Base(bytes, v), v, k), k, i);
  }
}
