// What a finished symbol looks like outside its data, drawn as in ISO/IEC 18004:2015, section 6.3.
module QrPictures {
  import opened Bitwise
  import opened Options
  import opened QrTables
  import opened QrFraming
  import opened QrWalk
  import opened QrMatrix
  import opened QrPlacement
  import opened QrFormat
  import opened QrCode
  import opened QrPatterns

  /** A finder pattern with its separator; # is dark. */
  const FINDER: seq<string> := [
    ".........",
    ".#######.",
    ".#.....#.",
    ".#.###.#.",
    ".#.###.#.",
    ".#.###.#.",
    ".#.....#.",
    ".#######.",
    "........."]

  /** An alignment pattern. */
  const RING: seq<string> := [
    "#####",
    "#...#",
    "#.#.#",
    "#...#",
    "#####"]

  function InFinder(r: int, c: int): char
    requires -1 <= r <= 7 && -1 <= c <= 7
  {
    FinderSize(r + 1);
    FINDER[r + 1][c + 1]
  }

  lemma FinderSize(i: nat)
    requires i < 9
    ensures |FINDER[i]| == 9
  {
  }

  function InRingPicture(dr: int, dc: int): char
    requires -2 <= dr <= 2 && -2 <= dc <= 2
  {
    RingSize(dr + 2);
    RING[dr + 2][dc + 2]
  }

  lemma RingSize(i: nat)
    requires i < 5
    ensures |RING[i]| == 5
  {
  }

  lemma FinderDrawn(r: int, c: int)
    requires -1 <= r <= 7 && -1 <= c <= 7
    ensures FinderDark(r, c) <==> InFinder(r, c) == '#'
  {
  }

  lemma RingDrawn(dr: int, dc: int)
    requires -2 <= dr <= 2 && -2 <= dc <= 2
    ensures RingShade(dr, dc) == if InRingPicture(dr, dc) == '#' then Dark else Light
  {
  }

  // ---------------------------------------------------------------- the patterns in the symbol

  /** A cell of either copy of the format information. */
  predicate InFormat(size: nat, p: Cell) {
    || (p.row == 8 && ((p.col < 9 && p.col != 6) || p.col >= size - 8))
    || (p.col == 8 && ((p.row < 9 && p.row != 6) || p.row > size - 8))
  }

  lemma FormatCellInFormat(size: nat, j: nat)
    requires size >= 21 && j < 30
    ensures InFormat(size, FormatCell(size, j))
  {
  }

  /** Data and mask leave what was drawn on function cells. */
  lemma BaseShowsPattern(bytes: seq<Byte>, v: Version, k: MaskIndex, p: Cell)
    requires QrTables.Fits(|bytes|, v) && Inside(p, SizeFor(v)) && IsFunction(v, SizeFor(v), p)
    requires PatternShows(v, p).Some?
    ensures Get(Masked(Base(bytes, v), v, k), p) == PatternShows(v, p).value
  {
    hide Codewords, DataCells, FunctionWrites, FormatCells, DataWrites, PutAll, Reserved, IsFunction, PatternShows;
    hide Get, DataBit, Distinct, MaskAt;
    var blank, size := Blank(SizeFor(v)), SizeFor(v);
    var drawn := PutAll(blank, FunctionWrites(v));
    DataCellsAre(v);
    WritesInside(DataCells(v), Codewords(bytes, v), size);
    LaidReads(Base(bytes, v), Reserved(drawn, FormatCells(size)), DataCells(v), Codewords(bytes, v));
    PatternsDrawn(v, blank, p);
    PatternShowsSet(v, p);
    ReservedShows(drawn, FormatCells(size), p);
  }

  /** In a finished symbol every pattern shows wherever no format bit stands. */
  lemma SymbolShowsPattern(bytes: seq<Byte>, v: Version, k: MaskIndex, p: Cell)
    requires QrTables.Fits(|bytes|, v) && Inside(p, SizeFor(v)) && IsFunction(v, SizeFor(v), p)
    requires PatternShows(v, p).Some? && !InFormat(SizeFor(v), p)
    ensures Shows(Symbol(bytes, v, k), p, PatternShows(v, p).value)
  {
    hide Base, PutAll, IsFunction, PatternShows, Get, FormatWrites, MaskAt, InFormat, FormatCell;
    var size := SizeFor(v);
    BaseShowsPattern(bytes, v, k, p);
    DarkModuleShown(v);
    FormatWriteCells(size, k);
    var masked, writes := Masked(Base(bytes, v), v, k), FormatWrites(size, k);
    hide Masked;
    forall j | 0 <= j < 30 ensures writes[j].cell != p {
      FormatCellInFormat(size, j);
    }
    LastFormatWrite(size, k);
    if p == Cell(size - 8, 8) {
      PutAllLast(masked, writes, 30);
    } else {
      PutAllElsewhere(masked, writes, p);
    }
  }

  lemma DarkModuleShown(v: Version)
    ensures PatternShows(v, Cell(SizeFor(v) - 8, 8)) == Some(Dark)
  {
  }

  lemma LastFormatWrite(size: nat, k: MaskIndex)
    requires size >= 21
    ensures |FormatWrites(size, k)| == 31 && FormatWrites(size, k)[30] == Write(Cell(size - 8, 8), Dark)
  {
    hide FormatBits, FormatSteps;
  }

  lemma FinderIsFunction(v: Version, row: nat, col: nat, r: int, c: int)
    requires FinderCornerAt(SizeFor(v), row, col) && -1 <= r <= 7 && -1 <= c <= 7
    requires 0 <= row + r < SizeFor(v) && 0 <= col + c < SizeFor(v)
    ensures IsFunction(v, SizeFor(v), Cell(row + r, col + c)) && !InFormat(SizeFor(v), Cell(row + r, col + c))
  {
  }

  /** The three finder patterns of a finished symbol look as drawn, separators included. */
  lemma FindersLook(bytes: seq<Byte>, v: Version, k: MaskIndex, row: nat, col: nat, r: int, c: int)
    requires QrTables.Fits(|bytes|, v) && FinderCornerAt(SizeFor(v), row, col) && -1 <= r <= 7 && -1 <= c <= 7
    requires 0 <= row + r < SizeFor(v) && 0 <= col + c < SizeFor(v)
    ensures Shows(Symbol(bytes, v, k), Cell(row + r, col + c), if InFinder(r, c) == '#' then Dark else Light)
  {
    var p := Cell(row + r, col + c);
    FinderIsFunction(v, row, col, r, c);
    assert FinderShows(row, col, p) == Some(Shade(FinderDark(r, c)));
    FinderDrawn(r, c);
    hide IsFunction, InFormat, FinderDark, InFinder, PatternShows, Symbol, Shows;
    FindersWhole(v, row, col, p);
    SymbolShowsPattern(bytes, v, k, p);
  }

  // ---------------------------------------------------------------- alignment patterns and timing

  /** Centres are even, 6 or at least 18, and no two are nearer than 12. */
  predicate Spread(centres: seq<nat>) {
    && (forall i :: 0 <= i < |centres| ==> centres[i] % 2 == 0 && (centres[i] == 6 || centres[i] >= 18))
    && forall i, j :: 0 <= i < j < |centres| ==> centres[i] + 12 <= centres[j]
  }

  lemma CentresSpread(v: Version)
    ensures Spread(Alignment(v))
  {
  }

  lemma {:induction false} RowShowsRing(size: nat, centres: seq<nat>, r: nat, n: nat, c: nat, p: Cell)
    requires Spread(centres) && n <= |centres| && c in centres[..n] && InRing(size, p, r, c)
    ensures RowShows(size, centres, r, n, p) == Some(RingShade(p.row - r, p.col - c))
  {
    hide RingShade;
    if c != centres[n - 1] {
      var i :| 0 <= i < n && centres[i] == c;
      assert centres[i] + 12 <= centres[n - 1];
      assert c in centres[..n - 1];
      RowShowsRing(size, centres, r, n - 1, c, p);
    }
  }

  lemma {:induction false} RowShowsNone(size: nat, centres: seq<nat>, r: nat, n: nat, p: Cell)
    requires n <= |centres| && Abs(p.row - r) > 2
    ensures RowShows(size, centres, r, n, p).None?
  {
    hide RingShade;
    if n > 0 { RowShowsNone(size, centres, r, n - 1, p); }
  }

  lemma {:induction false} AlignmentShowsRing(size: nat, centres: seq<nat>, n: nat, r: nat, c: nat, p: Cell)
    requires Spread(centres) && n <= |centres| && r in centres[..n] && c in centres && InRing(size, p, r, c)
    ensures AlignmentShows(size, centres, n, p) == Some(RingShade(p.row - r, p.col - c))
  {
    hide RingShade, RowShows;
    var last := centres[n - 1];
    if r == last {
      assert centres[..|centres|] == centres;
      RowShowsRing(size, centres, r, |centres|, c, p);
    } else {
      var i :| 0 <= i < n && centres[i] == r;
      assert centres[i] + 12 <= last;
      assert r in centres[..n - 1];
      RowShowsNone(size, centres, last, |centres|, p);
      AlignmentShowsRing(size, centres, n - 1, r, c, p);
    }
  }

  lemma RingClear(v: Version, r: nat, c: nat, p: Cell)
    requires r in Alignment(v) && c in Alignment(v) && InRing(SizeFor(v), p, r, c)
    ensures Inside(p, SizeFor(v)) && IsFunction(v, SizeFor(v), p) && !InFormat(SizeFor(v), p)
    ensures p != Cell(SizeFor(v) - 8, 8)
    ensures PatternShows(v, p) == Some(RingShade(p.row - r, p.col - c))
  {
    var size, centres := SizeFor(v), Alignment(v);
    CentresOfVersion(v);
    CentresSpread(v);
    assert centres[..|centres|] == centres;
    AlignmentShowsRing(size, centres, |centres|, r, c, p);
    AlignmentRowsShow(size, centres, |centres|, p);
    AlignmentClear(v, p);
    CentresInside(v, r);
    CentresInside(v, c);
    hide AlignmentShows, Alignment, InAlignment, RingShade, Spread;
    RingOutsideFormat(v, r, c, p);
  }

  lemma CentresInside(v: Version, r: nat)
    requires r in Alignment(v)
    ensures 6 <= r <= SizeFor(v) - 7 && (r == 6 || r == SizeFor(v) - 7 || 18 <= r <= SizeFor(v) - 19)
  {
  }

  lemma RingOutsideFormat(v: Version, r: nat, c: nat, p: Cell)
    requires InRing(SizeFor(v), p, r, c)
    requires 6 <= r <= SizeFor(v) - 7 && (r == 6 || r == SizeFor(v) - 7 || 18 <= r <= SizeFor(v) - 19)
    requires 6 <= c <= SizeFor(v) - 7 && (c == 6 || c == SizeFor(v) - 7 || 18 <= c <= SizeFor(v) - 19)
    ensures Inside(p, SizeFor(v)) && !InFormat(SizeFor(v), p)
  {
  }

  /** Around every centre but those in the corners of the finder patterns, a finished symbol shows the ring as drawn. */
  lemma RingsLook(bytes: seq<Byte>, v: Version, k: MaskIndex, r: nat, c: nat, dr: int, dc: int)
    requires QrTables.Fits(|bytes|, v) && r in Alignment(v) && c in Alignment(v) && -2 <= dr <= 2 && -2 <= dc <= 2
    requires !((r == 6 && c == 6) || (r == 6 && c == SizeFor(v) - 7) || (r == SizeFor(v) - 7 && c == 6))
    ensures 0 <= r + dr && 0 <= c + dc
    ensures Shows(Symbol(bytes, v, k), Cell(r + dr, c + dc), if InRingPicture(dr, dc) == '#' then Dark else Light)
  {
    CentresInside(v, r);
    CentresInside(v, c);
    var p := Cell(r + dr, c + dc);
    assert InRing(SizeFor(v), p, r, c);
    RingDrawn(dr, dc);
    hide Alignment, RingShade, InRingPicture, IsFunction, PatternShows, InFormat, Symbol, Shows;
    RingClear(v, r, c, p);
    SymbolShowsPattern(bytes, v, k, p);
  }

  /** The module that is dark in every symbol. */
  lemma DarkModule(bytes: seq<Byte>, v: Version, k: MaskIndex)
    requires QrTables.Fits(|bytes|, v)
    ensures Shows(Symbol(bytes, v, k), Cell(SizeFor(v) - 8, 8), Dark)
  {
    var p := Cell(SizeFor(v) - 8, 8);
    DarkModuleShown(v);
    hide PatternShows, Symbol, Shows;
    SymbolShowsPattern(bytes, v, k, p);
  }

  lemma RingOnTiming(v: Version, r: nat, c: nat, p: Cell)
    requires r in Alignment(v) && c in Alignment(v) && InRing(SizeFor(v), p, r, c)
    ensures p.row == 6 ==> RingShade(p.row - r, p.col - c) == Shade(p.col % 2 == 0)
    ensures p.col == 6 ==> RingShade(p.row - r, p.col - c) == Shade(p.row % 2 == 0)
  {
    CentresSpread(v);
    hide Alignment;
    if p.row == 6 { EvenRing(p.col, c); }
    if p.col == 6 { EvenRing(p.row, r); }
  }

  lemma EvenRing(x: nat, c: nat)
    requires c % 2 == 0 && Abs(x - c) <= 2
    ensures Abs(x - c) == 1 <==> x % 2 == 1
  {
  }

  lemma TimingPattern(v: Version, p: Cell)
    requires TimingShows(SizeFor(v), p).Some?
    ensures Inside(p, SizeFor(v)) && IsFunction(v, SizeFor(v), p) && !InFormat(SizeFor(v), p)
    ensures PatternShows(v, p) == TimingShows(SizeFor(v), p)
  {
    var size, centres := SizeFor(v), Alignment(v);
    CentresOfVersion(v);
    AlignmentRowsShow(size, centres, |centres|, p);
    if AlignmentShows(size, centres, |centres|, p).Some? {
      RingOf(size, centres, |centres|, p);
      var r, c :| r in centres && c in centres && InRing(size, p, r, c);
      RingClear(v, r, c, p);
      RingOnTiming(v, r, c, p);
    }
    hide AlignmentShows, Alignment, InAlignment, RingShade, FinderDark;
  }

  lemma {:induction false} RingOf(size: nat, centres: seq<nat>, n: nat, p: Cell)
    requires n <= |centres| && InAlignment(size, centres, p, n)
    ensures exists r, c :: r in centres && c in centres && InRing(size, p, r, c)
  {
    if InAlignment(size, centres, p, n - 1) { RingOf(size, centres, n - 1, p); }
    else { RingInRow(size, centres, centres[n - 1], |centres|, p); }
  }

  lemma {:induction false} RingInRow(size: nat, centres: seq<nat>, r: nat, n: nat, p: Cell)
    requires n <= |centres| && r in centres && InAlignmentRow(size, centres, p, r, n)
    ensures exists r, c :: r in centres && c in centres && InRing(size, p, r, c)
  {
    if InAlignmentRow(size, centres, p, r, n - 1) { RingInRow(size, centres, r, n - 1, p); }
  }

  /** Between the finder patterns, row 6 and column 6 of a finished symbol alternate, alignment patterns or not. */
  lemma TimingLooks(bytes: seq<Byte>, v: Version, k: MaskIndex, i: nat)
    requires QrTables.Fits(|bytes|, v) && 8 <= i < SizeFor(v) - 8
    ensures Shows(Symbol(bytes, v, k), Cell(6, i), if i % 2 == 0 then Dark else Light)
    ensures Shows(Symbol(bytes, v, k), Cell(i, 6), if i % 2 == 0 then Dark else Light)
  {
    TimingPattern(v, Cell(6, i));
    TimingPattern(v, Cell(i, 6));
    hide PatternShows, Symbol, Shows, IsFunction, InFormat;
    SymbolShowsPattern(bytes, v, k, Cell(6, i));
    SymbolShowsPattern(bytes, v, k, Cell(i, 6));
  }
}
