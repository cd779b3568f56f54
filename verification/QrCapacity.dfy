// Every version has a data cell for every bit of its codewords.
//
// The data cells are counted column by column: from the rows of a column, at most
// the timing row, the finder rows and the rows of the alignment patterns drop out.
module QrCapacity {
  import opened QrTables
  import opened QrWalk
  import opened QrMatrix
  import opened QrPlacement

  // ---------------------------------------------------------------- counting free cells

  function Free(v: Version, row: nat, col: nat): nat {
    if IsFunction(v, SizeFor(v), Cell(row, col)) then 0 else 1
  }

  /** Free cells of a column, from row lo up to row hi. */
  function FreeRows(v: Version, col: nat, lo: nat, hi: nat): nat
    decreases hi
  {
    if hi <= lo then 0 else FreeRows(v, col, lo, hi - 1) + Free(v, hi - 1, col)
  }

  function FreeColumns(v: Version, n: nat): nat {
    if n == 0 then 0 else FreeColumns(v, n - 1) + FreeRows(v, n - 1, 0, SizeFor(v))
  }

  lemma {:induction false} FreeRowsFirst(v: Version, col: nat, lo: nat, hi: nat)
    requires lo < hi
    ensures FreeRows(v, col, lo, hi) == Free(v, lo, col) + FreeRows(v, col, lo + 1, hi)
    decreases hi
  {
    hide Free, FreeRows;
    FreeRowsLast(v, col, lo, hi);
    if lo < hi - 1 {
      FreeRowsFirst(v, col, lo, hi - 1);
      FreeRowsLast(v, col, lo + 1, hi);
    } else {
      FreeRowsNone(v, col, lo);
      FreeRowsNone(v, col, hi);
    }
  }

  lemma FreeRowsNone(v: Version, col: nat, lo: nat)
    ensures FreeRows(v, col, lo, lo) == 0
  {
  }

  lemma FreeRowsLast(v: Version, col: nat, lo: nat, hi: nat)
    requires lo < hi
    ensures FreeRows(v, col, lo, hi) == FreeRows(v, col, lo, hi - 1) + Free(v, hi - 1, col)
  {
    hide Free;
  }

  lemma StripCountNext(v: Version, before: seq<Cell>, row: nat, right: nat)
    requires right >= 1
    ensures |Kept(before + [Cell(row, right), Cell(row, right - 1)], FunctionCells(v))|
         == |Kept(before, FunctionCells(v))| + Free(v, row, right) + Free(v, row, right - 1)
  {
    hide Kept, IsFunction;
    var a, b := Cell(row, right), Cell(row, right - 1);
    KeptAppend(before, a, FunctionCells(v));
    KeptAppend(before + [a], b, FunctionCells(v));
    assert before + [a] + [b] == before + [a, b];
  }

  lemma {:induction false} StripCount(v: Version, right: nat, upward: bool, n: nat)
    requires 1 <= right && n <= SizeFor(v)
    ensures var size := SizeFor(v);
            var lo, hi := if upward then size - n else 0, if upward then size else n;
            |Kept(Strip(size, right, upward, n), FunctionCells(v))|
            == FreeRows(v, right, lo, hi) + FreeRows(v, right - 1, lo, hi)
  {
    hide Strip, Kept, FreeRows, Free, FunctionCells;
    var size := SizeFor(v);
    var skip := FunctionCells(v);
    FreeRowsNone(v, right, if upward then size else 0);
    FreeRowsNone(v, right - 1, if upward then size else 0);
    if n == 0 {
      StripNothing(size, right, upward);
      KeptNothing(skip);
    } else {
      StripCount(v, right, upward, n - 1);
      var row := RowAt(size, upward, n - 1);
      StripNext(size, right, upward, n - 1);
      StripCountNext(v, Strip(size, right, upward, n - 1), row, right);
      if upward {
        FreeRowsFirst(v, right, size - n, size);
        FreeRowsFirst(v, right - 1, size - n, size);
      } else {
        FreeRowsLast(v, right, 0, n);
        FreeRowsLast(v, right - 1, 0, n);
      }
    }
  }

  lemma {:induction false} TimingColumnFull(v: Version, n: nat)
    ensures FreeRows(v, 6, 0, n) == 0
  {
    if n > 0 {
      TimingColumnFull(v, n - 1);
    }
  }

  lemma {:induction false} WalkCount(v: Version, right: int, upward: bool)
    requires OnCourse(right)
    ensures |Kept(WalkFrom(SizeFor(v), right, upward), FunctionCells(v))| == FreeColumns(v, right + 1)
    decreases right
  {
    hide IsFunction, FreeRows, Strip, Kept;
    if right >= 1 {
      var size, r := SizeFor(v), Sidestep(right);
      var strip, rest := Strip(size, r, upward, size), WalkFrom(size, r - 2, !upward);
      WalkStep(size, right, upward);
      KeptConcat(strip, rest, FunctionCells(v));
      StripCount(v, r, upward, size);
      WalkCount(v, r - 2, !upward);
      TimingColumnFull(v, size);
      FreeColumnsTwo(v, r - 1);
      if right == 6 { FreeColumnsOne(v, 6); }
    } else {
      WalkDone(SizeFor(v), right, upward);
      KeptNothing(FunctionCells(v));
    }
  }

  lemma FreeColumnsOne(v: Version, n: nat)
    ensures FreeColumns(v, n + 1) == FreeColumns(v, n) + FreeRows(v, n, 0, SizeFor(v))
  {
  }

  lemma FreeColumnsTwo(v: Version, n: nat)
    ensures FreeColumns(v, n + 2)
         == FreeColumns(v, n) + FreeRows(v, n, 0, SizeFor(v)) + FreeRows(v, n + 1, 0, SizeFor(v))
  {
    FreeColumnsOne(v, n);
    FreeColumnsOne(v, n + 1);
  }

  // ---------------------------------------------------------------- rows that drop out

  /** How much of the interval from lo to hi lies below n. */
  function Below(n: nat, lo: int, hi: int): nat {
    if n <= lo || hi <= lo then 0 else if n >= hi then hi - lo else n - lo
  }

  predicate Near(x: nat, centre: nat) {
    Abs(x - centre) <= 2
  }

  /** The alignment centre between 6 and the last one, from version 7 on. */
  function Middle(v: Version): nat
    requires v >= 7
  {
    8 + 2 * v
  }

  function Last(v: Version): nat {
    SizeFor(v) - 7
  }

  predicate AroundCentre(p: Cell, r: nat, c: nat) {
    Near(p.row, r) && Near(p.col, c)
  }

  /** The patterns of the table, spelt out. */
  lemma RingsAre(v: Version, p: Cell)
    requires InAlignment(SizeFor(v), Alignment(v), p, |Alignment(v)|)
    ensures v >= 2
    ensures AroundCentre(p, Last(v), Last(v)) || (v >= 7 && MiddleRings(v, p))
  {
    if v >= 7 {
      RingsOfThree(SizeFor(v), p, Middle(v), Last(v));
    } else if v >= 2 {
      RingsOfTwo(SizeFor(v), p, Last(v));
    }
  }

  predicate MiddleRings(v: Version, p: Cell)
    requires v >= 7
  {
    var a, b := Middle(v), Last(v);
    || AroundCentre(p, 6, a) || AroundCentre(p, a, 6) || AroundCentre(p, a, a)
    || AroundCentre(p, a, b) || AroundCentre(p, b, a)
  }

  lemma RingsOfTwo(size: nat, p: Cell, b: nat)
    requires b == size - 7 && InAlignment(size, [6, b], p, 2)
    ensures AroundCentre(p, b, b)
  {
    assert !InAlignment(size, [6, b], p, 0);
    assert InAlignment(size, [6, b], p, 1) ==> InAlignmentRow(size, [6, b], p, 6, 2);
    RingsInRowOfTwo(size, p, 6, b);
    RingsInRowOfTwo(size, p, b, b);
  }

  lemma RingsInRowOfTwo(size: nat, p: Cell, r: nat, b: nat)
    ensures InAlignmentRow(size, [6, b], p, r, 2) ==> InRing(size, p, r, 6) || InRing(size, p, r, b)
  {
    assert !InAlignmentRow(size, [6, b], p, r, 0);
    assert InAlignmentRow(size, [6, b], p, r, 1) ==> InRing(size, p, r, 6);
  }

  lemma RingsOfThree(size: nat, p: Cell, a: nat, b: nat)
    requires b == size - 7 && InAlignment(size, [6, a, b], p, 3)
    ensures AroundCentre(p, 6, a) || AroundCentre(p, a, 6) || AroundCentre(p, a, a)
         || AroundCentre(p, a, b) || AroundCentre(p, b, a) || AroundCentre(p, b, b)
  {
    var cs := [6, a, b];
    RingsInRowOfThree(size, p, 6, a, b);
    RingsInRowOfThree(size, p, a, a, b);
    RingsInRowOfThree(size, p, b, a, b);
    assert !InAlignment(size, cs, p, 0);
    hide InAlignmentRow;
    assert InAlignment(size, cs, p, 1) ==> InAlignmentRow(size, cs, p, 6, 3);
    assert InAlignment(size, cs, p, 2) ==> InAlignment(size, cs, p, 1) || InAlignmentRow(size, cs, p, a, 3);
  }

  lemma RingsInRowOfThree(size: nat, p: Cell, r: nat, a: nat, b: nat)
    ensures InAlignmentRow(size, [6, a, b], p, r, 3) ==>
      InRing(size, p, r, 6) || InRing(size, p, r, a) || InRing(size, p, r, b)
  {
    var cs := [6, a, b];
    assert !InAlignmentRow(size, cs, p, r, 0);
    hide InRing;
    assert InAlignmentRow(size, cs, p, r, 1) ==> InRing(size, p, r, 6);
    assert InAlignmentRow(size, cs, p, r, 2) ==> InAlignmentRow(size, cs, p, r, 1) || InRing(size, p, r, a);
  }

  // ---------------------------------------------------------------- bounds per column

  /** Rows below n that finder patterns and format cells take from column col. */
  function FinderRowsBelow(v: Version, col: nat, n: nat): nat {
    var size := SizeFor(v);
    (if col < 9 || col >= size - 8 then Below(n, 0, 6) + Below(n, 7, 9) else 0)
    + (if col < 9 then Below(n, size - 8, size) else 0)
  }

  /** Rows below n that alignment patterns take from column col. */
  function RingRowsBelow(v: Version, col: nat, n: nat): nat {
    if v < 2 then 0
    else
      var b := Last(v);
      (if Near(col, b) then Below(n, b - 2, b + 3) else 0)
      + (if v < 7 then 0
         else
           var a := Middle(v);
           (if Near(col, 6) then Below(n, a - 2, a + 3) else 0)
           + (if Near(col, a)
              then Below(n, 4, 6) + Below(n, 7, 9) + Below(n, a - 2, a + 3) + Below(n, b - 2, b + 3) else 0)
           + (if Near(col, b) then Below(n, a - 2, a + 3) else 0))
  }

  lemma FunctionRowCounted(v: Version, row: nat, col: nat)
    requires col != 6 && IsFunction(v, SizeFor(v), Cell(row, col))
    requires row < SizeFor(v) && col < SizeFor(v)
    ensures Below(row + 1, 6, 7) + FinderRowsBelow(v, col, row + 1) + RingRowsBelow(v, col, row + 1)
         >= Below(row, 6, 7) + FinderRowsBelow(v, col, row) + RingRowsBelow(v, col, row) + 1
  {
    if InAlignment(SizeFor(v), Alignment(v), Cell(row, col), |Alignment(v)|) {
      RingsAre(v, Cell(row, col));
    }
    hide InAlignment, Alignment;
  }

  lemma RowsBelowGrow(v: Version, col: nat, n: nat)
    ensures Below(n, 6, 7) <= Below(n + 1, 6, 7)
    ensures FinderRowsBelow(v, col, n) <= FinderRowsBelow(v, col, n + 1)
    ensures RingRowsBelow(v, col, n) <= RingRowsBelow(v, col, n + 1)
  {
  }

  lemma {:induction false} ColumnBound(v: Version, col: nat, n: nat)
    requires col != 6 && col < SizeFor(v) && n <= SizeFor(v)
    ensures FreeRows(v, col, 0, n) + Below(n, 6, 7) + FinderRowsBelow(v, col, n) + RingRowsBelow(v, col, n) >= n
  {
    hide IsFunction, FreeRows, FinderRowsBelow, RingRowsBelow, Below;
    if n == 0 {
    } else {
      ColumnBound(v, col, n - 1);
      FreeRowsLast(v, col, 0, n);
      RowsBelowGrow(v, col, n - 1);
      if IsFunction(v, SizeFor(v), Cell(n - 1, col)) {
        FunctionRowCounted(v, n - 1, col);
      }
    }
  }

  // ---------------------------------------------------------------- bounds over all columns

  /** What the patterns take from one column, besides the timing row. */
  function Taken(v: Version, col: nat): nat {
    var size := SizeFor(v);
    (if col < 9 || col >= size - 8 then 8 else 0) + (if col < 9 then 8 else 0)
    + (if v >= 2 && Near(col, Last(v)) then 5 else 0)
    + (if v >= 7 && Near(col, 6) then 5 else 0)
    + (if v >= 7 && Near(col, Middle(v)) then 14 else 0)
    + (if v >= 7 && Near(col, Last(v)) then 5 else 0)
  }

  lemma WholeColumn(v: Version, col: nat)
    requires col != 6 && col < SizeFor(v)
    ensures FreeRows(v, col, 0, SizeFor(v)) + 1 + Taken(v, col) >= SizeFor(v)
  {
    ColumnBound(v, col, SizeFor(v));
    hide FreeRows;
  }

  /** Taken, summed over the columns below n other than column 6. */
  function TakenBelow(v: Version, n: nat): nat {
    var size, b := SizeFor(v), Last(v);
    16 * (Below(n, 0, 6) + Below(n, 7, 9)) + 8 * Below(n, size - 8, size)
    + (if v >= 2 then 5 * Below(n, b - 2, b + 3) else 0)
    + (if v < 7 then 0
       else
         var a := Middle(v);
         5 * (Below(n, 4, 6) + Below(n, 7, 9)) + 14 * Below(n, a - 2, a + 3) + 5 * Below(n, b - 2, b + 3))
  }

  lemma TakenNext(v: Version, col: nat)
    requires col != 6 && col < SizeFor(v)
    ensures TakenBelow(v, col + 1) == TakenBelow(v, col) + Taken(v, col)
  {
  }

  lemma TakenTimingColumn(v: Version)
    ensures TakenBelow(v, 7) == TakenBelow(v, 6)
  {
  }

  lemma {:induction false} ColumnsBound(v: Version, n: nat)
    requires n <= SizeFor(v)
    ensures FreeColumns(v, n) + TakenBelow(v, n) >= (SizeFor(v) - 1) * (n - Below(n, 6, 7))
  {
    hide FreeRows, TakenBelow, Taken;
    var w := SizeFor(v) - 1;
    if n == 0 {
    } else {
      ColumnsBound(v, n - 1);
      FreeColumnsOne(v, n - 1);
      var m := n - 1 - Below(n - 1, 6, 7);
      if n - 1 == 6 {
        TimingColumnFull(v, SizeFor(v));
        TakenTimingColumn(v);
        assert n - Below(n, 6, 7) == m;
      } else {
        WholeColumn(v, n - 1);
        TakenNext(v, n - 1);
        assert n - Below(n, 6, 7) == m + 1;
        assert w * (m + 1) == w * m + w;
      }
    }
  }

  lemma EnoughFree(v: Version)
    ensures FreeColumns(v, SizeFor(v)) >= 8 * Row(v).total
  {
    hide FreeColumns, TakenBelow, Row;
    ColumnsBound(v, SizeFor(v));
    assert Below(SizeFor(v), 6, 7) == 1;
    CellsLeft(v);
  }

  lemma CellsLeft(v: Version)
    ensures (SizeFor(v) - 1) * (SizeFor(v) - 1) >= 8 * Row(v).total + TakenBelow(v, SizeFor(v))
  {
  }

  /** There is a data cell for every bit of every codeword, parity included. */
  lemma CodewordsFit(v: Version)
    ensures |DataCells(v)| >= 8 * Row(v).total
  {
    EnoughFree(v);
    hide FreeColumns, WalkFrom, Kept, Row;
    WalkCount(v, SizeFor(v) - 1, true);
  }
}
