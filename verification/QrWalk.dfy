// The two-column up-and-down walk that both placement and reading follow.
//
// It is studied for any size and any set of cells to skip.
module QrWalk {

  datatype Cell = Cell(row: nat, col: nat)

  predicate Distinct(cells: seq<Cell>) {
    forall i, j :: 0 <= i < j < |cells| ==> cells[i] != cells[j]
  }

  // ---------------------------------------------------------------- the walk

  function RowAt(size: nat, upward: bool, step: nat): nat
    requires step < size
  {
    if upward then size - 1 - step else step
  }

  /** The first n steps along the columns right and right - 1. */
  function Strip(size: nat, right: nat, upward: bool, n: nat): seq<Cell>
    requires 1 <= right && n <= size
  {
    if n == 0 then []
    else
      var row := RowAt(size, upward, n - 1);
      Strip(size, right, upward, n - 1) + [Cell(row, right), Cell(row, right - 1)]
  }

  /** Column 6 carries the timing pattern and is stepped over. */
  function Sidestep(right: int): int {
    if right == 6 then 5 else right
  }

  /** The walk from the columns right and right - 1 leftwards. */
  function WalkFrom(size: nat, right: int, upward: bool): seq<Cell>
    decreases right
  {
    if right < 1 then []
    else Strip(size, Sidestep(right), upward, size) + WalkFrom(size, Sidestep(right) - 2, !upward)
  }

  function Walk(size: nat): seq<Cell> {
    WalkFrom(size, size - 1, true)
  }

  /** The cells of the list that are not to be skipped. */
  function Kept(cells: seq<Cell>, skip: Cell -> bool): seq<Cell> {
    if cells == [] then []
    else
      var k := |cells| - 1;
      Kept(cells[..k], skip) + (if skip(cells[k]) then [] else [cells[k]])
  }

  lemma WalkStep(size: nat, right: int, upward: bool)
    requires right >= 1
    ensures WalkFrom(size, right, upward)
         == Strip(size, Sidestep(right), upward, size) + WalkFrom(size, Sidestep(right) - 2, !upward)
  {
  }

  lemma WalkDone(size: nat, right: int, upward: bool)
    requires right < 1
    ensures WalkFrom(size, right, upward) == []
  {
  }

  lemma KeptNothing(skip: Cell -> bool)
    ensures Kept([], skip) == []
  {
  }

  lemma KeptAppend(cells: seq<Cell>, p: Cell, skip: Cell -> bool)
    ensures Kept(cells + [p], skip) == Kept(cells, skip) + (if skip(p) then [] else [p])
  {
    assert (cells + [p])[..|cells|] == cells;
  }

  // ---------------------------------------------------------------- it visits every cell once

  /** The columns a walk of odd size passes through on its way. */
  predicate OnCourse(right: int) {
    (right >= 6 && right % 2 == 0) || (-1 <= right < 6 && right % 2 == 1)
  }

  lemma {:induction false} StripCovers(size: nat, right: nat, upward: bool, n: nat, p: Cell)
    requires 1 <= right && n <= size
    ensures p in Strip(size, right, upward, n) <==>
      && (p.col == right || p.col == right - 1)
      && (if upward then size - n <= p.row < size else p.row < n)
  {
    if n > 0 { StripCovers(size, right, upward, n - 1, p); }
  }

  lemma {:induction false} StripDistinct(size: nat, right: nat, upward: bool, n: nat)
    requires 1 <= right && n <= size
    ensures Distinct(Strip(size, right, upward, n))
  {
    if n > 0 {
      StripDistinct(size, right, upward, n - 1);
      var row := RowAt(size, upward, n - 1);
      StripCovers(size, right, upward, n - 1, Cell(row, right));
      StripCovers(size, right, upward, n - 1, Cell(row, right - 1));
    }
  }

  lemma {:induction false} WalkCovers(size: nat, right: int, upward: bool, p: Cell)
    requires OnCourse(right)
    ensures p in WalkFrom(size, right, upward) <==> p.row < size && p.col <= right && p.col != 6
    decreases right
  {
    hide WalkFrom, Strip;
    if right >= 1 {
      var r := Sidestep(right);
      WalkStep(size, right, upward);
      StripCovers(size, r, upward, size, p);
      WalkCovers(size, r - 2, !upward, p);
    } else {
      WalkDone(size, right, upward);
    }
  }

  lemma {:induction false} WalkDistinct(size: nat, right: int, upward: bool)
    requires OnCourse(right)
    ensures Distinct(WalkFrom(size, right, upward))
    decreases right
  {
    hide WalkFrom, Strip;
    if right >= 1 {
      var r := Sidestep(right);
      var strip, rest := Strip(size, r, upward, size), WalkFrom(size, r - 2, !upward);
      WalkStep(size, right, upward);
      StripDistinct(size, r, upward, size);
      WalkDistinct(size, r - 2, !upward);
      forall i, j | 0 <= i < |strip| && 0 <= j < |rest| ensures strip[i] != rest[j] {
        StripCovers(size, r, upward, size, strip[i]);
        WalkCovers(size, r - 2, !upward, rest[j]);
      }
    } else {
      WalkDone(size, right, upward);
    }
  }

  /** A walk of odd size visits each cell outside column 6 exactly once, and no other. */
  lemma WalkVisitsOnce(size: nat)
    requires size >= 7 && size % 2 == 1
    ensures Distinct(Walk(size))
    ensures forall p: Cell :: p in Walk(size) <==> p.row < size && p.col < size && p.col != 6
  {
    WalkDistinct(size, size - 1, true);
    forall p: Cell
      ensures p in Walk(size) <==> p.row < size && p.col < size && p.col != 6
    {
      WalkCovers(size, size - 1, true, p);
    }
  }

  lemma {:induction false} KeptMembers(cells: seq<Cell>, skip: Cell -> bool, p: Cell)
    ensures p in Kept(cells, skip) <==> p in cells && !skip(p)
  {
    if cells != [] { KeptMembers(cells[..|cells| - 1], skip, p); }
  }

  lemma {:induction false} KeptDistinct(cells: seq<Cell>, skip: Cell -> bool)
    requires Distinct(cells)
    ensures Distinct(Kept(cells, skip))
  {
    if cells != [] {
      var k := |cells| - 1;
      KeptDistinct(cells[..k], skip);
      KeptMembers(cells[..k], skip, cells[k]);
    }
  }

  lemma {:induction false} KeptConcat(a: seq<Cell>, b: seq<Cell>, skip: Cell -> bool)
    ensures Kept(a + b, skip) == Kept(a, skip) + Kept(b, skip)
  {
    hide Kept;
    if b == [] {
      KeptNothing(skip);
      assert a + b == a;
    } else {
      var k := |b| - 1;
      KeptConcat(a, b[..k], skip);
      KeptAppend(b[..k], b[k], skip);
      KeptAppend(a + b[..k], b[k], skip);
      assert b == b[..k] + [b[k]];
      assert a + b == a + b[..k] + [b[k]];
    }
  }

  // ---------------------------------------------------------------- writing and reading along the walk

  datatype Module = Unset | Light | Dark

  type Grid = seq<seq<Module>>

  predicate Square(g: Grid, size: nat) {
    |g| == size && forall r :: 0 <= r < size ==> |g[r]| == size
  }

  predicate Inside(p: Cell, size: nat) {
    p.row < size && p.col < size
  }

  function Get(g: Grid, p: Cell): Module
    requires Square(g, |g|) && Inside(p, |g|)
  {
    g[p.row][p.col]
  }

  function Put(g: Grid, p: Cell, v: Module): (g': Grid)
    requires Square(g, |g|) && Inside(p, |g|)
    ensures Square(g', |g'|) && |g'| == |g|
    ensures forall q: Cell :: Inside(q, |g|) ==> Get(g', q) == if q == p then v else Get(g, q)
  {
    g[p.row := g[p.row][p.col := v]]
  }

  datatype Write = Write(cell: Cell, module_: Module)

  predicate AllInside(writes: seq<Write>, size: nat) {
    forall i :: 0 <= i < |writes| ==> Inside(writes[i].cell, size)
  }

  /** All writes in order; later ones win. */
  function PutAll(g: Grid, writes: seq<Write>): (g': Grid)
    requires Square(g, |g|) && AllInside(writes, |g|)
    ensures Square(g', |g'|) && |g'| == |g|
  {
    if writes == [] then g
    else
      var k := |writes| - 1;
      Put(PutAll(g, writes[..k]), writes[k].cell, writes[k].module_)
  }

  /** A cell no write touches keeps its module. */
  lemma {:induction false} PutAllElsewhere(g: Grid, writes: seq<Write>, p: Cell)
    requires Square(g, |g|) && AllInside(writes, |g|) && Inside(p, |g|)
    requires forall i :: 0 <= i < |writes| ==> writes[i].cell != p
    ensures Get(PutAll(g, writes), p) == Get(g, p)
  {
    if writes != [] { PutAllElsewhere(g, writes[..|writes| - 1], p); }
  }

  /** The last write to a cell decides its module. */
  lemma {:induction false} PutAllLast(g: Grid, writes: seq<Write>, i: nat)
    requires Square(g, |g|) && AllInside(writes, |g|) && i < |writes|
    requires forall j :: i < j < |writes| ==> writes[j].cell != writes[i].cell
    ensures Get(PutAll(g, writes), writes[i].cell) == writes[i].module_
  {
    var k := |writes| - 1;
    if i < k { PutAllLast(g, writes[..k], i); }
  }
}
