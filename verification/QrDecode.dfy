// Decoding a matrix, and the round trip through every version and mask.
module QrDecode {
  import opened Bitwise
  import opened QrTables
  import opened QrFraming
  import opened QrBlocks
  import opened QrWalk
  import opened QrMatrix
  import opened QrPlacement
  import opened QrFormat
  import opened QrCapacity
  import opened QrCode

  datatype Decoding =
    | Decoded(bytes: seq<Byte>)
    | UnsupportedVersion
    | NotLevelM
    | UnsupportedMode(mode: nat)

  // ---------------------------------------------------------------- reading the walk

  function BitOf(m: Module): Bit {
    if m == Dark then 1 else 0
  }

  /** The modules of the cells, as bits. */
  function ReadCells(g: Grid, cells: seq<Cell>): (bits: seq<Bit>)
    requires Square(g, |g|) && CellsInside(cells, |g|)
    ensures |bits| == |cells|
    ensures forall i :: 0 <= i < |cells| ==> bits[i] == BitOf(Get(g, cells[i]))
  {
    if cells == [] then []
    else
      var k := |cells| - 1;
      ReadCells(g, cells[..k]) + [BitOf(Get(g, cells[k]))]
  }

  lemma ReadAppend(g: Grid, cells: seq<Cell>, p: Cell)
    requires Square(g, |g|) && CellsInside(cells, |g|) && Inside(p, |g|)
    ensures CellsInside(cells + [p], |g|)
    ensures ReadCells(g, cells + [p]) == ReadCells(g, cells) + [BitOf(Get(g, p))]
  {
    assert (cells + [p])[..|cells|] == cells;
    hide Get;
  }

  /**
   * For any odd size and any cells to skip: what was laid along the walk is what
   * reading along the walk returns.
   */
  lemma LaidIsRead(size: nat, skip: Cell -> bool, g: Grid, was: Grid, codewords: seq<Byte>)
    requires size >= 7 && size % 2 == 1 && |was| == size
    requires Laid(g, was, Kept(Walk(size), skip), codewords)
    ensures Square(g, |g|) && CellsInside(Kept(Walk(size), skip), |g|)
    ensures var bits := ReadCells(g, Kept(Walk(size), skip));
            forall i :: 0 <= i < |bits| ==> bits[i] == DataBit(codewords, i)
  {
    hide Walk, DataBit, Get, Distinct;
    WalkVisitsOnce(size);
    KeptDistinct(Walk(size), skip);
    LaidReads(g, was, Kept(Walk(size), skip), codewords);
  }

  /** The state of the reading loop after some cells of the walk. */
  ghost predicate ReadSoFar(bits: seq<Bit>, g: Grid, visited: seq<Cell>, v: Version)
    requires Square(g, |g|)
  {
    var kept := Kept(visited, FunctionCells(v));
    CellsInside(kept, |g|) && bits == ReadCells(g, kept)
  }

  lemma ReadNext(bits: seq<Bit>, g: Grid, visited: seq<Cell>, v: Version, p: Cell)
    requires Square(g, |g|) && |g| == SizeFor(v) && Inside(p, |g|)
    requires ReadSoFar(bits, g, visited, v)
    ensures if IsFunction(v, SizeFor(v), p) then ReadSoFar(bits, g, visited + [p], v)
            else ReadSoFar(bits + [BitOf(Get(g, p))], g, visited + [p], v)
  {
    hide Kept, IsFunction, Get, ReadCells, BitOf;
    var kept := Kept(visited, FunctionCells(v));
    KeptAppend(visited, p, FunctionCells(v));
    assert kept + [] == kept;
    ReadAppend(g, kept, p);
  }

  /** The innermost reading loop. */
  method ReadCell(g: Grid, v: Version, row: nat, col: nat, bits: seq<Bit>, ghost visited: seq<Cell>)
    returns (newBits: seq<Bit>)
    requires Square(g, |g|) && |g| == SizeFor(v) && row < |g| && col < |g|
    requires ReadSoFar(bits, g, visited, v)
    ensures ReadSoFar(newBits, g, visited + [Cell(row, col)], v)
  {
    hide ReadSoFar, IsFunction;
    ReadNext(bits, g, visited, v, Cell(row, col));
    newBits := bits;
    var skip := FunctionCell(v, |g|, row, col);
    if !skip {
      newBits := bits + [if g[row][col] == Dark then 1 else 0];
    }
  }

  method ReadStrip(g: Grid, v: Version, right: nat, upward: bool, bits: seq<Bit>, ghost visited: seq<Cell>)
    returns (newBits: seq<Bit>)
    requires Square(g, |g|) && |g| == SizeFor(v) && 1 <= right < |g|
    requires ReadSoFar(bits, g, visited, v)
    ensures ReadSoFar(newBits, g, visited + Strip(|g|, right, upward, |g|), v)
  {
    hide ReadSoFar, Strip;
    newBits := bits;
    StripNothing(|g|, right, upward);
    ghost var done := visited;
    for step := 0 to |g|
      invariant done == visited + Strip(|g|, right, upward, step)
      invariant ReadSoFar(newBits, g, done, v)
    {
      var row := if upward then |g| - 1 - step else step;
      newBits := ReadCell(g, v, row, right, newBits, done);
      done := done + [Cell(row, right)];
      newBits := ReadCell(g, v, row, right - 1, newBits, done);
      done := done + [Cell(row, right - 1)];
      StripNext(|g|, right, upward, step);
    }
  }

  /** The boustrophedon reading loop of decode. */
  method ReadWalk(g: Grid, v: Version) returns (bits: seq<Bit>)
    requires Square(g, |g|) && |g| == SizeFor(v)
    ensures CellsInside(DataCells(v), |g|) && bits == ReadCells(g, DataCells(v))
  {
    hide ReadSoFar, Strip, WalkFrom;
    bits := [];
    ghost var visited := [];
    ReadStart(g, v);
    var upward, right := true, |g| - 1;
    while right >= 1
      invariant right < |g| && OnCourse(right)
      invariant ReadSoFar(bits, g, visited, v)
      invariant visited + WalkFrom(|g|, right, upward) == Walk(|g|)
      decreases right
    {
      WalkStep(|g|, right, upward);
      if right == 6 { right := 5; }
      bits := ReadStrip(g, v, right, upward, bits, visited);
      visited := visited + Strip(|g|, right, upward, |g|);
      upward := !upward;
      right := right - 2;
    }
    WalkDone(|g|, right, upward);
    ReadEnd(bits, g, visited, v);
  }

  lemma ReadStart(g: Grid, v: Version)
    requires Square(g, |g|)
    ensures ReadSoFar([], g, [], v)
  {
  }

  lemma ReadEnd(bits: seq<Bit>, g: Grid, visited: seq<Cell>, v: Version)
    requires Square(g, |g|) && ReadSoFar(bits, g, visited, v) && visited == Walk(SizeFor(v))
    ensures CellsInside(DataCells(v), |g|) && bits == ReadCells(g, DataCells(v))
  {
  }

  // ---------------------------------------------------------------- bits to bytes

  /** The first n whole bytes of a bit stream. */
  function WholeBytes(bits: seq<Bit>, n: nat): (bytes: seq<Byte>)
    ensures |bytes| == n
    ensures forall k :: 0 <= k < n ==> bytes[k] == PackedByte(bits, k)
  {
    if n == 0 then [] else WholeBytes(bits, n - 1) + [PackedByte(bits, n - 1)]
  }

  /** The grouping loop of decode. */
  method GroupBytes(bits: seq<Bit>) returns (bytes: seq<Byte>)
    ensures bytes == WholeBytes(bits, |bits| / 8)
  {
    hide PackedByte;
    bytes := [];
    var i := 0;
    while i + 8 <= |bits|
      invariant i % 8 == 0 && i <= |bits|
      invariant bytes == WholeBytes(bits, i / 8)
    {
      var byte := GroupByte(bits, i);
      bytes := bytes + [byte];
      i := i + 8;
    }
  }

  method GroupByte(bits: seq<Bit>, i: nat) returns (byte: nat)
    requires i % 8 == 0 && i + 8 <= |bits|
    ensures byte == PackedByte(bits, i / 8)
  {
    byte := 0;
    for k := 0 to 8
      invariant byte == ValueOf(bits[i..i + k])
    {
      assert bits[i..i + k + 1][..k] == bits[i..i + k];
      byte := 2 * byte + bits[i + k];
    }
    EightBits(bits, i / 8);
  }

  lemma EightBits(bits: seq<Bit>, q: nat)
    requires 8 * q + 8 <= |bits|
    ensures ValueOf(bits[8 * q..8 * q + 8]) == PackedByte(bits, q)
  {
    hide ValueOf;
    ReadNone([], 0);
    var i := 8 * q;
    assert bits[i..i + 0] == [];
    ValueNext(bits, i, 1);
    ValueNext(bits, i, 2);
    ValueNext(bits, i, 3);
    ValueNext(bits, i, 4);
    ValueNext(bits, i, 5);
    ValueNext(bits, i, 6);
    ValueNext(bits, i, 7);
    ValueNext(bits, i, 8);
  }

  // ---------------------------------------------------------------- decode

  predicate Supported(size: nat) {
    size >= 17 && (size - 17) % 4 == 0 && 1 <= (size - 17) / 4 <= 10
  }

  /** The stream of codewords in a symbol whose mask is k. */
  function StreamOf(g: Grid, v: Version, k: MaskIndex): seq<Byte>
    requires Square(g, |g|) && |g| == SizeFor(v)
  {
    DataCellsAre(v);
    var bits := ReadCells(Masked(g, v, k), DataCells(v));
    WholeBytes(bits, |bits| / 8)
  }

  function DecodeData(data: seq<Byte>, v: Version): Decoding {
    match Parse(data, v)
    case Parsed(bytes) => Decoded(bytes)
    case WrongMode(mode) => UnsupportedMode(mode)
  }

  /** What decode returns, up to the bytes of the text. */
  function DecodeGrid(g: Grid): Decoding
    requires Square(g, |g|)
  {
    if !Supported(|g|) then UnsupportedVersion
    else
      var v := (|g| - 17) / 4;
      var format := FormatOf(NearBits(g, 15));
      if format.ec != 0 then NotLevelM
      else DecodeData(Flat(Dealt(BlockLengths(v), StreamOf(g, v, format.mask))), v)
  }

  lemma StreamLongEnough(g: Grid, v: Version, k: MaskIndex)
    requires Square(g, |g|) && |g| == SizeFor(v)
    ensures |StreamOf(g, v, k)| >= Row(v).total
    ensures |StreamOf(g, v, k)| >= Before(BlockLengths(v), Longest(BlockLengths(v)))
  {
    hide DataCells, Row, BlockLengths, Before, Masked, ReadCells, WholeBytes, DataCapacity, IsFunction, SizeFor;
    DataCellsAre(v);
    CodewordsFit(v);
    DataIsPart(v);
    BlocksHoldData(v);
    InterleavedLength(BlockLengths(v));
  }

  lemma DataIsPart(v: Version)
    ensures Row(v).total >= DataCapacity(v)
  {
  }

  /** The middle of decode: unmasking, the walk and the grouping. */
  method ReadStream(modules: Grid, version: Version, mask: MaskIndex) returns (stream: seq<Byte>)
    requires Square(modules, |modules|) && |modules| == SizeFor(version)
    ensures stream == StreamOf(modules, version, mask)
  {
    hide Masked, ReadCells, WholeBytes, DataCells;
    var unmasked := Masked(modules, version, mask);
    var bits := ReadWalk(unmasked, version);
    stream := GroupBytes(bits);
  }

  /** decode, up to the bytes of the text. */
  method Decode(modules: Grid) returns (r: Decoding)
    requires Square(modules, |modules|)
    ensures r == DecodeGrid(modules)
  {
    hide StreamOf, Dealt, Parse, FormatOf, NearBits, BlockLengths;
    var size := |modules|;
    if !Supported(size) { return UnsupportedVersion; }
    var version := (size - 17) / 4;
    var format := ReadFormat(modules);
    if format.ec != 0 { return NotLevelM; }
    var interleaved := ReadStream(modules, version, format.mask);
    StreamLongEnough(modules, version, format.mask);
    var blocks := Deal(BlockLengths(version), interleaved);
    var parsed := ParseData(Flat(blocks), version);
    r := match parsed case Parsed(bytes) => Decoded(bytes) case WrongMode(mode) => UnsupportedMode(mode);
  }
}
