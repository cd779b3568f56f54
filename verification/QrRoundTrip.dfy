// decode(encode(bytes)) == bytes, for every version and every mask.
module QrRoundTrip {
  import opened Bitwise
  import opened Gf256
  import opened QrTables
  import opened QrFraming
  import opened QrBlocks
  import opened QrWalk
  import opened QrMatrix
  import opened QrPlacement
  import opened QrFormat
  import opened QrCapacity
  import opened QrCode
  import opened QrDecode

  // ---------------------------------------------------------------- codewords in and out

  lemma {:induction false} RepeatOf(s: seq<nat>, x: nat)
    requires forall i :: 0 <= i < |s| ==> s[i] == x
    ensures s == Repeat(|s|, x)
  {
    if s != [] { RepeatOf(s[..|s| - 1], x); }
  }

  lemma ParityRoundsLength(blocks: seq<seq<Byte>>, n: nat)
    requires n > 0
    ensures |Rounds(ParityBlocks(blocks, n), n)| == |blocks| * n
  {
    hide Rounds, Before, Capped, Total, ParityBlocks;
    var parities := ParityBlocks(blocks, n);
    RoundsLength(parities, n);
    BeforeIsCapped(Lengths(parities), n);
    TotalIsCapped(Lengths(parities), n);
    RepeatOf(Lengths(parities), n);
    TotalRepeat(|blocks|, n);
  }

  lemma DataBlocksShape(bytes: seq<Byte>, v: Version)
    requires QrTables.Fits(|bytes|, v)
    ensures Lengths(DataBlocks(bytes, v)) == BlockLengths(v)
    ensures |DataBlocks(bytes, v)| == Row(v).g1 + Row(v).g2
  {
    hide Split, DataCodewords, Row;
  }

  /** The codewords of a symbol fill its version exactly. */
  lemma CodewordsLength(bytes: seq<Byte>, v: Version)
    requires QrTables.Fits(|bytes|, v)
    ensures |Interleaved(DataBlocks(bytes, v))| == DataCapacity(v)
    ensures |Codewords(bytes, v)| == Row(v).total
  {
    hide Rounds, DataBlocks, Row, DataCapacity, BlockLengths;
    var blocks := DataBlocks(bytes, v);
    DataBlocksShape(bytes, v);
    RoundsLength(blocks, Longest(Lengths(blocks)));
    InterleavedLength(BlockLengths(v));
    BlocksHoldData(v);
    RowsAddUp(v);
    ParityRoundsLength(blocks, Row(v).ecc);
    Commute(Row(v).g1 + Row(v).g2, Row(v).ecc);
  }

  lemma Commute(a: nat, b: nat)
    ensures a * b == b * a
  {
  }

  // ---------------------------------------------------------------- from cells back to codewords

  /** Unmasking the finished symbol shows, at each data cell, the bit that was laid there. */
  lemma DataCellReads(bytes: seq<Byte>, v: Version, k: MaskIndex, i: nat)
    requires QrTables.Fits(|bytes|, v) && i < |DataCells(v)|
    ensures Inside(DataCells(v)[i], SizeFor(v))
    ensures BitOf(Get(Masked(Symbol(bytes, v, k), v, k), DataCells(v)[i])) == DataBit(Codewords(bytes, v), i)
  {
    var p, base := DataCells(v)[i], Base(bytes, v);
    DataCellsAre(v);
    assert p in DataCells(v);
    BaseReads(bytes, v, i);
    hide DataCells, IsFunction, Base, PutAll, Codewords, FormatWrites, MaskAt, DataBit, Distinct, CellsInside;
    FormatMisses(Masked(base, v, k), v, k, p);
    hide Masked, BitOf;
    MaskedAgain(Symbol(bytes, v, k), base, v, k, p);
    DarkIsOne(DataBit(Codewords(bytes, v), i));
  }

  lemma DarkIsOne(b: Bit)
    ensures BitOf(Shade(b == 1)) == b
  {
  }

  lemma MaskedAgain(s: Grid, base: Grid, v: Version, k: MaskIndex, p: Cell)
    requires Square(s, |s|) && Square(base, |base|) && |s| == |base| && Inside(p, |s|)
    requires Get(s, p) == Get(Masked(base, v, k), p)
    ensures BitOf(Get(Masked(s, v, k), p)) == BitOf(Get(base, p))
  {
    hide IsFunction, MaskAt;
  }

  lemma BaseReads(bytes: seq<Byte>, v: Version, i: nat)
    requires QrTables.Fits(|bytes|, v) && i < |DataCells(v)|
    ensures Inside(DataCells(v)[i], SizeFor(v))
    ensures Get(Base(bytes, v), DataCells(v)[i]) == Shade(DataBit(Codewords(bytes, v), i) == 1)
  {
    hide DataCells, PutAll, Codewords, Reserved, FunctionWrites, FormatCells, Get, DataBit;
    DataCellsAre(v);
    var was := Reserved(PutAll(Blank(SizeFor(v)), FunctionWrites(v)), FormatCells(SizeFor(v)));
    WritesInside(DataCells(v), Codewords(bytes, v), SizeFor(v));
    LaidReads(Base(bytes, v), was, DataCells(v), Codewords(bytes, v));
  }

  lemma FormatMisses(g: Grid, v: Version, k: MaskIndex, p: Cell)
    requires Square(g, |g|) && |g| == SizeFor(v) && Inside(p, |g|) && !IsFunction(v, SizeFor(v), p)
    ensures Get(PutAll(g, FormatWrites(SizeFor(v), k)), p) == Get(g, p)
  {
    FormatWritesStay(v, k);
    hide IsFunction, PutAll, FormatWrites, Get;
    PutAllElsewhere(g, FormatWrites(SizeFor(v), k), p);
  }

  lemma ByteFromDigits(x: Byte)
    ensures 128 * (ShiftRight(x, 7) % 2) + 64 * (ShiftRight(x, 6) % 2) + 32 * (ShiftRight(x, 5) % 2)
          + 16 * (ShiftRight(x, 4) % 2) + 8 * (ShiftRight(x, 3) % 2) + 4 * (ShiftRight(x, 2) % 2)
          + 2 * (ShiftRight(x, 1) % 2) + ShiftRight(x, 0) % 2 == x
  {
    var x1, x2, x3 := x / 2, x / 2 / 2, x / 2 / 2 / 2;
    var x4, x5, x6 := x3 / 2, x3 / 2 / 2, x3 / 2 / 2 / 2;
    ShiftChain(x);
    assert x6 < 4;
  }

  lemma ShiftChain(x: nat)
    ensures ShiftRight(x, 0) == x && ShiftRight(x, 1) == x / 2
    ensures ShiftRight(x, 2) == ShiftRight(x, 1) / 2 && ShiftRight(x, 3) == ShiftRight(x, 2) / 2
    ensures ShiftRight(x, 4) == ShiftRight(x, 3) / 2 && ShiftRight(x, 5) == ShiftRight(x, 4) / 2
    ensures ShiftRight(x, 6) == ShiftRight(x, 5) / 2 && ShiftRight(x, 7) == ShiftRight(x, 6) / 2
  {
  }

  lemma BitAtIs(data: seq<Byte>, bits: seq<Bit>, j: nat, r: nat)
    requires j < |data| && 8 * j + 8 <= |bits| && r < 8
    requires forall i :: 0 <= i < |bits| ==> bits[i] == DataBit(data, i)
    ensures BitAt(bits, 8 * j + r) == ShiftRight(data[j], 7 - r) % 2
  {
    hide ShiftRight;
    assert bits[8 * j + r] == DataBit(data, 8 * j + r);
    assert (8 * j + r) / 8 == j && (8 * j + r) % 8 == r;
  }

  /** Packing the bits of a list of bytes gives the bytes back. */
  lemma PackedOfDataBits(data: seq<Byte>, bits: seq<Bit>, j: nat)
    requires j < |data| && 8 * j + 8 <= |bits|
    requires forall i :: 0 <= i < |bits| ==> bits[i] == DataBit(data, i)
    ensures PackedByte(bits, j) == data[j]
  {
    hide ShiftRight, BitAt, DataBit;
    ByteFromDigits(data[j]);
    BitAtIs(data, bits, j, 0);
    BitAtIs(data, bits, j, 1);
    BitAtIs(data, bits, j, 2);
    BitAtIs(data, bits, j, 3);
    BitAtIs(data, bits, j, 4);
    BitAtIs(data, bits, j, 5);
    BitAtIs(data, bits, j, 6);
    BitAtIs(data, bits, j, 7);
  }

  /** The bits the decoder reads off the walk are the bits of the codewords. */
  lemma WalkReads(bytes: seq<Byte>, v: Version, k: MaskIndex)
    requires QrTables.Fits(|bytes|, v)
    ensures CellsInside(DataCells(v), SizeFor(v))
    ensures var bits := ReadCells(Masked(Symbol(bytes, v, k), v, k), DataCells(v));
            forall i :: 0 <= i < |bits| ==> bits[i] == DataBit(Codewords(bytes, v), i)
  {
    DataCellsAre(v);
    hide Codewords, Symbol, DataCells, Masked, DataBit, BitOf, Get, Distinct, IsFunction;
    var g := Masked(Symbol(bytes, v, k), v, k);
    var bits := ReadCells(g, DataCells(v));
    forall i | 0 <= i < |bits| ensures bits[i] == DataBit(Codewords(bytes, v), i) {
      DataCellReads(bytes, v, k, i);
    }
  }

  lemma WholeBytesOf(data: seq<Byte>, bits: seq<Bit>)
    requires forall i :: 0 <= i < |bits| ==> bits[i] == DataBit(data, i)
    requires 8 * |data| <= |bits|
    ensures data <= WholeBytes(bits, |bits| / 8)
  {
    hide PackedByte, DataBit;
    forall j | 0 <= j < |data| ensures WholeBytes(bits, |bits| / 8)[j] == data[j] {
      PackedOfDataBits(data, bits, j);
    }
  }

  /** The decoder's stream begins with the codewords of the symbol, parity included. */
  lemma StreamCarriesCodewords(bytes: seq<Byte>, v: Version, k: MaskIndex)
    requires QrTables.Fits(|bytes|, v)
    ensures Codewords(bytes, v) <= StreamOf(Symbol(bytes, v, k), v, k)
  {
    hide Codewords, Symbol, DataCells, Masked, DataBit, Row, ReadCells, WholeBytes;
    WalkReads(bytes, v, k);
    CodewordsFit(v);
    CodewordsLength(bytes, v);
    WholeBytesOf(Codewords(bytes, v), ReadCells(Masked(Symbol(bytes, v, k), v, k), DataCells(v)));
  }

  /** Dealing out that stream gives the framed data back. */
  lemma StreamDealsData(bytes: seq<Byte>, v: Version, stream: seq<Byte>)
    requires QrTables.Fits(|bytes|, v) && Codewords(bytes, v) <= stream
    ensures Flat(Dealt(BlockLengths(v), stream)) == DataCodewords(bytes, v)
  {
    hide Rounds, Dealt, DataCodewords, BlockLengths, Row, Interleaved;
    var blocks := DataBlocks(bytes, v);
    DataBlocksShape(bytes, v);
    CodewordsStart(bytes, v, stream);
    DealtOfInterleaved(blocks, stream);
    BlocksHoldData(v);
    FlatOfSplit(DataCodewords(bytes, v), BlockLengths(v));
  }

  lemma CodewordsStart(bytes: seq<Byte>, v: Version, stream: seq<Byte>)
    requires QrTables.Fits(|bytes|, v) && Codewords(bytes, v) <= stream
    ensures Interleaved(DataBlocks(bytes, v)) <= stream
  {
    hide Interleaved, Rounds, DataBlocks, Row;
    RowsAddUp(v);
  }

  /** Decoding a matrix of version v whose format information says level M and mask k. */
  lemma DecodeByMask(g: Grid, v: Version, k: MaskIndex)
    requires Square(g, |g|) && |g| == SizeFor(v)
    requires FormatOf(NearBits(g, 15)) == Format(0, k)
    ensures DecodeGrid(g) == DecodeData(Flat(Dealt(BlockLengths(v), StreamOf(g, v, k))), v)
  {
    hide StreamOf, DecodeData, Flat, Dealt, BlockLengths, FormatOf, NearBits;
    assert (|g| - 17) / 4 == v;
  }

  /**
   * Every byte string that fits a version survives the symbol, whichever mask is
   * chosen; the decoder finds the version and the mask in the matrix itself.
   */
  lemma SymbolRoundTrip(bytes: seq<Byte>, v: Version, k: MaskIndex)
    requires QrTables.Fits(|bytes|, v)
    ensures DecodeGrid(Symbol(bytes, v, k)) == Decoded(bytes)
  {
    hide Symbol, StreamOf, Codewords, Parse, DataCodewords, Flat, Dealt, BlockLengths, FormatOf, NearBits, DecodeGrid;
    var symbol := Symbol(bytes, v, k);
    MaskIsRead(bytes, v, k);
    DecodeByMask(symbol, v, k);
    StreamCarriesCodewords(bytes, v, k);
    StreamDealsData(bytes, v, StreamOf(symbol, v, k));
    FramingRoundTrip(bytes, v);
  }

  lemma MaskIsRead(bytes: seq<Byte>, v: Version, k: MaskIndex)
    requires QrTables.Fits(|bytes|, v)
    ensures FormatOf(NearBits(Symbol(bytes, v, k), 15)) == Format(0, k)
  {
    hide PutAll, FormatWrites, Masked, NearBits, FormatOf, Base;
    FormatRoundTrip(Masked(Base(bytes, v), v, k), k);
  }

  /** Encoding and then decoding returns the bytes. */
  method EncodeThenDecode(exp: seq<Byte>, log: seq<nat>, bytes: seq<Byte>) returns (r: Decoding)
    requires IsExpTable(exp) && IsLogTable(log)
    requires 0 < |bytes| <= 213
    ensures r == Decoded(bytes)
  {
    hide Symbol, DecodeGrid, BestMask, QrTables.Fits;
    var encoding := Encode(exp, log, bytes);
    r := Decode(encoding.modules);
    SymbolRoundTrip(bytes, encoding.version, encoding.mask);
  }
}
