// Encoding bytes as a symbol, reading a symbol back, and the round trip.
module QrCode {
  import opened Bitwise
  import opened Gf256
  import opened QrTables
  import opened QrFraming
  import opened QrBlocks
  import opened QrWalk
  import opened QrMatrix
  import opened QrPlacement
  import opened QrFormat
  import opened QrPenalty
  import ReedSolomon

  // ---------------------------------------------------------------- codewords

  function Repeat(n: nat, x: nat): (s: seq<nat>)
    ensures |s| == n
  {
    if n == 0 then [] else Repeat(n - 1, x) + [x]
  }

  function BlockLengths(v: Version): seq<nat> {
    var row := Row(v);
    Repeat(row.g1, row.g1cw) + Repeat(row.g2, row.g2cw)
  }

  lemma {:induction false} TotalConcat(a: seq<nat>, b: seq<nat>)
    ensures Total(a + b) == Total(a) + Total(b)
  {
    if a == [] {
      assert a + b == b;
    } else {
      TotalConcat(a[1..], b);
      assert (a + b)[1..] == a[1..] + b;
    }
  }

  lemma RepeatNext(n: nat, x: nat)
    ensures Repeat(n, x) == if n == 0 then [] else Repeat(n - 1, x) + [x]
  {
  }

  lemma TotalNothing()
    ensures Total([]) == 0
  {
  }

  lemma TotalOne(x: nat)
    ensures Total([x]) == x
  {
    assert [x][1..] == [];
  }

  lemma OneMore(n: nat, x: nat)
    requires n > 0
    ensures n * x == (n - 1) * x + x
  {
  }

  lemma {:induction false} TotalRepeat(n: nat, x: nat)
    ensures Total(Repeat(n, x)) == n * x
  {
    hide Total, Repeat;
    RepeatNext(n, x);
    if n == 0 {
      TotalNothing();
    } else {
      TotalRepeat(n - 1, x);
      TotalConcat(Repeat(n - 1, x), [x]);
      TotalOne(x);
      OneMore(n, x);
    }
  }

  lemma BlocksHoldData(v: Version)
    ensures Total(BlockLengths(v)) == DataCapacity(v)
  {
    var row := Row(v);
    TotalRepeat(row.g1, row.g1cw);
    TotalRepeat(row.g2, row.g2cw);
    TotalConcat(Repeat(row.g1, row.g1cw), Repeat(row.g2, row.g2cw));
    hide Total, Repeat, Row;
  }

  /** The data blocks of a symbol. */
  function DataBlocks(bytes: seq<Byte>, v: Version): seq<seq<Byte>>
    requires QrTables.Fits(|bytes|, v)
  {
    BlocksHoldData(v);
    Split(DataCodewords(bytes, v), BlockLengths(v))
  }

  /** The parity of each block. */
  function ParityBlocks(blocks: seq<seq<Byte>>, n: nat): (parities: seq<seq<Byte>>)
    requires n > 0
    ensures |parities| == |blocks|
    ensures forall b :: 0 <= b < |blocks| ==> parities[b] == ReedSolomon.Parity(blocks[b], n)
  {
    if blocks == [] then []
    else ParityBlocks(blocks[..|blocks| - 1], n) + [ReedSolomon.Parity(blocks[|blocks| - 1], n)]
  }

  /** Data codewords interleaved, then parity codewords interleaved. */
  function Codewords(bytes: seq<Byte>, v: Version): seq<Byte>
    requires QrTables.Fits(|bytes|, v)
  {
    var blocks, n := DataBlocks(bytes, v), Row(v).ecc;
    RowsAddUp(v);
    Interleaved(blocks) + Rounds(ParityBlocks(blocks, n), n)
  }

  lemma {:induction false} SplitAppend(data: seq<Byte>, lengths: seq<nat>, more: seq<Byte>)
    requires |data| == Total(lengths)
    ensures Total(lengths + [|more|]) == |data + more|
    ensures Split(data + more, lengths + [|more|]) == Split(data, lengths) + [more]
  {
    TotalConcat(lengths, [|more|]);
    assert Total([|more|]) == |more|;
    if lengths == [] {
      SplitOne(more);
      assert data + more == more && lengths + [|more|] == [|more|];
      assert Split(data, lengths) == [];
      hide Split;
    } else {
      var k := lengths[0];
      SplitAppend(data[k..], lengths[1..], more);
      assert (data + more)[..k] == data[..k] && (data + more)[k..] == data[k..] + more;
      assert (lengths + [|more|])[1..] == lengths[1..] + [|more|];
    }
  }

  lemma SplitOne(more: seq<Byte>)
    ensures Total([|more|]) == |more| && Split(more, [|more|]) == [more]
  {
    assert [|more|][1..] == [];
    assert more[..|more|] == more;
  }

  /** One group of slices. */
  method SliceGroup(data: seq<Byte>, start: nat, count: nat, length: nat, before: seq<seq<Byte>>,
                    ghost lengths: seq<nat>)
    returns (blocks: seq<seq<Byte>>, offset: nat)
    requires start == Total(lengths) && start + count * length <= |data|
    requires before == Split(data[..start], lengths)
    ensures offset == start + count * length && offset == Total(lengths + Repeat(count, length))
    ensures blocks == Split(data[..offset], lengths + Repeat(count, length))
  {
    hide Split, Total;
    blocks, offset := before, start;
    assert lengths + Repeat(0, length) == lengths;
    for i := 0 to count
      invariant offset == start + i * length <= |data|
      invariant offset == Total(lengths + Repeat(i, length))
      invariant blocks == Split(data[..offset], lengths + Repeat(i, length))
    {
      StepsLeft(i, count, length);
      ghost var ls := lengths + Repeat(i, length);
      SplitAppend(data[..offset], ls, data[offset..offset + length]);
      assert data[..offset] + data[offset..offset + length] == data[..offset + length];
      assert ls + [length] == lengths + Repeat(i + 1, length);
      blocks := blocks + [data[offset..offset + length]];
      offset := offset + length;
    }
  }

  lemma StepsLeft(i: nat, count: nat, length: nat)
    requires i < count
    ensures i * length + length == (i + 1) * length <= count * length
  {
    assert count * length == (i + 1) * length + (count - i - 1) * length;
  }

  /** The splitting loops of buildCodewords. */
  method SplitBlocks(data: seq<Byte>, v: Version) returns (blocks: seq<seq<Byte>>)
    requires |data| == DataCapacity(v)
    ensures |data| == Total(BlockLengths(v)) && blocks == Split(data, BlockLengths(v))
  {
    hide Split, Total, Row, Repeat, DataCapacity;
    BlocksHoldData(v);
    GroupsHoldData(v);
    var row := Row(v);
    SplitNothing(data);
    var offset;
    blocks, offset := SliceGroup(data, 0, row.g1, row.g1cw, [], []);
    assert [] + Repeat(row.g1, row.g1cw) == Repeat(row.g1, row.g1cw);
    blocks, offset := SliceGroup(data, offset, row.g2, row.g2cw, blocks, Repeat(row.g1, row.g1cw));
    assert data[..offset] == data;
  }

  lemma GroupsHoldData(v: Version)
    ensures DataCapacity(v) == Row(v).g1 * Row(v).g1cw + Row(v).g2 * Row(v).g2cw
    ensures Row(v).g1 * Row(v).g1cw <= DataCapacity(v)
  {
    hide Row;
  }

  lemma SplitNothing(data: seq<Byte>)
    ensures Total([]) == 0 && data[..0] == [] && Split(data[..0], []) == []
  {
  }

  /** The parity loop: element i of every parity block, for each i. */
  method InterleaveParity(blocks: seq<seq<Byte>>, n: nat) returns (out: seq<Byte>)
    requires forall b :: 0 <= b < |blocks| ==> |blocks[b]| == n
    ensures out == Rounds(blocks, n)
  {
    out := [];
    for i := 0 to n
      invariant out == Rounds(blocks, i)
    {
      for b := 0 to |blocks|
        invariant out == Rounds(blocks, i) + Round(blocks, i, b)
      {
        out := out + [blocks[b][i]];
      }
    }
  }

  /** buildCodewords. */
  method BuildCodewords(exp: seq<Byte>, log: seq<nat>, bytes: seq<Byte>, v: Version) returns (out: seq<Byte>)
    requires IsExpTable(exp) && IsLogTable(log)
    requires QrTables.Fits(|bytes|, v)
    ensures out == Codewords(bytes, v)
  {
    hide Split, Total, Row, Interleaved, Rounds, ReedSolomon.Parity, IsExpTable, IsLogTable;
    var data := BuildData(bytes, v);
    var blocks := SplitBlocks(data, v);
    var n := Row(v).ecc;
    RowsAddUp(v);
    var parities: seq<seq<Byte>> := [];
    for b := 0 to |blocks|
      invariant parities == ParityBlocks(blocks[..b], n)
    {
      var parity := ReedSolomon.RsEncode(exp, log, blocks[b], n);
      assert blocks[..b + 1][..b] == blocks[..b];
      parities := parities + [parity[..]];
    }
    assert blocks[..|blocks|] == blocks;
    var first := Interleave(blocks);
    var second := InterleaveParity(parities, n);
    out := first + second;
  }

  // ---------------------------------------------------------------- the symbol

  /** The matrix before masking. */
  function Base(bytes: seq<Byte>, v: Version): (g: Grid)
    requires QrTables.Fits(|bytes|, v)
    ensures Square(g, |g|) && |g| == SizeFor(v)
  {
    var reserved := Reserved(PutAll(Blank(SizeFor(v)), FunctionWrites(v)), FormatCells(SizeFor(v)));
    DataCellsAre(v);
    WritesInside(DataCells(v), Codewords(bytes, v), SizeFor(v));
    PutAll(reserved, DataWrites(DataCells(v), Codewords(bytes, v)))
  }

  /** The finished symbol for one of the masks. */
  function Symbol(bytes: seq<Byte>, v: Version, k: MaskIndex): (g: Grid)
    requires QrTables.Fits(|bytes|, v)
    ensures Square(g, |g|) && |g| == SizeFor(v)
  {
    PutAll(Masked(Base(bytes, v), v, k), FormatWrites(SizeFor(v), k))
  }

  datatype Encoding =
    | Encoded(modules: Grid, version: Version, mask: MaskIndex)
    | NothingToEncode
    | TooLong

  /** Mask k is the first of the masks with the smallest penalty. */
  ghost predicate BestMask(bytes: seq<Byte>, v: Version, k: MaskIndex, n: nat)
    requires QrTables.Fits(|bytes|, v) && n <= 8
  {
    k < n && forall j: MaskIndex :: j < n ==>
      var mine, other := Penalty(Symbol(bytes, v, k)), Penalty(Symbol(bytes, v, j));
      mine <= other && (j < k ==> mine < other)
  }

  method BuildBase(exp: seq<Byte>, log: seq<nat>, bytes: seq<Byte>, v: Version) returns (base: Matrix)
    requires IsExpTable(exp) && IsLogTable(log)
    requires QrTables.Fits(|bytes|, v)
    ensures fresh(base) && base.Valid() && base.size == SizeFor(v) && base.modules == Base(bytes, v)
  {
    hide PutAll, Reserved, FunctionWrites, FormatCells, DataCells, Codewords, IsExpTable, IsLogTable;
    var codewords := BuildCodewords(exp, log, bytes, v);
    base := new Matrix(SizeFor(v));
    PlaceFunctionPatterns(base, v);
    ReserveFormat(base);
    PlaceData(base, v, codewords);
  }

  method Candidate(base: Matrix, v: Version, k: MaskIndex) returns (m: Matrix)
    requires base.Valid() && base.size == SizeFor(v)
    ensures fresh(m) && m.Valid() && m.size == SizeFor(v)
    ensures m.modules == PutAll(Masked(base.modules, v, k), FormatWrites(SizeFor(v), k))
  {
    hide PutAll, Masked, FormatWrites;
    m := ApplyMask(base, v, k);
    PlaceFormat(m, k);
  }

  /** encode, from the bytes of the text on. */
  method Encode(exp: seq<Byte>, log: seq<nat>, bytes: seq<Byte>) returns (r: Encoding)
    requires IsExpTable(exp) && IsLogTable(log)
    ensures r == NothingToEncode <==> bytes == []
    ensures r == TooLong <==> |bytes| > 213
    ensures r.Encoded? ==>
      && QrTables.Fits(|bytes|, r.version)
      && (forall w: Version :: w < r.version ==> !QrTables.Fits(|bytes|, w))
      && r.modules == Symbol(bytes, r.version, r.mask)
      && BestMask(bytes, r.version, r.mask, 8)
  {
    hide PutAll, Masked, FormatWrites, Penalty, Base, IsExpTable, IsLogTable, DataCapacity;
    if bytes == [] { return NothingToEncode; }
    var version := ChooseVersion(|bytes|);
    if version == 0 { return TooLong; }
    var base := BuildBase(exp, log, bytes, version);
    var best: Matrix?, score, mask := null, 0, 0;
    for k := 0 to 8
      invariant best == null <==> k == 0
      invariant best != null ==>
        && 0 <= mask < k && best.Valid() && best.modules == Symbol(bytes, version, mask)
        && score == Penalty(Symbol(bytes, version, mask)) && BestMask(bytes, version, mask, k)
      invariant base.Valid() && base.modules == Base(bytes, version)
    {
      var candidate := Candidate(base, version, k);
      var s := ComputePenalty(candidate.modules);
      if best == null || s < score {
        best, score, mask := candidate, s, k;
      }
    }
    r := Encoded(best.modules, version, mask);
  }
}
