// The tables of the encoder, for versions 1 to 10 at error-correction level M.
module QrTables {

  type Version = v: int | 1 <= v <= 10 witness 1

  /** Codewords in all, parity per block, then count and size of each group of blocks. */
  datatype VersionRow = VersionRow(total: nat, ecc: nat, g1: nat, g1cw: nat, g2: nat, g2cw: nat)

  function Row(v: Version): VersionRow {
    match v
    case 1 => VersionRow(26, 10, 1, 16, 0, 0)
    case 2 => VersionRow(44, 16, 1, 28, 0, 0)
    case 3 => VersionRow(70, 26, 1, 44, 0, 0)
    case 4 => VersionRow(100, 18, 2, 32, 0, 0)
    case 5 => VersionRow(134, 24, 2, 43, 0, 0)
    case 6 => VersionRow(172, 16, 4, 27, 0, 0)
    case 7 => VersionRow(196, 18, 4, 31, 0, 0)
    case 8 => VersionRow(242, 22, 2, 38, 2, 39)
    case 9 => VersionRow(292, 22, 3, 36, 2, 37)
    case 10 => VersionRow(346, 26, 4, 43, 1, 44)
  }

  function Alignment(v: Version): seq<nat> {
    match v
    case 1 => []
    case 2 => [6, 18]
    case 3 => [6, 22]
    case 4 => [6, 26]
    case 5 => [6, 30]
    case 6 => [6, 34]
    case 7 => [6, 22, 38]
    case 8 => [6, 24, 42]
    case 9 => [6, 26, 46]
    case 10 => [6, 28, 50]
  }

  function DataCapacity(v: Version): nat {
    var row := Row(v);
    row.g1 * row.g1cw + row.g2 * row.g2cw
  }

  function SizeFor(v: Version): nat {
    v * 4 + 17
  }

  /** Width of the character count. */
  function CountBits(v: Version): nat {
    if v < 10 then 8 else 16
  }

  predicate Fits(byteLength: nat, v: Version) {
    4 + CountBits(v) + byteLength * 8 <= DataCapacity(v) * 8
  }

  /** The smallest version that holds byteLength bytes, or 0 when none does. */
  method ChooseVersion(byteLength: nat) returns (v: int)
    ensures 0 <= v <= 10
    ensures v > 0 ==> Fits(byteLength, v)
    ensures forall w: Version :: (v == 0 || w < v) ==> !Fits(byteLength, w)
    ensures v == 0 <==> byteLength > 213
  {
    v := 1;
    while v <= 10
      invariant 1 <= v <= 11
      invariant forall w: Version :: w < v ==> !Fits(byteLength, w)
    {
      var needed := 4 + CountBits(v) + byteLength * 8;
      if needed <= DataCapacity(v) * 8 {
        assert Fits(byteLength, v);
        assert DataCapacity(v) <= 216 && (v < 10 ==> DataCapacity(v) <= 182);
        return;
      }
      v := v + 1;
    }
    assert !Fits(byteLength, 10);
    v := 0;
  }

  /** A capacity is never so large that the character count overflows its field. */
  lemma CountFits(byteLength: nat, v: Version)
    requires Fits(byteLength, v)
    ensures byteLength < if v < 10 then 256 else 65536
  {
    assert DataCapacity(v) <= 216;
  }

  /** Every row of the table accounts for all of its codewords. */
  lemma RowsAddUp(v: Version)
    ensures Row(v).total == DataCapacity(v) + Row(v).ecc * (Row(v).g1 + Row(v).g2)
    ensures Row(v).ecc >= 10 && Row(v).ecc <= 26 && Row(v).g1 >= 1
  {
  }
  /** Codewords that fit the cells left by the function patterns, as the standard counts them. */
  function CodewordsOf(v: Version): int {
    var n := |Alignment(v)|;
    ((16 * v + 128) * v + 64 - (if v < 2 then 0 else 25 * n * n - 10 * n - 55) - (if v < 7 then 0 else 36)) / 8
  }

  /** How many bytes each version holds at level M, and into how many blocks it splits them. */
  const MOST: seq<nat> := [14, 26, 42, 62, 84, 106, 122, 152, 180, 213]
  const BLOCKS: seq<nat> := [1, 1, 1, 2, 2, 4, 4, 4, 5, 5]

  lemma TotalIsStandard(v: Version)
    ensures Row(v).total == CodewordsOf(v)
  {
    CentresInSteps(v);
    hide Alignment;
    CodewordsByCount(v, |Alignment(v)|);
  }

  lemma CodewordsByCount(v: Version, n: nat)
    requires n == if v == 1 then 0 else if v < 7 then 2 else 3
    ensures Row(v).total ==
      ((16 * v + 128) * v + 64 - (if v < 2 then 0 else 25 * n * n - 10 * n - 55) - (if v < 7 then 0 else 36)) / 8
  {
  }

  /** The rows agree with ISO/IEC 18004:2015, tables 7 and 9; a block of the second group holds one byte more. */
  lemma RowsAreStandard(v: Version)
    ensures Fits(MOST[v - 1], v) && !Fits(MOST[v - 1] + 1, v)
    ensures Row(v).g1 + Row(v).g2 == BLOCKS[v - 1]
    ensures Row(v).g2 > 0 ==> Row(v).g2cw == Row(v).g1cw + 1
    ensures Row(v).g2 == 0 ==> Row(v).g2cw == 0
  {
  }

  /** Alignment centres run from 6 to the size less 7, and from version 7 on a third stands half-way. */
  lemma CentresInSteps(v: Version)
    ensures v == 1 <==> Alignment(v) == []
    ensures v > 1 ==> Alignment(v)[0] == 6 && Alignment(v)[|Alignment(v)| - 1] == SizeFor(v) - 7
    ensures |Alignment(v)| == if v == 1 then 0 else if v < 7 then 2 else 3
    ensures v >= 7 ==> 2 * Alignment(v)[1] == 6 + SizeFor(v) - 7
  {
  }
}
