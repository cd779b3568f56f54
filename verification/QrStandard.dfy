// Whether the blocks of real symbols keep the Reed-Solomon law of the standard.
//
// The longest byte strings of a version leave no room for padding, so the last data
// codeword ends in the low half of their last byte and a terminator of four zeros.
module QrStandard {
  import opened Bitwise
  import opened QrTables
  import opened QrFraming
  import opened QrBlocks
  import opened QrCode
  import Codewords

  // ---------------------------------------------------------------- the longest byte strings

  /** One byte more no longer fits. */
  predicate Fills(byteLength: nat, v: Version) {
    Fits(byteLength, v) && !Fits(byteLength + 1, v)
  }

  lemma FillsLength(byteLength: nat, v: Version)
    requires Fills(byteLength, v)
    ensures 4 + CountBits(v) + 8 * byteLength + 4 == 8 * DataCapacity(v)
    ensures DataCapacity(v) > 0
  {
    hide DataCapacity;
  }

  /** Smaller versions do not hold such a byte string, so the encoder chooses this one. */
  lemma FillsChosen(byteLength: nat, v: Version, w: Version)
    requires Fills(byteLength, v) && w < v
    ensures !Fits(byteLength, w)
  {
  }

  /** How many bytes the version holds at most. */
  function MostBytes(v: Version): (n: nat)
    ensures Fills(n, v)
  {
    DataCapacity(v) - (if v < 10 then 2 else 3)
  }

  // ---------------------------------------------------------------- their data codewords

  lemma BitsStep(value: nat, n: nat)
    ensures BitsOf(value, n + 1)[..n] == BitsOf(value / 2, n)
  {
  }

  lemma HighHalf(b: Byte)
    ensures BitsOf(b, 8)[..4] == BitsOf(b / 16, 4)
  {
    hide BitsOf;
    var b1, b2, b3 := b / 2, b / 2 / 2, b / 2 / 2 / 2;
    BitsStep(b, 7);
    BitsStep(b1, 6);
    BitsStep(b2, 5);
    BitsStep(b3, 4);
    assert b3 / 2 == b / 16;
    assert BitsOf(b, 8)[..4] == BitsOf(b, 8)[..7][..6][..5][..4];
  }

  /** What stands before the last byte in the frame of a byte string that fills the version. */
  function Before(s: seq<Byte>, v: Version): (bits: seq<Bit>)
    ensures |bits| == 4 + CountBits(v) + 8 * |s|
  {
    BitsOf(4, 4) + BitsOf(|s| + 1, CountBits(v)) + ByteBits(s)
  }

  lemma PayloadEnds(s: seq<Byte>, b: Byte, v: Version)
    ensures Payload(s + [b], v) == Before(s, v) + BitsOf(b, 8)
  {
    hide BitsOf;
    assert (s + [b])[..|s|] == s;
    var start := BitsOf(4, 4) + BitsOf(|s| + 1, CountBits(v));
    assert ByteBits(s + [b]) == ByteBits(s) + BitsOf(b, 8);
    assert start + (ByteBits(s) + BitsOf(b, 8)) == start + ByteBits(s) + BitsOf(b, 8);
  }

  lemma FourBitsLeft(payload: nat, capacityBits: nat)
    requires payload + 4 == capacityBits && capacityBits % 8 == 0
    ensures Terminator(payload, capacityBits) == 4
  {
  }

  lemma FrameEnds(s: seq<Byte>, b: Byte, v: Version)
    requires Fills(|s| + 1, v)
    ensures Frame(s + [b], v) == Before(s, v) + BitsOf(b, 8) + ZeroBits(4)
    ensures |Frame(s + [b], v)| == 8 * DataCapacity(v)
  {
    hide BitsOf, ZeroBits, Payload, Before, Fits;
    PayloadEnds(s, b, v);
    FillsLength(|s| + 1, v);
    hide DataCapacity, Terminator;
    FourBitsLeft(|Payload(s + [b], v)|, 8 * DataCapacity(v));
  }

  lemma NoPadding(s: seq<Byte>, b: Byte, v: Version)
    requires Fills(|s| + 1, v)
    ensures DataCodewords(s + [b], v) == Packed(Frame(s + [b], v))
  {
    hide Frame, Packed, Fits;
    FrameEnds(s, b, v);
    assert Padding(0) == [];
  }

  lemma PackedAgree(f: seq<Bit>, g: seq<Bit>, k: nat)
    requires |f| == |g| && 8 * k <= |f| && f[..8 * k] == g[..8 * k]
    ensures Packed(f)[..k] == Packed(g)[..k]
  {
    forall j | 0 <= j < k ensures PackedByte(f, j) == PackedByte(g, j) {
      SameByte(f, g, j, 8 * k);
    }
    hide PackedByte;
  }

  lemma SameByte(f: seq<Bit>, g: seq<Bit>, j: nat, n: nat)
    requires |f| == |g| && 8 * j + 8 <= n <= |f| && f[..n] == g[..n]
    ensures PackedByte(f, j) == PackedByte(g, j)
  {
    forall i | 0 <= i < n ensures f[i] == g[i] {
      assert f[..n][i] == g[..n][i];
    }
  }

  /** Last bytes with the same high half give frames that agree up to the last data codeword. */
  lemma FramesAgree(s: seq<Byte>, a: Byte, b: Byte, v: Version)
    requires Fills(|s| + 1, v) && a / 16 == b / 16
    ensures var k := 8 * (DataCapacity(v) - 1);
            && 0 <= k <= |Frame(s + [a], v)| && |Frame(s + [a], v)| == |Frame(s + [b], v)|
            && Frame(s + [a], v)[..k] == Frame(s + [b], v)[..k]
  {
    hide Frame, BitsOf, ZeroBits, Before;
    FillsLength(|s| + 1, v);
    FrameEnds(s, a, v);
    FrameEnds(s, b, v);
    HighHalf(a);
    HighHalf(b);
    hide DataCapacity, Fits, Fills;
    SamePrefix(Before(s, v), BitsOf(a, 8), BitsOf(b, 8), ZeroBits(4));
  }

  lemma SamePrefix(start: seq<Bit>, f: seq<Bit>, g: seq<Bit>, end: seq<Bit>)
    requires |f| == |g| == 8 && f[..4] == g[..4]
    ensures (start + f + end)[..|start| + 4] == (start + g + end)[..|start| + 4]
  {
    var n := |start| + 4;
    assert (start + f + end)[..n] == start + f[..4];
    assert (start + g + end)[..n] == start + g[..4];
  }

  /** The data codewords of two such byte strings differ in the last one, and nowhere else. */
  lemma LastCodewordDiffers(s: seq<Byte>, a: Byte, b: Byte, v: Version)
    requires Fills(|s| + 1, v) && a != b && a / 16 == b / 16
    ensures var x, y, k := DataCodewords(s + [a], v), DataCodewords(s + [b], v), DataCapacity(v) - 1;
            k >= 0 && x[..k] == y[..k] && x[k] != y[k]
  {
    hide Frame, Packed, DataCodewords, Parse, Fits;
    var x, y, k := DataCodewords(s + [a], v), DataCodewords(s + [b], v), DataCapacity(v) - 1;
    FillsLength(|s| + 1, v);
    FramesAgree(s, a, b, v);
    PackedAgree(Frame(s + [a], v), Frame(s + [b], v), k);
    NoPadding(s, a, v);
    NoPadding(s, b, v);
    FramingRoundTrip(s + [a], v);
    FramingRoundTrip(s + [b], v);
    hide DataCapacity;
    assert (s + [a])[|s|] != (s + [b])[|s|];
    assert x == x[..k] + [x[k]] && y == y[..k] + [y[k]];
  }

  // ---------------------------------------------------------------- the last block

  lemma LastLength(v: Version)
    ensures BlockLengths(v) != []
    ensures BlockLengths(v)[|BlockLengths(v)| - 1] > 0
  {
    var row := Row(v);
    RepeatNext(row.g1, row.g1cw);
    RepeatNext(row.g2, row.g2cw);
    hide Repeat;
  }

  lemma LastBlock(data: seq<Byte>, lengths: seq<nat>)
    requires lengths != [] && |data| == Total(lengths)
    ensures var k := lengths[|lengths| - 1];
            k <= |data| && Split(data, lengths)[|lengths| - 1] == data[|data| - k..]
  {
    hide Total, Split;
    var init, k := lengths[..|lengths| - 1], lengths[|lengths| - 1];
    assert lengths == init + [k];
    TotalConcat(init, [k]);
    TotalOne(k);
    var n := |data| - k;
    LastOfSplit(data[..n], init, data[n..]);
    assert data[..n] + data[n..] == data;
  }

  lemma LastOfSplit(data: seq<Byte>, init: seq<nat>, last: seq<Byte>)
    requires |data| == Total(init)
    ensures |data + last| == Total(init + [|last|])
    ensures Split(data + last, init + [|last|])[|init|] == last
  {
    hide Total, Split;
    SplitAppend(data, init, last);
  }

  /** The last data block of a symbol. */
  function LastOf(bytes: seq<Byte>, v: Version): seq<Byte>
    requires Fits(|bytes|, v)
  {
    LastLength(v);
    DataBlocks(bytes, v)[|BlockLengths(v)| - 1]
  }

  lemma LastOfEnds(bytes: seq<Byte>, v: Version)
    requires Fits(|bytes|, v)
    ensures var k := BlockLengths(v)[|BlockLengths(v)| - 1];
            && 0 < k <= DataCapacity(v)
            && LastOf(bytes, v) == DataCodewords(bytes, v)[DataCapacity(v) - k..]
  {
    hide Split, Total, BlockLengths, DataCodewords, DataCapacity, Fits;
    LastLength(v);
    BlocksHoldData(v);
    LastBlock(DataCodewords(bytes, v), BlockLengths(v));
  }

  /** The last data block and its parity keep the law of the standard. */
  ghost predicate LastKeepsLaw(bytes: seq<Byte>, v: Version)
    requires Fits(|bytes|, v)
  {
    RowsAddUp(v);
    Codewords.VanishesAtRoots(Codewords.Codeword(LastOf(bytes, v), Row(v).ecc), Row(v).ecc)
  }

  /** Of the longest byte strings that differ in the low half of the last byte alone, at most one keeps the law. */
  lemma LongestBreakLaw(s: seq<Byte>, a: Byte, b: Byte, v: Version)
    requires Fills(|s| + 1, v) && a != b && a / 16 == b / 16
    ensures !LastKeepsLaw(s + [a], v) || !LastKeepsLaw(s + [b], v)
  {
    hide DataCodewords, BlockLengths, DataCapacity, Fits, LastOf;
    var x, y, n := DataCodewords(s + [a], v), DataCodewords(s + [b], v), DataCapacity(v);
    LastCodewordDiffers(s, a, b, v);
    LastOfEnds(s + [a], v);
    LastOfEnds(s + [b], v);
    LastLength(v);
    var k := BlockLengths(v)[|BlockLengths(v)| - 1];
    ParityLengths(v);
    hide Row, Codewords.VanishesAtRoots, Codewords.Codeword, Fills;
    TailsBreakLaw(x, y, n - k, Row(v).ecc);
  }

  /** Two tails that differ in the last byte alone cannot both keep the law. */
  lemma TailsBreakLaw(x: seq<Byte>, y: seq<Byte>, from: nat, ecc: nat)
    requires |x| == |y| && from < |x| && 2 <= ecc <= 254
    requires x[..|x| - 1] == y[..|x| - 1] && x[|x| - 1] != y[|x| - 1]
    ensures !Codewords.VanishesAtRoots(Codewords.Codeword(x[from..], ecc), ecc)
         || !Codewords.VanishesAtRoots(Codewords.Codeword(y[from..], ecc), ecc)
  {
    hide Codewords.VanishesAtRoots, Codewords.Codeword;
    var last := |x| - 1;
    var head := x[..last][from..];
    assert x[from..] == head + [x[last]];
    assert y[from..] == head + [y[last]];
    Codewords.OneLastByteAtMost(head, x[last], y[last], ecc);
  }

  lemma ParityLengths(v: Version)
    ensures 10 <= Row(v).ecc <= 26
  {
  }

  /** Every version has byte strings, and the encoder chooses it for them, whose symbol breaks the law. */
  lemma EveryVersionBreaksLaw(v: Version)
    ensures exists bytes: seq<Byte> ::
              && Fits(|bytes|, v) && !LastKeepsLaw(bytes, v)
              && forall w: Version :: w < v ==> !Fits(|bytes|, w)
  {
    hide LastKeepsLaw, Fits;
    var n := MostBytes(v);
    var s: seq<Byte> := seq(n - 1, _ => 0);
    assert |s + [0]| == n && |s + [1]| == n;
    LongestBreakLaw(s, 0, 1, v);
    forall w: Version | w < v ensures !Fits(n, w) {
      FillsChosen(n, v, w);
    }
    var bytes := if LastKeepsLaw(s + [0], v) then s + [1] else s + [0];
    assert Fits(|bytes|, v) && !LastKeepsLaw(bytes, v);
  }
}
