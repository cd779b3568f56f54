// Splitting data into blocks, interleaving them, and dealing them out again.
//
// Everything here holds for any table of block lengths.
module QrBlocks {
  import opened Bitwise

  // ---------------------------------------------------------------- splitting

  function Total(lengths: seq<nat>): nat {
    if lengths == [] then 0 else lengths[0] + Total(lengths[1..])
  }

  /** Consecutive slices of the given lengths. */
  function Split(data: seq<Byte>, lengths: seq<nat>): (blocks: seq<seq<Byte>>)
    requires |data| == Total(lengths)
    ensures |blocks| == |lengths|
    ensures forall b :: 0 <= b < |lengths| ==> |blocks[b]| == lengths[b]
  {
    if lengths == [] then []
    else [data[..lengths[0]]] + Split(data[lengths[0]..], lengths[1..])
  }

  function Flat(blocks: seq<seq<Byte>>): seq<Byte> {
    if blocks == [] then [] else blocks[0] + Flat(blocks[1..])
  }

  lemma {:induction false} FlatOfSplit(data: seq<Byte>, lengths: seq<nat>)
    requires |data| == Total(lengths)
    ensures Flat(Split(data, lengths)) == data
  {
    if lengths != [] {
      FlatOfSplit(data[lengths[0]..], lengths[1..]);
      assert Split(data, lengths)[1..] == Split(data[lengths[0]..], lengths[1..]);
    }
  }

  // ---------------------------------------------------------------- interleaving

  function Lengths(blocks: seq<seq<Byte>>): seq<nat> {
    seq(|blocks|, b requires 0 <= b < |blocks| => |blocks[b]|)
  }

  function Longest(lengths: seq<nat>): (m: nat)
    ensures forall b :: 0 <= b < |lengths| ==> lengths[b] <= m
    ensures if lengths == [] then m == 0 else m in lengths
  {
    if lengths == [] then 0
    else
      var m := Longest(lengths[1..]);
      if lengths[0] > m then lengths[0] else m
  }

  /** Element i of each of the first n blocks that is long enough. */
  function Round(blocks: seq<seq<Byte>>, i: nat, n: nat): seq<Byte>
    requires n <= |blocks|
  {
    if n == 0 then []
    else Round(blocks, i, n - 1) + (if i < |blocks[n - 1]| then [blocks[n - 1][i]] else [])
  }

  /** The first m rounds. */
  function Rounds(blocks: seq<seq<Byte>>, m: nat): seq<Byte> {
    if m == 0 then [] else Rounds(blocks, m - 1) + Round(blocks, m - 1, |blocks|)
  }

  function Interleaved(blocks: seq<seq<Byte>>): seq<Byte> {
    Rounds(blocks, Longest(Lengths(blocks)))
  }

  /** How many of the first n blocks reach past element i. */
  function Reaching(lengths: seq<nat>, i: nat, n: nat): (c: nat)
    requires n <= |lengths|
    ensures c <= n
  {
    if n == 0 then 0 else Reaching(lengths, i, n - 1) + (if i < lengths[n - 1] then 1 else 0)
  }

  /** How many elements the first m rounds hold. */
  function Before(lengths: seq<nat>, m: nat): nat {
    if m == 0 then 0 else Before(lengths, m - 1) + Reaching(lengths, m - 1, |lengths|)
  }

  /** Where element i of block b ends up in the interleaved stream. */
  function Place(lengths: seq<nat>, b: nat, i: nat): nat
    requires b < |lengths|
  {
    Before(lengths, i) + Reaching(lengths, i, b)
  }

  lemma {:induction false} RoundLength(blocks: seq<seq<Byte>>, i: nat, n: nat)
    requires n <= |blocks|
    ensures |Round(blocks, i, n)| == Reaching(Lengths(blocks), i, n)
  {
    if n > 0 { RoundLength(blocks, i, n - 1); }
  }

  lemma {:induction false} RoundsLength(blocks: seq<seq<Byte>>, m: nat)
    ensures |Rounds(blocks, m)| == Before(Lengths(blocks), m)
  {
    hide Round, Reaching;
    if m > 0 {
      RoundsLength(blocks, m - 1);
      RoundLength(blocks, m - 1, |blocks|);
    }
  }

  lemma {:induction false} RoundAt(blocks: seq<seq<Byte>>, i: nat, n: nat, b: nat)
    requires b < n <= |blocks| && i < |blocks[b]|
    ensures Reaching(Lengths(blocks), i, b) < |Round(blocks, i, n)|
    ensures Round(blocks, i, n)[Reaching(Lengths(blocks), i, b)] == blocks[b][i]
  {
    RoundLength(blocks, i, n - 1);
    if b < n - 1 { RoundAt(blocks, i, n - 1, b); }
  }

  lemma RoundsNext(blocks: seq<seq<Byte>>, m: nat)
    requires m > 0
    ensures Rounds(blocks, m) == Rounds(blocks, m - 1) + Round(blocks, m - 1, |blocks|)
  {
  }

  /** Interleaving puts every element where Place says. */
  lemma {:induction false} RoundsAt(blocks: seq<seq<Byte>>, m: nat, b: nat, i: nat)
    requires b < |blocks| && i < |blocks[b]| && i < m
    ensures Place(Lengths(blocks), b, i) < |Rounds(blocks, m)|
    ensures Rounds(blocks, m)[Place(Lengths(blocks), b, i)] == blocks[b][i]
  {
    hide Rounds, Round, Before, Reaching;
    RoundsLength(blocks, m - 1);
    RoundsNext(blocks, m);
    if i < m - 1 {
      RoundsAt(blocks, m - 1, b, i);
    } else {
      RoundAt(blocks, i, |blocks|, b);
    }
  }

  /** The interleaving loop. */
  method Interleave(blocks: seq<seq<Byte>>) returns (out: seq<Byte>)
    ensures out == Interleaved(blocks)
  {
    out := [];
    var maxData := Longest(Lengths(blocks));
    for i := 0 to maxData
      invariant out == Rounds(blocks, i)
    {
      for b := 0 to |blocks|
        invariant out == Rounds(blocks, i) + Round(blocks, i, b)
      {
        if i < |blocks[b]| {
          out := out + [blocks[b][i]];
        }
      }
    }
  }

  // ---------------------------------------------------------------- dealing

  /** Element j of the stream; the streams that are dealt are never too short. */
  function At(stream: seq<Byte>, j: nat): Byte {
    if j < |stream| then stream[j] else 0
  }

  /** The first n elements of block b, each taken from its place. */
  function DealtBlock(lengths: seq<nat>, stream: seq<Byte>, b: nat, n: nat): (block: seq<Byte>)
    requires b < |lengths|
    ensures |block| == n
  {
    if n == 0 then []
    else DealtBlock(lengths, stream, b, n - 1) + [At(stream, Place(lengths, b, n - 1))]
  }

  /** The blocks read off the stream. */
  function Dealt(lengths: seq<nat>, stream: seq<Byte>): (blocks: seq<seq<Byte>>)
    ensures |blocks| == |lengths|
    ensures forall b :: 0 <= b < |lengths| ==> blocks[b] == DealtBlock(lengths, stream, b, lengths[b])
  {
    seq(|lengths|, b requires 0 <= b < |lengths| => DealtBlock(lengths, stream, b, lengths[b]))
  }

  lemma {:induction false} BeforeGrows(lengths: seq<nat>, m: nat, m': nat)
    requires m <= m'
    ensures Before(lengths, m) <= Before(lengths, m')
  {
    if m < m' { BeforeGrows(lengths, m, m' - 1); }
  }

  lemma {:induction false} ReachingGrows(lengths: seq<nat>, i: nat, n: nat, n': nat)
    requires n <= n' <= |lengths|
    ensures Reaching(lengths, i, n) <= Reaching(lengths, i, n')
  {
    if n < n' { ReachingGrows(lengths, i, n, n' - 1); }
  }

  lemma PlaceInStream(lengths: seq<nat>, b: nat, i: nat)
    requires b < |lengths| && i < lengths[b]
    ensures Place(lengths, b, i) < Before(lengths, Longest(lengths))
  {
    ReachingGrows(lengths, i, b + 1, |lengths|);
    BeforeGrows(lengths, i + 1, Longest(lengths));
  }

  lemma {:induction false} DealtBlockIs(blocks: seq<seq<Byte>>, stream: seq<Byte>, b: nat, n: nat)
    requires Interleaved(blocks) <= stream
    requires b < |blocks| && n <= |blocks[b]|
    ensures DealtBlock(Lengths(blocks), stream, b, n) == blocks[b][..n]
  {
    hide Place, Rounds;
    if n > 0 {
      DealtBlockIs(blocks, stream, b, n - 1);
      assert Lengths(blocks)[b] == |blocks[b]|;
      RoundsAt(blocks, Longest(Lengths(blocks)), b, n - 1);
      assert blocks[b][..n] == blocks[b][..n - 1] + [blocks[b][n - 1]];
    }
  }

  /** Dealing undoes interleaving, whatever follows the interleaved blocks. */
  lemma DealtOfInterleaved(blocks: seq<seq<Byte>>, stream: seq<Byte>)
    requires Interleaved(blocks) <= stream
    ensures Dealt(Lengths(blocks), stream) == blocks
  {
    forall b | 0 <= b < |blocks|
      ensures DealtBlock(Lengths(blocks), stream, b, |blocks[b]|) == blocks[b]
    {
      DealtBlockIs(blocks, stream, b, |blocks[b]|);
    }
  }

  /** How much of a block of the given length is dealt when round i has reached block n. */
  function DealtCount(length: nat, i: nat, b: nat, n: nat): nat {
    var reached := if b < n then i + 1 else i;
    if reached < length then reached else length
  }

  /** The blocks as they stand after round i has reached block n. */
  ghost predicate DealtSoFar(lengths: seq<nat>, stream: seq<Byte>, blocks: seq<seq<Byte>>, i: nat, n: nat) {
    && |blocks| == |lengths|
    && forall b :: 0 <= b < |lengths| ==>
         blocks[b] == DealtBlock(lengths, stream, b, DealtCount(lengths[b], i, b, n))
  }

  lemma DealtNext(lengths: seq<nat>, stream: seq<Byte>, blocks: seq<seq<Byte>>, i: nat, n: nat)
    requires n < |lengths| && DealtSoFar(lengths, stream, blocks, i, n)
    ensures i >= lengths[n] ==> DealtSoFar(lengths, stream, blocks, i, n + 1)
    ensures i < lengths[n] ==>
      DealtSoFar(lengths, stream, blocks[n := blocks[n] + [At(stream, Place(lengths, n, i))]], i, n + 1)
  {
    hide DealtBlock, Place, At, Before, Reaching;
    DealtBlockNext(lengths, stream, n, i);
  }

  lemma DealtBlockNext(lengths: seq<nat>, stream: seq<Byte>, n: nat, i: nat)
    requires n < |lengths|
    ensures DealtBlock(lengths, stream, n, i + 1)
         == DealtBlock(lengths, stream, n, i) + [At(stream, Place(lengths, n, i))]
  {
  }

  /** The inner loop of Deal: one element for every block that is long enough. */
  method DealRound(lengths: seq<nat>, stream: seq<Byte>, i: nat, blocks: seq<seq<Byte>>, index: nat)
    returns (newBlocks: seq<seq<Byte>>, newIndex: nat)
    requires |stream| >= Before(lengths, Longest(lengths))
    requires index == Before(lengths, i) && DealtSoFar(lengths, stream, blocks, i, 0)
    ensures newIndex == Before(lengths, i + 1) && DealtSoFar(lengths, stream, newBlocks, i + 1, 0)
  {
    hide DealtSoFar, Longest;
    newBlocks, newIndex := blocks, index;
    DealtShape(lengths, stream, newBlocks, i);
    for b := 0 to |lengths|
      invariant |newBlocks| == |lengths|
      invariant newIndex == Before(lengths, i) + Reaching(lengths, i, b)
      invariant DealtSoFar(lengths, stream, newBlocks, i, b)
    {
      DealtNext(lengths, stream, newBlocks, i, b);
      if i < lengths[b] {
        PlaceInStream(lengths, b, i);
        newBlocks := newBlocks[b := newBlocks[b] + [stream[newIndex]]];
        newIndex := newIndex + 1;
      }
    }
    DealtRoundEnd(lengths, stream, newBlocks, i);
  }

  lemma DealtShape(lengths: seq<nat>, stream: seq<Byte>, blocks: seq<seq<Byte>>, i: nat)
    requires DealtSoFar(lengths, stream, blocks, i, 0)
    ensures |blocks| == |lengths|
  {
  }

  lemma DealtRoundEnd(lengths: seq<nat>, stream: seq<Byte>, blocks: seq<seq<Byte>>, i: nat)
    requires DealtSoFar(lengths, stream, blocks, i, |lengths|)
    ensures DealtSoFar(lengths, stream, blocks, i + 1, 0)
  {
    hide DealtBlock;
  }

  /** The de-interleaving loop of the decoder. */
  method Deal(lengths: seq<nat>, stream: seq<Byte>) returns (blocks: seq<seq<Byte>>)
    requires |stream| >= Before(lengths, Longest(lengths))
    ensures blocks == Dealt(lengths, stream)
  {
    hide DealtSoFar;
    blocks := seq(|lengths|, _ => []);
    DealtStart(lengths, stream);
    var index := 0;
    var maxData := Longest(lengths);
    for i := 0 to maxData
      invariant index == Before(lengths, i)
      invariant DealtSoFar(lengths, stream, blocks, i, 0)
    {
      blocks, index := DealRound(lengths, stream, i, blocks, index);
    }
    DealtEnd(lengths, stream, blocks, maxData);
  }

  lemma DealtStart(lengths: seq<nat>, stream: seq<Byte>)
    ensures DealtSoFar(lengths, stream, seq(|lengths|, _ => []), 0, 0)
  {
  }

  lemma DealtEnd(lengths: seq<nat>, stream: seq<Byte>, blocks: seq<seq<Byte>>, m: nat)
    requires m == Longest(lengths) && DealtSoFar(lengths, stream, blocks, m, 0)
    ensures blocks == Dealt(lengths, stream)
  {
  }

  // ---------------------------------------------------------------- counting

  /** Sum of the lengths, each capped at m. */
  function Capped(lengths: seq<nat>, m: nat, n: nat): nat
    requires n <= |lengths|
  {
    if n == 0 then 0 else Capped(lengths, m, n - 1) + (if lengths[n - 1] < m then lengths[n - 1] else m)
  }

  lemma {:induction false} CappedNext(lengths: seq<nat>, m: nat, n: nat)
    requires n <= |lengths|
    ensures Capped(lengths, m + 1, n) == Capped(lengths, m, n) + Reaching(lengths, m, n)
  {
    if n > 0 { CappedNext(lengths, m, n - 1); }
  }

  lemma {:induction false} CappedZero(lengths: seq<nat>, n: nat)
    requires n <= |lengths|
    ensures Capped(lengths, 0, n) == 0
  {
    if n > 0 { CappedZero(lengths, n - 1); }
  }

  lemma {:induction false} BeforeIsCapped(lengths: seq<nat>, m: nat)
    ensures Before(lengths, m) == Capped(lengths, m, |lengths|)
  {
    if m == 0 {
      CappedZero(lengths, |lengths|);
    } else {
      BeforeIsCapped(lengths, m - 1);
      CappedNext(lengths, m - 1, |lengths|);
    }
  }

  lemma {:induction false} TotalIsCapped(lengths: seq<nat>, m: nat)
    requires forall b :: 0 <= b < |lengths| ==> lengths[b] <= m
    ensures Capped(lengths, m, |lengths|) == Total(lengths)
  {
    if lengths != [] {
      var k := |lengths| - 1;
      TotalIsCapped(lengths[..k], m);
      CappedPrefix(lengths, m, k);
      TotalLast(lengths);
    }
  }

  lemma {:induction false} CappedPrefix(lengths: seq<nat>, m: nat, n: nat)
    requires n < |lengths|
    ensures Capped(lengths, m, n) == Capped(lengths[..|lengths| - 1], m, n)
  {
    if n > 0 { CappedPrefix(lengths, m, n - 1); }
  }

  lemma {:induction false} TotalLast(lengths: seq<nat>)
    requires lengths != []
    ensures Total(lengths) == Total(lengths[..|lengths| - 1]) + lengths[|lengths| - 1]
  {
    if |lengths| > 1 {
      TotalLast(lengths[1..]);
      assert lengths[1..][..|lengths| - 2] == lengths[..|lengths| - 1][1..];
    }
  }

  /** Interleaving loses nothing: the stream is as long as the blocks together. */
  lemma InterleavedLength(lengths: seq<nat>)
    ensures Before(lengths, Longest(lengths)) == Total(lengths)
  {
    BeforeIsCapped(lengths, Longest(lengths));
    TotalIsCapped(lengths, Longest(lengths));
  }
}
