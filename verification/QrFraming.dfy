// The bit stream of the encoder and how the decoder reads it back.
module QrFraming {
  import opened Bitwise
  import opened QrTables

  type Bit = x: int | 0 <= x < 2

  // ---------------------------------------------------------------- bits of a number

  /** The low n binary digits of value, the most significant first. */
  function BitsOf(value: nat, n: nat): (bits: seq<Bit>)
    ensures |bits| == n
  {
    if n == 0 then [] else BitsOf(value / 2, n - 1) + [value % 2]
  }

  /** The number that bits spell, the most significant first. */
  function ValueOf(bits: seq<Bit>): nat {
    if bits == [] then 0 else 2 * ValueOf(bits[..|bits| - 1]) + bits[|bits| - 1]
  }

  lemma {:induction false} ValueOfBitsOf(value: nat, n: nat)
    requires value < Pow2(n)
    ensures ValueOf(BitsOf(value, n)) == value
  {
    if n > 0 {
      ValueOfBitsOf(value / 2, n - 1);
      assert BitsOf(value, n)[..n - 1] == BitsOf(value / 2, n - 1);
    }
  }

  // ---------------------------------------------------------------- packing

  /** Bit j of the stream, or 0 past its end. */
  function BitAt(bits: seq<Bit>, j: nat): Bit {
    if j < |bits| then bits[j] else 0
  }

  /** Byte k of the stream, filled up with zeros. */
  function PackedByte(bits: seq<Bit>, k: nat): Byte {
    128 * BitAt(bits, 8 * k) + 64 * BitAt(bits, 8 * k + 1)
    + 32 * BitAt(bits, 8 * k + 2) + 16 * BitAt(bits, 8 * k + 3)
    + 8 * BitAt(bits, 8 * k + 4) + 4 * BitAt(bits, 8 * k + 5)
    + 2 * BitAt(bits, 8 * k + 6) + BitAt(bits, 8 * k + 7)
  }

  function Packed(bits: seq<Bit>): (out: seq<Byte>)
    ensures |out| == (|bits| + 7) / 8
  {
    seq((|bits| + 7) / 8, k requires 0 <= k => PackedByte(bits, k))
  }

  /** The weight of bit number r of a byte: 0x80 >> r. */
  function Weight(r: nat): Byte
    requires r < 8
  {
    if r == 0 then 128 else if r == 1 then 64 else if r == 2 then 32 else if r == 3 then 16
    else if r == 4 then 8 else if r == 5 then 4 else if r == 6 then 2 else 1
  }

  /** The growable bit buffer. */
  class Bits {
    var bits: seq<Bit>

    constructor ()
      ensures bits == []
    {
      bits := [];
    }

    method Push(value: nat, length: nat)
      modifies this
      ensures bits == old(bits) + BitsOf(value, length)
    {
      var i := length;
      while i > 0
        invariant 0 <= i <= length
        invariant bits == old(bits) + BitsOf(ShiftRight(value, i), length - i)
      {
        i := i - 1;
        bits := bits + [ShiftRight(value, i) % 2];
      }
    }

    method ToBytes() returns (out: array<Byte>)
      ensures fresh(out) && out[..] == Packed(bits)
    {
      out := new Byte[(|bits| + 7) / 8](_ => 0);
      assert PackedSoFar(out[..], bits, 0);
      hide PackedSoFar, PackedByte, Packed, Weight;
      for i := 0 to |bits|
        invariant PackedSoFar(out[..], bits, i)
      {
        PackedNext(out[..], bits, i);
        if bits[i] == 1 {
          // the bit is still clear, so setting it is adding its weight
          out[i / 8] := out[i / 8] + Weight(i % 8);
        }
      }
      PackedAll(out[..], bits);
    }
  }

  /** The bytes with the first i bits entered. */
  ghost predicate PackedSoFar(out: seq<Byte>, bits: seq<Bit>, i: nat) {
    && i <= |bits|
    && |out| == (|bits| + 7) / 8
    && forall k :: 0 <= k < |out| ==> out[k] == PackedByte(bits[..i], k)
  }

  lemma PackedNext(out: seq<Byte>, bits: seq<Bit>, i: nat)
    requires i < |bits| && PackedSoFar(out, bits, i)
    ensures i / 8 < |out|
    ensures bits[i] == 1 ==> out[i / 8] + Weight(i % 8) < 256
    ensures bits[i] == 1 ==> PackedSoFar(out[i / 8 := out[i / 8] + Weight(i % 8)], bits, i + 1)
    ensures bits[i] != 1 ==> PackedSoFar(out, bits, i + 1)
  {
    PackOneMore(bits, i);
    hide PackedByte, Weight;
    assert bits[i] == 1 ==> PackedByte(bits[..i + 1], i / 8) == out[i / 8] + Weight(i % 8);
  }

  lemma PackedAll(out: seq<Byte>, bits: seq<Bit>)
    requires PackedSoFar(out, bits, |bits|)
    ensures out == Packed(bits)
  {
    hide PackedByte;
    assert bits[..|bits|] == bits;
  }

  lemma PackOneMore(bits: seq<Bit>, i: nat)
    requires i < |bits|
    ensures forall k: nat :: PackedByte(bits[..i + 1], k)
                          == PackedByte(bits[..i], k) + (if k == i / 8 && bits[i] == 1 then Weight(i % 8) else 0)
  {
    forall k: nat
      ensures PackedByte(bits[..i + 1], k)
           == PackedByte(bits[..i], k) + (if k == i / 8 && bits[i] == 1 then Weight(i % 8) else 0)
    {
      PackOneMoreAt(bits, i, i / 8, i % 8, k);
    }
  }

  lemma PackOneMoreAt(bits: seq<Bit>, i: nat, q: nat, r: nat, k: nat)
    requires i < |bits| && i == 8 * q + r && r < 8
    ensures PackedByte(bits[..i + 1], k)
         == PackedByte(bits[..i], k) + (if k == q && bits[i] == 1 then Weight(r) else 0)
  {
    var a, b := bits[..i + 1], bits[..i];
    assert forall j: nat :: j != i ==> BitAt(a, j) == BitAt(b, j);
    assert BitAt(a, i) == bits[i] && BitAt(b, i) == 0;
    if k != q {
      assert 8 * k > i || 8 * k + 7 < i;
    }
  }

  // ---------------------------------------------------------------- framing

  const PADS: seq<Byte> := [0xec, 0x11]

  function ByteBits(bytes: seq<Byte>): (bits: seq<Bit>)
    ensures |bits| == 8 * |bytes|
  {
    if bytes == [] then [] else ByteBits(bytes[..|bytes| - 1]) + BitsOf(bytes[|bytes| - 1], 8)
  }

  /** Mode, character count and the bytes. */
  function Payload(bytes: seq<Byte>, v: Version): (bits: seq<Bit>)
    ensures |bits| == 4 + CountBits(v) + 8 * |bytes|
  {
    BitsOf(4, 4) + BitsOf(|bytes|, CountBits(v)) + ByteBits(bytes)
  }

  function ZeroBits(k: nat): seq<Bit> {
    seq(k, _ => 0)
  }

  /** How many bits are missing to a whole byte. */
  function Align(n: nat): nat {
    if n % 8 == 0 then 0 else 8 - n % 8
  }

  /** Zeros after the payload: a terminator of at most four, then up to a whole byte. */
  function Terminator(payload: nat, capacityBits: nat): (k: nat)
    requires payload <= capacityBits && capacityBits % 8 == 0
    ensures (payload + k) % 8 == 0 && payload + k <= capacityBits
  {
    var t := if capacityBits - payload < 4 then capacityBits - payload else 4;
    AlignInRoom(payload + t, capacityBits);
    t + Align(payload + t)
  }

  lemma AlignInRoom(n: nat, room: nat)
    requires n <= room && room % 8 == 0
    ensures (n + Align(n)) % 8 == 0 && n + Align(n) <= room
  {
  }

  lemma AlignNext(n: nat)
    requires n % 8 != 0
    ensures Align(n) == 1 + Align(n + 1)
  {
  }

  /** Pad bytes, 0xec and 0x11 in turn. */
  function Padding(k: nat): seq<Byte> {
    seq(k, i requires 0 <= i => PADS[i % 2])
  }

  /** A payload with its terminator. */
  function Terminated(payload: seq<Bit>, capacityBits: nat): (bits: seq<Bit>)
    requires |payload| <= capacityBits && capacityBits % 8 == 0
    ensures |bits| % 8 == 0 && |bits| <= capacityBits
  {
    payload + ZeroBits(Terminator(|payload|, capacityBits))
  }

  lemma EightTimes(n: nat)
    ensures (8 * n) % 8 == 0
  {
  }

  /** The bit stream of a symbol, a whole number of bytes. */
  function Frame(bytes: seq<Byte>, v: Version): (bits: seq<Bit>)
    requires Fits(|bytes|, v)
    ensures |bits| % 8 == 0 && |bits| <= 8 * DataCapacity(v)
  {
    EightTimes(DataCapacity(v));
    Terminated(Payload(bytes, v), 8 * DataCapacity(v))
  }

  /** The data codewords of a symbol, before they are split into blocks. */
  function DataCodewords(bytes: seq<Byte>, v: Version): (data: seq<Byte>)
    requires Fits(|bytes|, v)
    ensures |data| == DataCapacity(v)
  {
    var packed := Packed(Frame(bytes, v));
    packed + Padding(DataCapacity(v) - |packed|)
  }

  /** Behind the framed bytes the bytes 0xec and 0x11 take turns. */
  lemma PadsTakeTurns(bytes: seq<Byte>, v: Version, j: nat)
    requires Fits(|bytes|, v) && |Packed(Frame(bytes, v))| + j < DataCapacity(v)
    ensures DataCodewords(bytes, v)[|Packed(Frame(bytes, v))| + j] == if j % 2 == 0 then 0xec else 0x11
  {
    hide Packed, Frame;
  }

  method PushPayload(bits: Bits, bytes: seq<Byte>, v: Version)
    requires bits.bits == []
    modifies bits
    ensures bits.bits == Payload(bytes, v)
  {
    hide BitsOf;
    bits.Push(4, 4);
    bits.Push(|bytes|, CountBits(v));
    for i := 0 to |bytes|
      invariant bits.bits == BitsOf(4, 4) + BitsOf(|bytes|, CountBits(v)) + ByteBits(bytes[..i])
    {
      assert bytes[..i + 1][..i] == bytes[..i];
      bits.Push(bytes[i], 8);
    }
    assert bytes[..|bytes|] == bytes;
  }

  lemma {:induction false} BitsOfZero(k: nat)
    ensures BitsOf(0, k) == ZeroBits(k)
  {
    if k > 0 { BitsOfZero(k - 1); }
  }

  method PushTerminator(bits: Bits, capacityBits: nat)
    requires |bits.bits| <= capacityBits && capacityBits % 8 == 0
    modifies bits
    ensures bits.bits == old(bits.bits) + ZeroBits(Terminator(old(|bits.bits|), capacityBits))
  {
    hide BitsOf;
    ghost var before := bits.bits;
    var room := capacityBits - |bits.bits|;
    var t := if room < 4 then room else 4;
    BitsOfZero(t);
    bits.Push(0, t);
    BitsOfZero(1);
    ghost var k := t;
    ghost var all := Terminator(|before|, capacityBits);
    hide Terminator, Align;
    while |bits.bits| % 8 != 0
      invariant k + Align(|before| + k) == all
      invariant bits.bits == before + ZeroBits(k)
      decreases all - k
    {
      AlignNext(|before| + k);
      bits.Push(0, 1);
      k := k + 1;
    }
    AlignWhole(|before| + k);
  }

  lemma AlignWhole(n: nat)
    requires n % 8 == 0
    ensures Align(n) == 0
  {
  }

  /** The pad loop of buildCodewords. */
  method Pad(packed: seq<Byte>, capacity: nat) returns (data: seq<Byte>)
    requires |packed| <= capacity
    ensures data == packed + Padding(capacity - |packed|)
  {
    data := packed;
    var padIndex := 0;
    while |data| < capacity
      invariant |data| == |packed| + padIndex <= capacity
      invariant data == packed + Padding(padIndex)
    {
      data := data + [PADS[padIndex % 2]];
      padIndex := padIndex + 1;
    }
  }

  /** The first half of buildCodewords: the framed and padded data. */
  method BuildData(bytes: seq<Byte>, v: Version) returns (data: seq<Byte>)
    requires Fits(|bytes|, v)
    ensures data == DataCodewords(bytes, v)
  {
    hide Packed, Payload, Terminator, Padding;
    var capacity := DataCapacity(v);
    var bits := new Bits();
    PushPayload(bits, bytes, v);
    PushTerminator(bits, capacity * 8);
    assert bits.bits == Frame(bytes, v);
    var packed := bits.ToBytes();
    data := Pad(packed[..], capacity);
  }

  // ---------------------------------------------------------------- reading back

  /** Bit pos of a list of bytes; past the end the decoder reads zeros. */
  function DataBit(data: seq<Byte>, pos: nat): Bit {
    if pos / 8 < |data| then ShiftRight(data[pos / 8], 7 - pos % 8) % 2 else 0
  }

  /** The number spelt by n bits from pos on. */
  function Read(data: seq<Byte>, pos: nat, n: nat): nat {
    if n == 0 then 0 else 2 * Read(data, pos, n - 1) + DataBit(data, pos + n - 1)
  }

  /** The bit reader of the decoder. */
  method ReadBits(data: seq<Byte>, bitPos: nat, n: nat) returns (v: nat, newPos: nat)
    ensures v == Read(data, bitPos, n) && newPos == bitPos + n
  {
    v, newPos := 0, bitPos;
    for i := 0 to n
      invariant v == Read(data, bitPos, i) && newPos == bitPos + i
    {
      var byte := if newPos / 8 < |data| then data[newPos / 8] else 0;
      ShiftRightZero(7 - newPos % 8);
      v := 2 * v + ShiftRight(byte, 7 - newPos % 8) % 2;
      newPos := newPos + 1;
    }
  }

  lemma {:induction false} ShiftRightZero(k: nat)
    ensures ShiftRight(0, k) == 0
  {
    if k > 0 { ShiftRightZero(k - 1); }
  }

  lemma {:induction false} ReadBelow(data: seq<Byte>, pos: nat, n: nat)
    ensures Read(data, pos, n) < Pow2(n)
  {
    if n > 0 { ReadBelow(data, pos, n - 1); }
  }

  /** Digit r of a byte put together from its digits. */
  lemma PackedDigit(bits: seq<Bit>, k: nat, r: nat)
    requires r < 8
    ensures ShiftRight(PackedByte(bits, k), 7 - r) % 2 == BitAt(bits, 8 * k + r)
  {
    hide BitAt, ShiftRight;
    EightDigits(BitAt(bits, 8 * k), BitAt(bits, 8 * k + 1), BitAt(bits, 8 * k + 2), BitAt(bits, 8 * k + 3),
                BitAt(bits, 8 * k + 4), BitAt(bits, 8 * k + 5), BitAt(bits, 8 * k + 6), BitAt(bits, 8 * k + 7));
  }

  lemma EightDigits(b7: Bit, b6: Bit, b5: Bit, b4: Bit, b3: Bit, b2: Bit, b1: Bit, b0: Bit)
    ensures var x := 128 * b7 + 64 * b6 + 32 * b5 + 16 * b4 + 8 * b3 + 4 * b2 + 2 * b1 + b0;
            && ShiftRight(x, 7) % 2 == b7 && ShiftRight(x, 6) % 2 == b6
            && ShiftRight(x, 5) % 2 == b5 && ShiftRight(x, 4) % 2 == b4
            && ShiftRight(x, 3) % 2 == b3 && ShiftRight(x, 2) % 2 == b2
            && ShiftRight(x, 1) % 2 == b1 && ShiftRight(x, 0) % 2 == b0
  {
    var x := 128 * b7 + 64 * b6 + 32 * b5 + 16 * b4 + 8 * b3 + 4 * b2 + 2 * b1 + b0;
    assert ShiftRight(x, 0) == x;
    assert ShiftRight(x, 1) == 64 * b7 + 32 * b6 + 16 * b5 + 8 * b4 + 4 * b3 + 2 * b2 + b1;
    assert ShiftRight(x, 2) == 32 * b7 + 16 * b6 + 8 * b5 + 4 * b4 + 2 * b3 + b2;
    assert ShiftRight(x, 3) == 16 * b7 + 8 * b6 + 4 * b5 + 2 * b4 + b3;
    assert ShiftRight(x, 4) == 8 * b7 + 4 * b6 + 2 * b5 + b4;
    assert ShiftRight(x, 5) == 4 * b7 + 2 * b6 + b5;
    assert ShiftRight(x, 6) == 2 * b7 + b6;
    assert ShiftRight(x, 7) == b7;
  }

  /** The reader sees the packed bits, whatever bytes follow. */
  lemma DataBitOfPacked(bits: seq<Bit>, rest: seq<Byte>, j: nat)
    requires j < |bits|
    ensures DataBit(Packed(bits) + rest, j) == bits[j]
  {
    PackedDigit(bits, j / 8, j % 8);
  }

  /** Reading n bits of a packed stream gives the number they spell. */
  lemma {:induction false} ReadOfPacked(bits: seq<Bit>, rest: seq<Byte>, pos: nat, n: nat)
    requires pos + n <= |bits|
    ensures Read(Packed(bits) + rest, pos, n) == ValueOf(bits[pos..pos + n])
  {
    hide Packed, Read, DataBit, ValueOf;
    if n > 0 {
      ReadOfPacked(bits, rest, pos, n - 1);
      DataBitOfPacked(bits, rest, pos + n - 1);
      ReadNext(Packed(bits) + rest, pos, n);
      ValueNext(bits, pos, n);
    } else {
      assert bits[pos..pos + n] == [];
      ReadNone(Packed(bits) + rest, pos);
    }
  }

  lemma ReadNext(data: seq<Byte>, pos: nat, n: nat)
    requires n > 0
    ensures Read(data, pos, n) == 2 * Read(data, pos, n - 1) + DataBit(data, pos + n - 1)
  {
    hide DataBit;
  }

  lemma ReadNone(data: seq<Byte>, pos: nat)
    ensures Read(data, pos, 0) == 0 && ValueOf([]) == 0
  {
  }

  lemma ValueNext(bits: seq<Bit>, pos: nat, n: nat)
    requires 0 < n && pos + n <= |bits|
    ensures ValueOf(bits[pos..pos + n]) == 2 * ValueOf(bits[pos..pos + n - 1]) + bits[pos + n - 1]
  {
    assert bits[pos..pos + n][..n - 1] == bits[pos..pos + n - 1];
  }

  /** Reading back a number that was pushed. */
  lemma ReadPushed(bits: seq<Bit>, rest: seq<Byte>, pos: nat, value: nat, n: nat)
    requires pos + n <= |bits| && bits[pos..pos + n] == BitsOf(value, n)
    requires value < Pow2(n)
    ensures Read(Packed(bits) + rest, pos, n) == value
  {
    ReadOfPacked(bits, rest, pos, n);
    ValueOfBitsOf(value, n);
  }

  datatype ParseResult = Parsed(bytes: seq<Byte>) | WrongMode(mode: nat)

  lemma ReadByteBelow(data: seq<Byte>, pos: nat)
    ensures Read(data, pos, 8) < 256
  {
    ReadBelow(data, pos, 8);
    assert Pow2(8) == 256;
  }

  function ReadByte(data: seq<Byte>, pos: nat): Byte {
    ReadByteBelow(data, pos);
    Read(data, pos, 8)
  }

  /** What the decoder makes of the data codewords. */
  function Parse(data: seq<Byte>, v: Version): ParseResult {
    var mode := Read(data, 0, 4);
    if mode != 4 then WrongMode(mode)
    else
      var count := Read(data, 4, CountBits(v));
      Parsed(seq(count, i requires 0 <= i => ReadByte(data, 4 + CountBits(v) + 8 * i)))
  }

  /** The last part of decode. */
  method ParseData(data: seq<Byte>, v: Version) returns (r: ParseResult)
    ensures r == Parse(data, v)
  {
    var mode, pos := ReadBits(data, 0, 4);
    if mode != 4 {
      return WrongMode(mode);
    }
    var count;
    count, pos := ReadBits(data, pos, CountBits(v));
    var out := new Byte[count](_ => 0);
    for i := 0 to count
      invariant pos == 4 + CountBits(v) + 8 * i
      invariant forall k :: 0 <= k < i ==> out[k] == ReadByte(data, 4 + CountBits(v) + 8 * k)
    {
      var byte;
      ReadByteBelow(data, pos);
      byte, pos := ReadBits(data, pos, 8);
      out[i] := byte;
    }
    r := Parsed(out[..]);
  }

  lemma {:induction false} ByteBitsAt(bytes: seq<Byte>, i: nat)
    requires i < |bytes|
    ensures ByteBits(bytes)[8 * i..8 * i + 8] == BitsOf(bytes[i], 8)
  {
    var k := |bytes| - 1;
    var init, last := ByteBits(bytes[..k]), BitsOf(bytes[k], 8);
    assert ByteBits(bytes) == init + last;
    hide BitsOf;
    if i < k {
      ByteBitsAt(bytes[..k], i);
      assert (init + last)[8 * i..8 * i + 8] == init[8 * i..8 * i + 8];
    } else {
      assert (init + last)[8 * k..8 * k + 8] == last;
    }
  }

  /** Framing, packing and padding are undone by the parser. */
  lemma FramingRoundTrip(bytes: seq<Byte>, v: Version)
    requires Fits(|bytes|, v)
    ensures Parse(DataCodewords(bytes, v), v) == Parsed(bytes)
  {
    var bits, cc := Frame(bytes, v), CountBits(v);
    var rest := Padding(DataCapacity(v) - |Packed(bits)|);
    FrameParts(bytes, v);
    CountFits(|bytes|, v);
    PowersUsed(v);
    hide Packed, Frame, Padding, BitsOf, Read, DataBit, Parse, ReadByte;
    ReadPushed(bits, rest, 0, 4, 4);
    ReadPushed(bits, rest, 4, |bytes|, cc);
    forall i | 0 <= i < |bytes|
      ensures ReadByte(Packed(bits) + rest, 4 + cc + 8 * i) == bytes[i]
    {
      ByteReadBack(bytes, v, rest, i);
    }
    ParseIs(Packed(bits) + rest, bytes, v);
  }

  lemma ParseIs(data: seq<Byte>, bytes: seq<Byte>, v: Version)
    requires Read(data, 0, 4) == 4 && Read(data, 4, CountBits(v)) == |bytes|
    requires forall i :: 0 <= i < |bytes| ==> ReadByte(data, 4 + CountBits(v) + 8 * i) == bytes[i]
    ensures Parse(data, v) == Parsed(bytes)
  {
    hide Read, ReadByte;
  }

  lemma ByteReadBack(bytes: seq<Byte>, v: Version, rest: seq<Byte>, i: nat)
    requires Fits(|bytes|, v) && i < |bytes|
    ensures ReadByte(Packed(Frame(bytes, v)) + rest, 4 + CountBits(v) + 8 * i) == bytes[i]
  {
    FrameParts(bytes, v);
    PowersUsed(v);
    hide Packed, Frame, BitsOf, Read;
    ByteBitsAt(bytes, i);
    ReadPushed(Frame(bytes, v), rest, 4 + CountBits(v) + 8 * i, bytes[i], 8);
  }

  lemma PowersUsed(v: Version)
    ensures Pow2(4) == 16 && Pow2(8) == 256
    ensures Pow2(CountBits(v)) == if v < 10 then 256 else 65536
  {
    assert Pow2(12) == 4096;
  }

  lemma FrameParts(bytes: seq<Byte>, v: Version)
    requires Fits(|bytes|, v)
    ensures var bits, cc := Frame(bytes, v), CountBits(v);
            && |bits| >= 4 + cc + 8 * |bytes|
            && bits[0..4] == BitsOf(4, 4)
            && bits[4..4 + cc] == BitsOf(|bytes|, cc)
            && (forall i :: 0 <= i < |bytes| ==>
                  bits[4 + cc + 8 * i..4 + cc + 8 * i + 8] == ByteBits(bytes)[8 * i..8 * i + 8])
  {
    hide BitsOf, ByteBits;
  }
}
