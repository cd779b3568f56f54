// The size of a JPEG file: a walk over its marker segments to the first frame header.
module Jpeg {
  import opened Bitwise
  import opened Options

  datatype Size = Size(width: nat, height: nat)

  function Word(high: Byte, low: Byte): nat {
    high * 256 + low
  }

  /** Markers without a length: SOI, TEM and the restart markers. */
  predicate StandsAlone(marker: Byte) {
    marker == 0xd8 || marker == 0x01 || 0xd0 <= marker <= 0xd7
  }

  /** Start-of-frame markers. */
  predicate IsFrame(marker: Byte) {
    0xc0 <= marker <= 0xcf && marker != 0xc4 && marker != 0xc8 && marker != 0xcc
  }

  predicate IsJpeg(u8: seq<Byte>) {
    |u8| >= 3 && u8[0] == 0xff && u8[1] == 0xd8 && u8[2] == 0xff
  }

  function SizeAt(u8: seq<Byte>, i: nat): Size
    requires i + 9 < |u8|
  {
    Size(Word(u8[i + 7], u8[i + 8]), Word(u8[i + 5], u8[i + 6]))
  }

  /** Where the walk goes from i; None where it stops. */
  function Onward(u8: seq<Byte>, i: nat): (r: Option<nat>)
    requires i + 9 < |u8|
    ensures r.Some? ==> r.value > i
  {
    if u8[i] != 0xff then Some(i + 1)
    else if StandsAlone(u8[i + 1]) then Some(i + 2)
    else if IsFrame(u8[i + 1]) || Word(u8[i + 2], u8[i + 3]) < 2 then None
    else Some(i + 2 + Word(u8[i + 2], u8[i + 3]))
  }

  /** The size the walk finds from i on. */
  function Found(u8: seq<Byte>, i: nat): Option<Size>
    decreases |u8| - i
  {
    if i + 9 >= |u8| then None
    else if u8[i] == 0xff && !StandsAlone(u8[i + 1]) && IsFrame(u8[i + 1]) then Some(SizeAt(u8, i))
    else match Onward(u8, i)
      case None => None
      case Some(next) => Found(u8, next)
  }

  /** The JPEG branch of readDimensions; None where it throws. */
  method ReadDimensions(u8: seq<Byte>) returns (r: Option<Size>)
    requires IsJpeg(u8)
    ensures r == Found(u8, 2)
  {
    var i := 2;
    while i + 9 < |u8|
      invariant Found(u8, i) == Found(u8, 2)
      decreases |u8| - i
    {
      if u8[i] != 0xff {
        i := i + 1;
        continue;
      }
      var marker := u8[i + 1];
      if marker == 0xd8 || marker == 0x01 || (marker >= 0xd0 && marker <= 0xd7) {
        i := i + 2;
        continue;
      }
      var length := Word(u8[i + 2], u8[i + 3]);
      var isFrame := marker >= 0xc0 && marker <= 0xcf && marker != 0xc4 && marker != 0xc8 && marker != 0xcc;
      if isFrame {
        return Some(Size(Word(u8[i + 7], u8[i + 8]), Word(u8[i + 5], u8[i + 6])));
      }
      if length < 2 { break; }
      i := i + 2 + length;
    }
    r := None;
  }

  // ------------------------------------------------------------ files with a frame

  /** What may stand before the frame: segments with a length and a payload, and markers that stand alone. */
  datatype Part = Segment(marker: Byte, payload: seq<Byte>) | Alone(marker: Byte)

  /** Markers, but those of a frame, that a length follows: 0x00 and 0xff are no markers, and 0xd9 ends the image. */
  predicate HasLength(marker: Byte) {
    0 < marker < 0xff && marker != 0xd9 && !StandsAlone(marker) && !IsFrame(marker)
  }

  /** A part as ITU-T T.81, section B.1.1, lays it out; the length counts itself and fits 16 bits. */
  predicate WellFormed(p: Part) {
    match p
    case Segment(marker, payload) => HasLength(marker) && |payload| + 2 <= 0xffff
    case Alone(marker) => StandsAlone(marker)
  }

  function PartBytes(p: Part): seq<Byte>
    requires WellFormed(p)
  {
    match p
    case Segment(marker, payload) => [0xff, marker, (|payload| + 2) / 256, (|payload| + 2) % 256] + payload
    case Alone(marker) => [0xff, marker]
  }

  predicate AllWellFormed(parts: seq<Part>) {
    forall i :: 0 <= i < |parts| ==> WellFormed(parts[i])
  }

  function PartsBytes(parts: seq<Part>): seq<Byte>
    requires AllWellFormed(parts)
  {
    if parts == [] then [] else PartBytes(parts[0]) + PartsBytes(parts[1..])
  }

  /** A frame header (T.81, section B.2.2): length, precision, lines, samples per line, and the components. */
  datatype Frame = Frame(marker: Byte, length: nat, precision: Byte, size: Size, components: seq<Byte>)

  predicate Complete(f: Frame) {
    IsFrame(f.marker) && f.length <= 0xffff && f.size.width <= 0xffff && f.size.height <= 0xffff && f.components != []
  }

  function FrameBytes(f: Frame): seq<Byte>
    requires Complete(f)
  {
    [0xff, f.marker, f.length / 256, f.length % 256, f.precision,
     f.size.height / 256, f.size.height % 256, f.size.width / 256, f.size.width % 256] + f.components
  }

  /** The walk from i on depends only on the bytes from i on. */
  lemma {:induction false} FoundInSuffix(u8: seq<Byte>, n: nat, i: nat)
    requires n <= i
    ensures n <= |u8| ==> Found(u8, i) == Found(u8[n..], i - n)
    decreases |u8| - i
  {
    if i + 9 < |u8| {
      var rest := u8[n..];
      assert forall k :: i <= k < |u8| ==> rest[k - n] == u8[k];
      var next := Onward(u8, i);
      if next.Some? {
        assert Onward(rest, i - n) == Some(next.value - n);
        FoundInSuffix(u8, n, next.value);
      }
    }
  }

  lemma FrameFound(f: Frame, after: seq<Byte>)
    requires Complete(f)
    ensures Found(FrameBytes(f) + after, 0) == Some(f.size)
  {
    var u8 := FrameBytes(f) + after;
    assert u8[1] == f.marker;
    assert u8[5] == f.size.height / 256 && u8[6] == f.size.height % 256;
    assert u8[7] == f.size.width / 256 && u8[8] == f.size.width % 256;
  }

  lemma PartOnward(p: Part, rest: seq<Byte>)
    requires WellFormed(p) && |rest| >= 10
    ensures Onward(PartBytes(p) + rest, 0) == Some(|PartBytes(p)|)
  {
    var u8 := PartBytes(p) + rest;
    assert u8[0] == 0xff && u8[1] == p.marker;
    if p.Segment? { assert u8[2] == (|p.payload| + 2) / 256 && u8[3] == (|p.payload| + 2) % 256; }
  }

  /** A well-formed part is stepped over whole, whatever its payload holds. */
  lemma PartSkipped(p: Part, rest: seq<Byte>)
    requires WellFormed(p) && |rest| >= 10
    ensures Found(PartBytes(p) + rest, 0) == Found(rest, 0)
  {
    PartOnward(p, rest);
    hide PartBytes, Found, Onward;
    var bytes := PartBytes(p);
    var u8 := bytes + rest;
    FoundInSuffix(u8, |bytes|, |bytes|);
    assert u8[|bytes|..] == rest;
    FoundSteps(u8);
  }

  lemma FoundSteps(u8: seq<Byte>)
    requires |u8| > 9 && Onward(u8, 0).Some?
    ensures Found(u8, 0) == Found(u8, Onward(u8, 0).value)
  {
  }

  lemma {:induction false} FrameReached(parts: seq<Part>, f: Frame, after: seq<Byte>)
    requires AllWellFormed(parts) && Complete(f)
    ensures Found(PartsBytes(parts) + FrameBytes(f) + after, 0) == Some(f.size)
  {
    FrameLong(f);
    hide Found, PartBytes, FrameBytes, Complete;
    if parts == [] {
      FrameFound(f, after);
      assert [] + FrameBytes(f) == FrameBytes(f);
    } else {
      var first, others := PartBytes(parts[0]), PartsBytes(parts[1..]);
      var rest := others + FrameBytes(f) + after;
      FrameReached(parts[1..], f, after);
      PartSkipped(parts[0], rest);
      hide PartsBytes, WellFormed, AllWellFormed;
      assert first + others + FrameBytes(f) + after == first + rest;
    }
  }

  lemma FrameLong(f: Frame)
    requires Complete(f)
    ensures |FrameBytes(f)| >= 10 && FrameBytes(f)[0] == 0xff
  {
  }

  /** A file: the start of the image, any well-formed parts, a frame, and whatever comes after it. */
  function File(parts: seq<Part>, f: Frame, after: seq<Byte>): seq<Byte>
    requires AllWellFormed(parts) && Complete(f)
  {
    [0xff, 0xd8] + (PartsBytes(parts) + FrameBytes(f) + after)
  }

  /** In such a file the size found is the frame's own. */
  lemma FileSize(parts: seq<Part>, f: Frame, after: seq<Byte>)
    requires AllWellFormed(parts) && Complete(f)
    ensures IsJpeg(File(parts, f, after)) && Found(File(parts, f, after), 2) == Some(f.size)
  {
    hide Found;
    var rest := PartsBytes(parts) + FrameBytes(f) + after;
    var u8 := File(parts, f, after);
    FrameReached(parts, f, after);
    FoundInSuffix(u8, 2, 2);
    assert u8[2..] == rest;
    assert rest[0] == 0xff by {
      if parts != [] { assert PartBytes(parts[0])[0] == 0xff; }
    }
  }

  /** Whatever the bytes are, a size that is found stands behind a start-of-frame marker. */
  lemma {:induction false} FoundIsFrame(u8: seq<Byte>, i: nat) returns (k: nat)
    requires Found(u8, i).Some?
    ensures i <= k && k + 9 < |u8| && u8[k] == 0xff && IsFrame(u8[k + 1]) && Found(u8, i) == Some(SizeAt(u8, k))
    decreases |u8| - i
  {
    if u8[i] == 0xff && !StandsAlone(u8[i + 1]) && IsFrame(u8[i + 1]) {
      k := i;
    } else {
      k := FoundIsFrame(u8, Onward(u8, i).value);
    }
  }

  // ------------------------------------------------------------ fill bytes

  /** Fill bytes, as T.81, section B.1.1.2, lets any number of them stand before a marker. */
  function Fill(n: nat): (r: seq<Byte>)
    ensures |r| == n && forall i :: 0 <= i < n ==> r[i] == 0xff
  {
    if n == 0 then [] else [0xff] + Fill(n - 1)
  }

  /** A part with fill bytes before it. */
  datatype Filled = Filled(fill: nat, part: Part)

  /** A filled part is well formed, and its marker is one of those from 0xc0 on if there is a fill byte. */
  predicate AllFilled(parts: seq<Filled>) {
    forall i :: 0 <= i < |parts| ==> WellFormed(parts[i].part) && (parts[i].fill > 0 ==> parts[i].part.marker >= 0xc0)
  }

  function FilledBytes(parts: seq<Filled>): seq<Byte>
    requires AllFilled(parts)
  {
    if parts == [] then [] else Fill(parts[0].fill) + PartBytes(parts[0].part) + FilledBytes(parts[1..])
  }

  predicate NoFill(parts: seq<Filled>) {
    forall i :: 0 <= i < |parts| ==> parts[i].fill == 0
  }

  /** What stands where a length is looked for behind the first of n fill bytes before `rest`. */
  function FillLength(n: nat, rest: seq<Byte>): nat
    requires n > 0 && |rest| >= 3
  {
    if n == 1 then Word(rest[1], rest[2]) else if n == 2 then Word(0xff, rest[1]) else 0xffff
  }

  /**
   * A fill byte is read as a marker of its own: wherever fill bytes stand before a
   * marker from 0xc0 on, the walk goes on behind a length taken from what follows it.
   */
  lemma FillResumes(u8: seq<Byte>, i: nat, n: nat, rest: seq<Byte>)
    requires n > 0 && |rest| >= 3 && rest[0] == 0xff && rest[1] >= 0xc0
    requires i + 9 < |u8| && u8[i..] == Fill(n) + rest
    ensures FillLength(n, rest) >= 0xc000 && Found(u8, i) == Found(u8, i + 2 + FillLength(n, rest))
  {
    FillLeads(n, rest);
    hide Fill, FillLength, Found;
    assert forall k :: 0 <= k < 4 ==> u8[i + k] == u8[i..][k];
    Skips(u8, i, FillLength(n, rest));
  }

  lemma FillLeads(n: nat, rest: seq<Byte>)
    requires n > 0 && |rest| >= 3 && rest[0] == 0xff && rest[1] >= 0xc0
    ensures var bytes := Fill(n) + rest;
            && |bytes| >= 4 && bytes[0] == 0xff && bytes[1] == 0xff
            && Word(bytes[2], bytes[3]) == FillLength(n, rest) >= 0xc000
  {
  }

  lemma Skips(u8: seq<Byte>, i: nat, length: nat)
    requires i + 9 < |u8| && u8[i] == 0xff && u8[i + 1] == 0xff && Word(u8[i + 2], u8[i + 3]) == length >= 2
    ensures Found(u8, i) == Found(u8, i + 2 + length)
  {
  }

  lemma PastTheEnd(u8: seq<Byte>, i: nat)
    requires i + 9 >= |u8|
    ensures Found(u8, i) == None
  {
  }

  /** Before a marker from 0xc0 on that length is at least 0xc000: too long for the rest of a small file. */
  lemma FillHides(n: nat, rest: seq<Byte>)
    requires n > 0 && |rest| >= 3 && rest[0] == 0xff && rest[1] >= 0xc0
    requires |Fill(n) + rest| < 0xc000
    ensures Found(Fill(n) + rest, 0) == None
  {
    hide Found, Fill, FillLength;
    var u8 := Fill(n) + rest;
    if |u8| > 9 {
      assert u8[0..] == u8;
      FillResumes(u8, 0, n, rest);
      PastTheEnd(u8, 2 + FillLength(n, rest));
    } else {
      PastTheEnd(u8, 0);
    }
  }

  /** What follows the start of the image: filled parts, a filled frame, and whatever comes after it. */
  function Chain(parts: seq<Filled>, fill: nat, f: Frame, after: seq<Byte>): seq<Byte>
    requires AllFilled(parts) && Complete(f)
  {
    FilledBytes(parts) + (Fill(fill) + (FrameBytes(f) + after))
  }

  lemma ChainFirst(parts: seq<Filled>, fill: nat, f: Frame, after: seq<Byte>)
    requires AllFilled(parts) && Complete(f) && parts != []
    ensures AllFilled(parts[1..])
    ensures Chain(parts, fill, f, after) ==
      Fill(parts[0].fill) + (PartBytes(parts[0].part) + Chain(parts[1..], fill, f, after))
    ensures |Chain(parts[1..], fill, f, after)| >= 10
  {
    FrameLong(f);
    hide PartBytes, FrameBytes, Complete, WellFormed;
    assert parts[0] in parts;
    var first, others := PartBytes(parts[0].part), FilledBytes(parts[1..]);
    var tail := Fill(fill) + (FrameBytes(f) + after);
    hide FilledBytes, Fill, AllFilled;
    Regroup(Fill(parts[0].fill), first, others, tail);
  }

  lemma Regroup(a: seq<Byte>, b: seq<Byte>, c: seq<Byte>, d: seq<Byte>)
    ensures a + b + c + d == a + (b + (c + d))
  {
  }

  lemma PartStarts(p: Part, rest: seq<Byte>)
    requires WellFormed(p)
    ensures |PartBytes(p) + rest| >= 2 && (PartBytes(p) + rest)[0] == 0xff && (PartBytes(p) + rest)[1] == p.marker
  {
  }

  lemma FrameStarts(f: Frame, after: seq<Byte>)
    requires Complete(f)
    ensures |FrameBytes(f) + after| >= 3
    ensures (FrameBytes(f) + after)[0] == 0xff && (FrameBytes(f) + after)[1] >= 0xc0
  {
  }

  lemma {:induction false} ChainFound(parts: seq<Filled>, fill: nat, f: Frame, after: seq<Byte>)
    requires AllFilled(parts) && Complete(f) && |Chain(parts, fill, f, after)| < 0xc000
    ensures Found(Chain(parts, fill, f, after), 0) == if NoFill(parts) && fill == 0 then Some(f.size) else None
  {
    hide Found, PartBytes, FrameBytes, Fill, Complete, WellFormed, Chain;
    if parts == [] {
      ChainOfNoParts(fill, f, after);
      if fill == 0 {
        FrameFound(f, after);
      } else {
        FrameStarts(f, after);
        FillHides(fill, FrameBytes(f) + after);
      }
    } else {
      ChainFirst(parts, fill, f, after);
      var first, rest := PartBytes(parts[0].part), Chain(parts[1..], fill, f, after);
      if parts[0].fill > 0 {
        PartStarts(parts[0].part, rest);
        FillHides(parts[0].fill, first + rest);
      } else {
        assert Fill(0) + (first + rest) == first + rest;
        PartSkipped(parts[0].part, rest);
        ChainFound(parts[1..], fill, f, after);
      }
    }
  }

  lemma ChainOfNoParts(fill: nat, f: Frame, after: seq<Byte>)
    requires Complete(f)
    ensures Chain([], fill, f, after) == Fill(fill) + (FrameBytes(f) + after)
    ensures fill == 0 ==> Chain([], fill, f, after) == FrameBytes(f) + after
  {
    hide FrameBytes;
  }

  /**
   * In a file of less than 48 KB whose markers may have fill bytes before them, the
   * frame's size is found if and only if no marker up to the frame has any.
   */
  lemma FoundIffNoFill(parts: seq<Filled>, fill: nat, f: Frame, after: seq<Byte>)
    requires AllFilled(parts) && Complete(f) && |Chain(parts, fill, f, after)| < 0xc000
    ensures var u8 := [0xff, 0xd8] + Chain(parts, fill, f, after);
            && IsJpeg(u8)
            && Found(u8, 2) == (if NoFill(parts) && fill == 0 then Some(f.size) else None)
            && (Found(u8, 2) == Some(f.size) <==> NoFill(parts) && fill == 0)
  {
    hide Found, PartBytes, FrameBytes, Fill, Complete, WellFormed, Chain, NoFill;
    var rest := Chain(parts, fill, f, after);
    var u8 := [0xff, 0xd8] + rest;
    ChainFound(parts, fill, f, after);
    FoundInSuffix(u8, 2, 2);
    assert u8[2..] == rest;
    ChainStarts(parts, fill, f, after);
    assert u8[2] == rest[0];
  }

  lemma ChainStarts(parts: seq<Filled>, fill: nat, f: Frame, after: seq<Byte>)
    requires AllFilled(parts) && Complete(f)
    ensures Chain(parts, fill, f, after) != [] && Chain(parts, fill, f, after)[0] == 0xff
  {
    hide PartBytes, FrameBytes, Complete, WellFormed, Chain;
    if parts == [] {
      ChainOfNoParts(fill, f, after);
      FrameStarts(f, after);
    } else {
      ChainFirst(parts, fill, f, after);
      PartStarts(parts[0].part, Chain(parts[1..], fill, f, after));
    }
  }
}
