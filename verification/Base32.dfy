// Base32 over an accumulator of 32 bits that overflows, and the counter block of HOTP.
module Base32 {
  import opened Bitwise

  // ------------------------------------------------------------ digits in a power of two

  /** The number the digits spell, k bits to a digit, the first the highest. */
  function Number(k: nat, digits: seq<nat>): nat {
    if digits == [] then 0 else Number(k, digits[..|digits| - 1]) * Pow2(k) + digits[|digits| - 1]
  }

  predicate DigitsBelow(n: nat, digits: seq<nat>) {
    forall i :: 0 <= i < |digits| ==> digits[i] < n
  }

  lemma {:induction false} Pow2Adds(a: nat, b: nat)
    ensures Pow2(a + b) == Pow2(a) * Pow2(b)
  {
    if a > 0 { Pow2Adds(a - 1, b); }
  }

  /** As many digits that spell the same number are the same digits. */
  lemma {:induction false} NumberInjective(k: nat, a: seq<nat>, b: seq<nat>)
    requires |a| == |b| && DigitsBelow(Pow2(k), a) && DigitsBelow(Pow2(k), b) && Number(k, a) == Number(k, b)
    ensures a == b
  {
    if a != [] {
      var n := |a| - 1;
      QuotientUnique(Pow2(k), Number(k, a[..n]), a[n], Number(k, b[..n]), b[n]);
      NumberInjective(k, a[..n], b[..n]);
      assert a == a[..n] + [a[n]] && b == b[..n] + [b[n]];
    }
  }

  // Products of variables, one law at a time.

  lemma Distributes(a: int, b: int, c: int)
    ensures (a + b) * c == a * c + b * c
  {
  }

  lemma Associates(a: int, b: int, c: int)
    ensures (a * b) * c == a * (b * c) && (a * b) * c == (a * c) * b
  {
  }

  lemma Grows(a: nat, b: nat, c: nat)
    requires a <= b
    ensures a * c <= b * c
  {
    Distributes(b - a, a, c);
  }

  lemma QuotientUnique(d: nat, q: nat, r: nat, p: nat, s: nat)
    requires r < d && s < d && q * d + r == p * d + s
    ensures q == p && r == s
  {
    if q < p {
      Distributes(p - q, q, d);
      Grows(1, p - q, d);
    } else if p < q {
      Distributes(q - p, p, d);
      Grows(1, q - p, d);
    }
  }

  lemma Divides(v: nat, d: nat)
    requires d > 0
    ensures v == v / d * d + v % d && v % d < d
  {
  }

  lemma QuotientIs(v: nat, d: nat, q: nat, r: nat)
    requires r < d && v == q * d + r
    ensures v / d == q && v % d == r
  {
    Divides(v, d);
    QuotientUnique(d, v / d, v % d, q, r);
  }

  lemma NumberNext(k: nat, digits: seq<nat>, digit: nat)
    ensures Number(k, digits + [digit]) == Number(k, digits) * Pow2(k) + digit
  {
    assert (digits + [digit])[..|digits|] == digits;
  }

  // ------------------------------------------------------------ the 32-bit accumulator

  const WORD: nat := 0x1_0000_0000

  /** (value << k) | digit, as an unsigned 32-bit word; the low k bits of the shifted value are zero. */
  function Push(value: nat, k: nat, digit: nat): nat {
    value * Pow2(k) % WORD + digit
  }

  /** (value >>> shift) & (2^k - 1) */
  function Field(value: nat, shift: nat, k: nat): nat {
    value / Pow2(shift) % Pow2(k)
  }

  /** v is p whole products a * b, s whole a's and r over. */
  lemma Split(v: nat, a: nat, b: nat) returns (p: nat, s: nat, r: nat)
    requires a > 0 && b > 0
    ensures p == v / (a * b) && s == v / a % b && r == v % a
    ensures v % (a * b) == s * a + r && s * a + r < a * b && s < b
  {
    var q := v / a;
    p, s, r := q / b, q % b, v % a;
    Divides(v, a);
    Divides(q, b);
    Distributes(p * b, s, a);
    Associates(p, a, b);
    Grows(s + 1, b, a);
    Distributes(s, 1, a);
    QuotientIs(v, a * b, p, s * a + r);
  }

  lemma ModOfMod(v: nat, a: nat, b: nat)
    requires a > 0 && b > 0
    ensures v % (a * b) % a == v % a
  {
    var p, s, r := Split(v, a, b);
    QuotientIs(s * a + r, a, s, r);
  }

  lemma ModScales(v: nat, a: nat, b: nat)
    requires a > 0 && b > 0
    ensures v * b % (a * b) == v % a * b
  {
    var q, r := v / a, v % a;
    Divides(v, a);
    Distributes(q * a, r, b);
    Associates(q, a, b);
    Grows(r + 1, a, b);
    Distributes(r, 1, b);
    QuotientIs(v * b, a * b, q, r * b);
  }

  lemma WordIsPow2()
    ensures WORD == Pow2(32)
  {
    hide Pow2;
    SmallPowers();
    Pow2Adds(8, 8);
    Pow2Adds(16, 16);
  }

  lemma SmallPowers()
    ensures Pow2(5) == 32 && Pow2(8) == 256
  {
    assert Pow2(4) == 16;
    hide Pow2;
    Pow2Adds(4, 4);
    Pow2Adds(4, 1);
    assert Pow2(1) == 2 by { Pow2One(); }
  }

  lemma Pow2One()
    ensures Pow2(1) == 2
  {
  }

  /** Overflow never reaches the bits that matter: after a push the low bits are the old low bits and the digit. */
  lemma PushKeepsLow(value: nat, bits: nat, k: nat, digit: nat)
    requires bits + k <= 32 && digit < Pow2(k)
    ensures Push(value, k, digit) % Pow2(bits + k) == value % Pow2(bits) * Pow2(k) + digit
  {
    WordIsPow2();
    var a, b, c := Pow2(bits), Pow2(k), Pow2(32 - bits - k);
    Pow2Adds(bits, k);
    Pow2Adds(bits + k, 32 - bits - k);
    assert WORD == (a * b) * c;
    ModOfMod(value * b, a * b, c);
    ModScales(value, a, b);
    var w := value * b % WORD;
    assert w % (a * b) == value % a * b;
    LowDigit(w, a, b, value % a, digit);
  }

  lemma LowDigit(w: nat, a: nat, b: nat, q: nat, digit: nat)
    requires a > 0 && digit < b && q < a && a * b > 0 && w % (a * b) == q * b
    ensures (w + digit) % (a * b) == q * b + digit
  {
    var m := a * b;
    Divides(w, m);
    Grows(q + 1, a, b);
    Distributes(q, 1, b);
    QuotientIs(w + digit, m, w / m, q * b + digit);
  }

  /** Taking a field off the top of the low bits leaves the rest of them. */
  lemma FieldSplits(value: nat, shift: nat, k: nat)
    ensures value % Pow2(shift + k) == Field(value, shift, k) * Pow2(shift) + value % Pow2(shift)
    ensures Field(value, shift, k) < Pow2(k)
  {
    Pow2Adds(shift, k);
    var p, s, r := Split(value, Pow2(shift), Pow2(k));
  }

  // ------------------------------------------------------------ the alphabet

  const B32 := "ABCDEFGHIJKLMNOPQRSTUVWXYZ234567"

  predicate InAlphabet(c: char) {
    'A' <= c <= 'Z' || '2' <= c <= '7'
  }

  predicate AllSymbols(text: string) {
    forall i :: 0 <= i < |text| ==> InAlphabet(text[i])
  }

  /** B32.indexOf(c) */
  function IndexOf(c: char): (i: nat)
    requires InAlphabet(c)
    ensures i < 32 && B32[i] == c
  {
    if 'A' <= c <= 'Z' then c as int - 'A' as int else c as int - '2' as int + 26
  }

  lemma IndexBack(i: nat)
    requires i < 32
    ensures InAlphabet(B32[i]) && IndexOf(B32[i]) == i
  {
    hide B32;
    if i < 26 { LetterAt(i); } else { DigitAt(i); }
  }

  lemma LetterAt(i: nat)
    requires i < 26
    ensures B32[i] as int == 'A' as int + i
  {
  }

  lemma DigitAt(i: nat)
    requires 26 <= i < 32
    ensures B32[i] as int == '2' as int + i - 26
  {
  }

  /** The characters of the alphabet in a text, in order. */
  function Kept(text: string): (r: string)
    ensures AllSymbols(r)
  {
    if text == "" then ""
    else
      var k := |text| - 1;
      Kept(text[..k]) + if InAlphabet(text[k]) then [text[k]] else ""
  }

  lemma {:induction false} AllKept(text: string)
    requires AllSymbols(text)
    ensures Kept(text) == text
  {
    if text != "" {
      var k := |text| - 1;
      AllKept(text[..k]);
      KeptNext(text[..k], text[k]);
      assert text == text[..k] + [text[k]];
    }
  }

  lemma KeptNext(text: string, c: char)
    ensures Kept(text + [c]) == Kept(text) + if InAlphabet(c) then [c] else ""
  {
    assert (text + [c])[..|text|] == text;
  }

  function Indices(symbols: string): (r: seq<nat>)
    requires AllSymbols(symbols)
    ensures |r| == |symbols| && DigitsBelow(32, r)
    ensures forall i :: 0 <= i < |r| ==> B32[r[i]] == symbols[i]
  {
    if symbols == "" then []
    else
      var k := |symbols| - 1;
      Indices(symbols[..k]) + [IndexOf(symbols[k])]
  }

  // ------------------------------------------------------------ encoding and decoding

  /**
   * The encoding of bytes (RFC 4648, section 6): the same number, five bits to a
   * symbol, filled up with zero bits to a whole number of symbols.
   */
  predicate Encodes(bytes: seq<nat>, symbols: seq<nat>) {
    && DigitsBelow(32, symbols)
    && 0 <= 5 * |symbols| - 8 * |bytes| < 5
    && Number(5, symbols) == Number(8, bytes) * Pow2(5 * |symbols| - 8 * |bytes|)
  }

  /** Decoding keeps whole bytes and forgets the bits left over. */
  predicate Decodes(symbols: seq<nat>, bytes: seq<nat>) {
    && DigitsBelow(256, bytes)
    && 0 <= 5 * |symbols| - 8 * |bytes| < 8
    && Number(8, bytes) == Number(5, symbols) / Pow2(5 * |symbols| - 8 * |bytes|)
  }

  lemma EncodingUnique(bytes: seq<nat>, a: seq<nat>, b: seq<nat>)
    requires Encodes(bytes, a) && Encodes(bytes, b)
    ensures a == b
  {
    SmallPowers();
    assert |a| == |b|;
    NumberInjective(5, a, b);
  }

  /** Decoding undoes encoding. */
  lemma DecodingUndoesEncoding(bytes: seq<nat>, symbols: seq<nat>, back: seq<nat>)
    requires DigitsBelow(256, bytes) && Encodes(bytes, symbols) && Decodes(symbols, back)
    ensures back == bytes
  {
    hide Number, Pow2;
    SmallPowers();
    assert |back| == |bytes|;
    var d := 5 * |symbols| - 8 * |bytes|;
    QuotientIs(Number(5, symbols), Pow2(d), Number(8, bytes), 0);
    NumberInjective(8, bytes, back);
  }

  /** The accumulator has taken in `read` and given out `out`, and its low bits hold the rest. */
  predicate Holds(read: nat, k: nat, out: seq<nat>, value: nat, bits: nat) {
    Number(k, out) * Pow2(bits) + value % Pow2(bits) == read
  }

  lemma HoldsPush(read: nat, k: nat, out: seq<nat>, value: nat, bits: nat, j: nat, digit: nat)
    requires Holds(read, k, out, value, bits) && bits + j <= 32 && digit < Pow2(j)
    ensures Holds(read * Pow2(j) + digit, k, out, Push(value, j, digit), bits + j)
  {
    hide Number, Pow2, Push;
    PushKeepsLow(value, bits, j, digit);
    Pow2Adds(bits, j);
    var n, a, b := Number(k, out), Pow2(bits), Pow2(j);
    Distributes(n * a, value % a, b);
    Associates(n, a, b);
  }

  lemma HoldsField(read: nat, k: nat, out: seq<nat>, value: nat, bits: nat)
    requires Holds(read, k, out, value, bits) && bits >= k
    ensures Holds(read, k, out + [Field(value, bits - k, k)], value, bits - k)
  {
    hide Number, Pow2, Field;
    var s := bits - k;
    FieldSplits(value, s, k);
    Pow2Adds(k, s);
    var n, a, b, f := Number(k, out), Pow2(s), Pow2(k), Field(value, s, k);
    NumberNext(k, out, f);
    Distributes(n * b, f, a);
    Associates(n, b, a);
  }

  /** base32Encode. */
  method Encode(bytes: seq<nat>) returns (out: string)
    requires DigitsBelow(256, bytes)
    ensures AllSymbols(out)
    ensures Encodes(bytes, Indices(out))
  {
    hide Number, Pow2, Field, Push, Holds, Indices;
    SmallPowers();
    var bits, value := 0, 0;
    out := "";
    ghost var symbols: seq<nat> := [];
    HoldsNothing(5, symbols, bits);
    HoldsNothing(8, bytes[..0], bits);
    for i := 0 to |bytes|
      invariant bits < 5 && 5 * |symbols| + bits == 8 * i
      invariant Holds(Number(8, bytes[..i]), 5, symbols, value, bits)
      invariant Spells(out, symbols)
    {
      HoldsPush(Number(8, bytes[..i]), 5, symbols, value, bits, 8, bytes[i]);
      NumberNext(8, bytes[..i], bytes[i]);
      assert bytes[..i + 1] == bytes[..i] + [bytes[i]];
      value := Push(value, 8, bytes[i]);
      bits := bits + 8;
      while bits >= 5
        invariant 5 * |symbols| + bits == 8 * (i + 1)
        invariant Holds(Number(8, bytes[..i + 1]), 5, symbols, value, bits)
        invariant Spells(out, symbols)
      {
        HoldsField(Number(8, bytes[..i + 1]), 5, symbols, value, bits);
        FieldSplits(value, bits - 5, 5);
        SpellsNext(out, symbols, Field(value, bits - 5, 5));
        out := out + [B32[Field(value, bits - 5, 5)]];
        symbols := symbols + [Field(value, bits - 5, 5)];
        bits := bits - 5;
      }
    }
    assert bytes[..|bytes|] == bytes;
    if bits > 0 {
      Padding(Number(8, bytes), symbols, value, bits);
      SpellsNext(out, symbols, Push(value, 5 - bits, 0) % 32);
      out := out + [B32[Push(value, 5 - bits, 0) % 32]];
      symbols := symbols + [Push(value, 5 - bits, 0) % 32];
    } else {
      NoPadding(Number(8, bytes), symbols, value);
    }
    SpelledIndices(out, symbols);
  }

  predicate Spells(out: string, symbols: seq<nat>) {
    |out| == |symbols| && DigitsBelow(32, symbols) && forall i :: 0 <= i < |out| ==> out[i] == B32[symbols[i]]
  }

  lemma SpellsNext(out: string, symbols: seq<nat>, symbol: nat)
    requires Spells(out, symbols) && symbol < 32
    ensures Spells(out + [B32[symbol]], symbols + [symbol])
  {
  }

  lemma {:induction false} SpelledIndices(out: string, symbols: seq<nat>)
    requires Spells(out, symbols)
    ensures AllSymbols(out) && Indices(out) == symbols
  {
    forall i | 0 <= i < |out| ensures InAlphabet(out[i]) {
      IndexBack(symbols[i]);
    }
    var back := Indices(out);
    forall i | 0 <= i < |out| ensures back[i] == symbols[i] {
      IndexBack(symbols[i]);
      IndexBack(back[i]);
    }
  }

  lemma HoldsNothing(k: nat, none: seq<nat>, zero: nat)
    requires none == [] && zero == 0
    ensures Number(k, none) == 0 && Holds(0, k, none, zero, zero)
  {
    assert Pow2(zero) == 1;
  }

  lemma NoPadding(read: nat, symbols: seq<nat>, value: nat)
    requires Holds(read, 5, symbols, value, 0)
    ensures Number(5, symbols) == read == read * Pow2(0)
  {
    hide Number;
  }

  /** The last symbol takes the bits left over and zeros below them. */
  lemma Padding(read: nat, symbols: seq<nat>, value: nat, bits: nat)
    requires Holds(read, 5, symbols, value, bits) && 0 < bits < 5
    ensures Number(5, symbols + [Push(value, 5 - bits, 0) % 32]) == read * Pow2(5 - bits)
  {
    hide Number, Pow2;
    SmallPowers();
    var last := Push(value, 5 - bits, 0) % 32;
    PushKeepsLow(value, bits, 5 - bits, 0);
    Pow2Adds(bits, 5 - bits);
    NumberNext(5, symbols, last);
    var n, a, b := Number(5, symbols), Pow2(bits), Pow2(5 - bits);
    Distributes(n * a, value % a, b);
    Associates(n, a, b);
  }

  /** base32Decode; `upper` is toUpperCase. */
  method Decode(upper: string -> string, input: string) returns (out: seq<nat>)
    ensures Decodes(Indices(Kept(upper(input))), out)
  {
    hide Number, Pow2, Field, Push, Holds, Indices, Kept;
    SmallPowers();
    var s := Kept(upper(input));
    ghost var symbols := Indices(s);
    var bits, value := 0, 0;
    out := [];
    HoldsNothing(8, out, bits);
    HoldsNothing(5, symbols[..0], bits);
    for i := 0 to |s|
      invariant bits < 8 && 8 * |out| + bits == 5 * i && DigitsBelow(256, out)
      invariant Holds(Number(5, symbols[..i]), 8, out, value, bits)
    {
      var idx := IndexOf(s[i]);
      IndexBack(idx);
      IndexBack(symbols[i]);
      assert idx == symbols[i];
      HoldsPush(Number(5, symbols[..i]), 8, out, value, bits, 5, idx);
      NumberNext(5, symbols[..i], idx);
      assert symbols[..i + 1] == symbols[..i] + [idx];
      value := Push(value, 5, idx);
      bits := bits + 5;
      if bits >= 8 {
        HoldsField(Number(5, symbols[..i + 1]), 8, out, value, bits);
        FieldSplits(value, bits - 8, 8);
        out := out + [Field(value, bits - 8, 8)];
        bits := bits - 8;
      }
    }
    assert symbols[..|s|] == symbols;
    WholeBytes(Number(5, symbols), out, value, bits);
  }

  lemma WholeBytes(read: nat, out: seq<nat>, value: nat, bits: nat)
    requires Holds(read, 8, out, value, bits)
    ensures Number(8, out) == read / Pow2(bits)
  {
    hide Number, Pow2;
    QuotientIs(read, Pow2(bits), Number(8, out), value % Pow2(bits));
  }

  /** Every byte sequence comes back, provided upper-casing leaves the alphabet alone. */
  method RoundTrip(upper: string -> string, bytes: seq<nat>) returns (back: seq<nat>)
    requires DigitsBelow(256, bytes)
    requires forall t: string :: AllSymbols(t) ==> upper(t) == t
    ensures back == bytes
  {
    hide Encodes, Decodes, Indices, Kept;
    var text := Encode(bytes);
    back := Decode(upper, text);
    AllKept(text);
    DecodingUndoesEncoding(bytes, Indices(text), back);
  }

  // ------------------------------------------------------------ the counter block of HOTP

  /** setUint32, most significant byte first. */
  function WordBytes(w: nat): (r: seq<nat>)
    requires w < WORD
    ensures |r| == 4 && DigitsBelow(256, r)
  {
    [w / 0x100_0000, w / 0x1_0000 % 256, w / 256 % 256, w % 256]
  }

  /** The counter as hotp writes it: its high word, then its low word, each taken modulo 2^32. */
  function CounterBlock(counter: int): seq<nat> {
    WordBytes(counter / WORD % WORD) + WordBytes(counter % WORD)
  }

  lemma WordDigits(w: nat)
    requires w < WORD
    ensures ((w / 0x100_0000 * 256 + w / 0x1_0000 % 256) * 256 + w / 256 % 256) * 256 + w % 256 == w
  {
    assert w / 0x100_0000 == w / 0x1_0000 / 256;
    assert w / 0x1_0000 == w / 256 / 256;
  }

  lemma NumberWord(prefix: seq<nat>, w: nat)
    requires w < WORD
    ensures Number(8, prefix + WordBytes(w)) == Number(8, prefix) * WORD + w
  {
    SmallPowers();
    WordDigits(w);
    hide Pow2, Number;
    var b := WordBytes(w);
    NumberNext(8, prefix, b[0]);
    NumberNext(8, prefix + [b[0]], b[1]);
    NumberNext(8, prefix + [b[0], b[1]], b[2]);
    NumberNext(8, prefix + [b[0], b[1], b[2]], b[3]);
    assert prefix + [b[0]] + [b[1]] == prefix + [b[0], b[1]];
    assert prefix + [b[0], b[1]] + [b[2]] == prefix + [b[0], b[1], b[2]];
    assert prefix + [b[0], b[1], b[2]] + [b[3]] == prefix + b;
    var n := Number(8, prefix);
    assert (((n * 256 + b[0]) * 256 + b[1]) * 256 + b[2]) * 256 + b[3] ==
           n * WORD + (((b[0] * 256 + b[1]) * 256 + b[2]) * 256 + b[3]);
  }

  /** The eight bytes spell the counter modulo 2^64, and the counter itself wherever it is one of 64 bits. */
  lemma CounterBlockSpells(counter: int)
    ensures |CounterBlock(counter)| == 8 && DigitsBelow(256, CounterBlock(counter))
    ensures Number(8, CounterBlock(counter)) == counter % (WORD * WORD)
    ensures 0 <= counter < WORD * WORD ==> Number(8, CounterBlock(counter)) == counter
  {
    var high, low := counter / WORD % WORD, counter % WORD;
    var none: seq<nat> := [];
    NumberWord(none, high);
    NumberWord(WordBytes(high), low);
    assert none + WordBytes(high) == WordBytes(high);
    assert Number(8, none) == 0;
    hide Number, WordBytes;
    CounterSplits(counter);
  }

  lemma CounterSplits(counter: int)
    ensures counter / WORD % WORD * WORD + counter % WORD == counter % (WORD * WORD)
  {
    var q := counter / WORD;
    assert counter == (q / WORD) * (WORD * WORD) + (q % WORD * WORD + counter % WORD);
  }
}
