/** The bit stream of a symbol, four bits at a time and without the functions that build it: section 7.4 of
    ISO/IEC 18004. */
module QrStream {
  import opened Wrappers
  import opened Bits
  import opened Gf256
  import opened QrBits

  /** Four bits as a number. */
  function Nibble(b: seq<bool>): nat
    requires |b| == 4
  {
    (if b[0] then 8 else 0) + (if b[1] then 4 else 0) + (if b[2] then 2 else 0) + (if b[3] then 1 else 0)
  }

  /** The `n` nibbles of a bit string. */
  function Nibbles(b: seq<bool>, n: nat): (r: seq<nat>)
    requires |b| == 4 * n
    ensures |r| == n
  {
    seq(n, k requires 0 <= k < n => Nibble(b[4 * k..4 * k + 4]))
  }

  /** The character count in two nibbles, or in four. */
  function CountNibbles(n: nat, countBits: nat): seq<nat> {
    if countBits == 8 then [n / 16 % 16, n % 16] else [n / 4096 % 16, n / 256 % 16, n / 16 % 16, n % 16]
  }

  function DataNibbles(data: seq<byte>): seq<nat>
    decreases |data|
  {
    if data == [] then [] else [data[0] / 16, data[0] % 16] + DataNibbles(data[1..])
  }

  /** The pad codewords 11101100 and 00010001 in turn. */
  function PadNibbles(n: nat): seq<nat> {
    if n == 0 then [] else PadNibbles(n - 1) + if n % 2 == 1 then [14, 12] else [1, 1]
  }

  lemma NibblesAppend(a: seq<bool>, m: nat, b: seq<bool>, n: nat)
    requires |a| == 4 * m && |b| == 4 * n
    ensures Nibbles(a + b, m + n) == Nibbles(a, m) + Nibbles(b, n)
  {
    hide Nibble;
    forall k | 0 <= k < m ensures (a + b)[4 * k..4 * k + 4] == a[4 * k..4 * k + 4] {
    }
    forall k | m <= k < m + n ensures (a + b)[4 * k..4 * k + 4] == b[4 * (k - m)..4 * (k - m) + 4] {
    }
  }

  lemma FourBits(v: nat)
    ensures NumBits(v, 4) == [v / 2 / 2 / 2 % 2 == 1, v / 2 / 2 % 2 == 1, v / 2 % 2 == 1, v % 2 == 1]
  {
    assert NumBits(v, 4) == NumBits(v / 2, 3) + [v % 2 == 1];
    assert NumBits(v / 2, 3) == NumBits(v / 2 / 2, 2) + [v / 2 % 2 == 1];
    assert NumBits(v / 2 / 2, 2) == NumBits(v / 2 / 2 / 2, 1) + [v / 2 / 2 % 2 == 1];
    assert NumBits(v / 2 / 2 / 2, 1) == NumBits(v / 2 / 2 / 2 / 2, 0) + [v / 2 / 2 / 2 % 2 == 1];
  }

  lemma OneNibble(v: nat)
    ensures Nibbles(NumBits(v, 4), 1) == [v % 16]
  {
    FourBits(v);
    hide NumBits;
    var b := NumBits(v, 4);
    assert b[..4] == b && b[4..] == [];
    Sixteen(v);
  }

  lemma Sixteen(v: nat)
    ensures v % 16 == 8 * (v / 2 / 2 / 2 % 2) + 4 * (v / 2 / 2 % 2) + 2 * (v / 2 % 2) + v % 2
  {
    var a := v / 2;
    var b := a / 2;
    var c := b / 2;
    QuotientUnique(v, 16, c / 2, 8 * (c % 2) + 4 * (b % 2) + 2 * (a % 2) + v % 2);
  }

  lemma FourMore(v: nat, width: nat)
    requires width >= 4
    ensures NumBits(v, width) == NumBits(v / 16, width - 4) + NumBits(v, 4)
  {
    var w := width - 4;
    assert NumBits(v, w + 4) == NumBits(v / 2, w + 3) + [v % 2 == 1];
    assert NumBits(v / 2, w + 3) == NumBits(v / 2 / 2, w + 2) + [v / 2 % 2 == 1];
    assert NumBits(v / 2 / 2, w + 2) == NumBits(v / 2 / 2 / 2, w + 1) + [v / 2 / 2 % 2 == 1];
    assert NumBits(v / 2 / 2 / 2, w + 1) == NumBits(v / 2 / 2 / 2 / 2, w) + [v / 2 / 2 / 2 % 2 == 1];
    assert v / 2 / 2 / 2 / 2 == v / 16;
    FourBits(v);
  }

  lemma EightBits(v: nat)
    ensures Nibbles(NumBits(v, 8), 2) == [v / 16 % 16, v % 16]
  {
    FourMore(v, 8);
    hide NumBits, Nibbles;
    NibblesAppend(NumBits(v / 16, 4), 1, NumBits(v, 4), 1);
    OneNibble(v / 16);
    OneNibble(v);
  }

  lemma SixteenBits(v: nat)
    ensures Nibbles(NumBits(v, 16), 4) == [v / 4096 % 16, v / 256 % 16, v / 16 % 16, v % 16]
  {
    FourMore(v, 16);
    FourMore(v / 16, 12);
    assert v / 16 / 16 == v / 256 && v / 256 / 16 == v / 4096;
    hide NumBits, Nibbles;
    NibblesAppend(NumBits(v / 16, 12), 3, NumBits(v, 4), 1);
    NibblesAppend(NumBits(v / 256, 8), 2, NumBits(v / 16, 4), 1);
    EightBits(v / 256);
    OneNibble(v / 16);
    OneNibble(v);
  }

  lemma {:induction false} DataAppend(a: seq<byte>, d: byte)
    ensures DataNibbles(a + [d]) == DataNibbles(a) + [d / 16, d % 16]
    decreases |a|
  {
    if a == [] {
      assert (a + [d])[1..] == [];
    } else {
      DataAppend(a[1..], d);
      assert (a + [d])[1..] == a[1..] + [d];
    }
  }

  lemma ByteNibbles(d: byte)
    ensures Nibbles(NumBits(d, 8), 2) == [d / 16, d % 16]
  {
    hide NumBits, Nibbles;
    EightBits(d);
  }

  lemma {:induction false} DataIs(data: seq<byte>)
    ensures Nibbles(DataBits(data), 2 * |data|) == DataNibbles(data)
  {
    hide NumBits;
    if data != [] {
      var before, d := data[..|data| - 1], data[|data| - 1];
      DataIs(before);
      assert data == before + [d] && DataBits(data) == DataBits(before) + NumBits(d, 8);
      hide Nibbles, DataNibbles, DataBits;
      DataAppend(before, d);
      ByteNibbles(d);
      NibblesAppend(DataBits(before), 2 * |before|, NumBits(d, 8), 2);
    }
  }

  lemma PadCodeword(first: bool)
    ensures Nibbles(NumBits(if first then 0xEC else 0x11, 8), 2) == if first then [14, 12] else [1, 1]
  {
    hide NumBits, Nibbles;
    EightBits(0xEC);
    EightBits(0x11);
  }

  lemma {:induction false} PadsAre(n: nat)
    ensures Nibbles(Pads(n), 2 * n) == PadNibbles(n)
  {
    hide NumBits, Nibbles;
    if n > 0 {
      var first := n % 2 == 1;
      var pad := NumBits(if first then 0xEC else 0x11, 8);
      assert Pads(n) == Pads(n - 1) + pad;
      assert PadNibbles(n) == PadNibbles(n - 1) + if first then [14, 12] else [1, 1];
      PadsAre(n - 1);
      hide Pads, PadNibbles;
      PadCodeword(first);
      NibblesAppend(Pads(n - 1), 2 * (n - 1), pad, 2);
    } else {
      assert Pads(n) == [] && PadNibbles(n) == [];
      assert Nibbles([], 0) == [];
    }
  }

  /** The stream: 0100, the count, the data, 0000, and the two pad codewords in turn until it is full. */
  function StreamNibbles(data: seq<byte>, countBits: nat, pads: nat): seq<nat> {
    [4] + CountNibbles(|data|, countBits) + DataNibbles(data) + [0] + PadNibbles(pads)
  }

  lemma CountIs(n: nat, countBits: nat)
    requires countBits in {8, 16}
    ensures Nibbles(NumBits(n, countBits), if countBits == 8 then 2 else 4) == CountNibbles(n, countBits)
  {
    hide NumBits, Nibbles;
    EightBits(n);
    SixteenBits(n);
  }

  /** How many codewords a payload takes with mode, count and terminator. */
  function Taken(data: seq<byte>, wide: bool): nat {
    |data| + if wide then 3 else 2
  }

  /** The stream for a count of one byte, or of two. */
  function StreamFor(data: seq<byte>, wide: bool, capacity: nat): (b: seq<bool>)
    requires Taken(data, wide) <= capacity
    ensures |b| == 8 * capacity
  {
    if wide then Stream(data, 16, capacity) else Stream(data, 8, capacity)
  }

  lemma StreamIs(data: seq<byte>, wide: bool, capacity: nat)
    requires Taken(data, wide) <= capacity
    ensures Nibbles(StreamFor(data, wide, capacity), 2 * capacity)
         == StreamNibbles(data, if wide then 16 else 8, capacity - Taken(data, wide))
  {
    hide NumBits, Nibbles, DataBits, Pads, CountNibbles, DataNibbles, PadNibbles;
    var c := if wide then 2 else 1;
    var count, pads := NumBits(|data|, 8 * c), capacity - Taken(data, wide);
    OneNibble(4);
    OneNibble(0);
    CountIs(|data|, 8 * c);
    DataIs(data);
    PadsAre(pads);
    NibblesAppend(NumBits(4, 4), 1, count, 2 * c);
    NibblesAppend(NumBits(4, 4) + count, 1 + 2 * c, DataBits(data), 2 * |data|);
    var header := NumBits(4, 4) + count + DataBits(data);
    assert header == Header(data, 8 * c);
    NibblesAppend(header, 1 + 2 * c + 2 * |data|, NumBits(0, 4), 1);
    NibblesAppend(header + NumBits(0, 4), 2 + 2 * c + 2 * |data|, Pads(pads), 2 * pads);
  }

  // ---- the codewords ----

  /** A codeword as a number, from its bits. */
  function Value(c: bv8): nat {
    (if c & 0x80 != 0 then 128 else 0) + (if c & 0x40 != 0 then 64 else 0) + (if c & 0x20 != 0 then 32 else 0)
    + (if c & 0x10 != 0 then 16 else 0) + (if c & 8 != 0 then 8 else 0) + (if c & 4 != 0 then 4 else 0)
    + (if c & 2 != 0 then 2 else 0) + (if c & 1 != 0 then 1 else 0)
  }

  lemma BitOfByte(c: bv8)
    ensures BitSet(c, Mask(0)) == (c & 0x80 != 0) && BitSet(c, Mask(1)) == (c & 0x40 != 0)
    ensures BitSet(c, Mask(2)) == (c & 0x20 != 0) && BitSet(c, Mask(3)) == (c & 0x10 != 0)
    ensures BitSet(c, Mask(4)) == (c & 8 != 0) && BitSet(c, Mask(5)) == (c & 4 != 0)
    ensures BitSet(c, Mask(6)) == (c & 2 != 0) && BitSet(c, Mask(7)) == (c & 1 != 0)
  {
  }

  /** Codeword `k` of a bit string is made of nibbles `2k` and `2k + 1`. */
  lemma PackedValue(b: seq<bool>, k: nat)
    requires |b| % 8 == 0 && k < |b| / 8
    ensures Value(Pack(b)[k]) == 16 * Nibble(b[8 * k..8 * k + 4]) + Nibble(b[8 * k + 4..8 * k + 8])
  {
    var eight := b[8 * k..8 * k + 8];
    var c := Pack(b)[k];
    assert c == PackByte(eight);
    hide PackByte, BitSet, Mask;
    BitOfByte(c);
    forall i: nat | i < 8 ensures BitSet(c, Mask(i)) == eight[i] {
      PackByteBit(eight, i);
    }
    assert b[8 * k..8 * k + 4] == eight[..4] && b[8 * k + 4..8 * k + 8] == eight[4..];
  }

  lemma NibbleAt(b: seq<bool>, n: nat, k: nat)
    requires |b| == 4 * n && k < n
    ensures Nibbles(b, n)[k] == Nibble(b[4 * k..4 * k + 4])
  {
    hide Nibble;
  }

  lemma PackedBits(b: seq<bool>, n: nat)
    requires |b| == 8 * n
    ensures |b| % 8 == 0 && |b| / 8 == n
  {
  }

  /** Every data codeword of a payload is the number of its two nibbles. */
  lemma CodewordNibbles(data: seq<byte>, wide: bool, capacity: nat, k: nat)
    requires Taken(data, wide) <= capacity && k < capacity
    ensures |StreamFor(data, wide, capacity)| % 8 == 0 && |Pack(StreamFor(data, wide, capacity))| == capacity
    ensures var n := StreamNibbles(data, if wide then 16 else 8, capacity - Taken(data, wide));
      |n| == 2 * capacity && Value(Pack(StreamFor(data, wide, capacity))[k]) == 16 * n[2 * k] + n[2 * k + 1]
  {
    hide Nibble, Nibbles, Value, StreamFor, PackByte, StreamNibbles, Taken;
    var b := StreamFor(data, wide, capacity);
    PackedBits(b, capacity);
    StreamIs(data, wide, capacity);
    PackedValue(b, k);
    NibbleAt(b, 2 * capacity, 2 * k);
    NibbleAt(b, 2 * capacity, 2 * k + 1);
  }
}
