/** The bit stream of a symbol: mode, count, data, terminator and padding (section 7.4 of ISO/IEC 18004). */
module QrBits {
  import opened Wrappers
  import opened Bits
  import opened Gf256

  // ---- numbers as bits ----

  /** The `width` low bits of `value`, most significant first. */
  function NumBits(value: nat, width: nat): (b: seq<bool>)
    ensures |b| == width
  {
    if width == 0 then [] else NumBits(value / 2, width - 1) + [value % 2 == 1]
  }

  /** The number that a bit string denotes. */
  function BitsNum(b: seq<bool>): nat {
    if b == [] then 0 else 2 * BitsNum(b[..|b| - 1]) + (if b[|b| - 1] then 1 else 0)
  }

  lemma {:induction false} NumBitsInverse(value: nat, width: nat)
    requires value < Pow2(width)
    ensures BitsNum(NumBits(value, width)) == value
  {
    if width > 0 {
      NumBitsInverse(value / 2, width - 1);
      assert NumBits(value, width)[..width - 1] == NumBits(value / 2, width - 1);
    }
  }

  /** `value` shifted right by `i` bits. */
  function Shifted(value: nat, i: nat): nat {
    Quotient(value, Pow2(i))
  }

  function Quotient(value: nat, d: nat): nat
    requires d > 0
  {
    value / d
  }

  /** A big-endian bit accumulator. */
  class BitBuffer {
    var bits: seq<bool>

    constructor ()
      ensures bits == []
    {
      bits := [];
    }

    /** Append the `width` low bits of `value`. */
    method Push(value: nat, width: nat)
      modifies this
      ensures bits == old(bits) + NumBits(value, width)
    {
      ghost var before := bits;
      for i := width downto 0
        invariant bits == before + NumBits(Shifted(value, i), width - i)
      {
        hide Shifted;
        ShiftedOnce(value, i);
        bits := bits + [Shifted(value, i) % 2 == 1];
      }
      assert Shifted(value, 0) == value;
    }

    /** Pack the bits into bytes, the last one filled with zeros. */
    method IntoBytes() returns (out: seq<bv8>)
      ensures |out| == (|bits| + 7) / 8
      ensures forall i :: 0 <= i < 8 * |out| ==> BitAt(out, i) == (i < |bits| && bits[i])
    {
      hide BitSet, Mask;
      out := seq((|bits| + 7) / 8, _ => 0);
      forall k ensures !BitSet(0, k) { NoBits(k); }
      for i := 0 to |bits|
        invariant |out| == (|bits| + 7) / 8
        invariant forall j :: 0 <= j < 8 * |out| ==> BitAt(out, j) == (j < i && bits[j])
      {
        if bits[i] {
          ghost var before := out;
          out := out[i / 8 := out[i / 8] | Mask(i % 8)];
          forall j | 0 <= j < 8 * |out| ensures BitAt(out, j) == (j == i || BitAt(before, j)) {
            SetBit(before[i / 8], i % 8, j % 8);
          }
        }
      }
    }
  }

  lemma ShiftedOnce(value: nat, i: nat)
    ensures Shifted(value, i + 1) == Shifted(value, i) / 2
  {
    DivTwice(value, Pow2(i));
  }

  lemma DivTwice(value: nat, p: nat)
    requires p > 0
    ensures value / (2 * p) == value / p / 2
  {
    var q := value / p / 2;
    assert value == p * (value / p) + value % p;
    assert value / p == 2 * q + value / p % 2;
    assert value == (2 * p) * q + (p * (value / p % 2) + value % p) by {
      assert p * (2 * q + value / p % 2) == (2 * p) * q + p * (value / p % 2);
    }
    QuotientUnique(value, 2 * p, q, p * (value / p % 2) + value % p);
  }

  /** Bit `i` of a byte string, most significant bit of each byte first. */
  predicate BitAt(codewords: seq<bv8>, i: nat)
    requires i < 8 * |codewords|
  {
    BitSet(codewords[i / 8], Mask(i % 8))
  }

  /** All bits of a byte string. */
  function CodewordBits(codewords: seq<bv8>): (b: seq<bool>)
    ensures |b| == 8 * |codewords|
    ensures forall i :: 0 <= i < |b| ==> b[i] == BitAt(codewords, i)
  {
    seq(8 * |codewords|, i requires 0 <= i < 8 * |codewords| => BitAt(codewords, i))
  }

  function Or(b: bv8, bit: bool, mask: bv8): bv8 {
    if bit then b | mask else b
  }

  /** The byte with the given bits. */
  function PackByte(b: seq<bool>): bv8
    requires |b| == 8
  {
    var high := Or(Or(Or(Or(0, b[0], 0x80), b[1], 0x40), b[2], 0x20), b[3], 0x10);
    Or(Or(Or(Or(high, b[4], 8), b[5], 4), b[6], 2), b[7], 1)
  }

  /** The bytes with the given bits. */
  function Pack(b: seq<bool>): (codewords: seq<bv8>)
    requires |b| % 8 == 0
    ensures |codewords| == |b| / 8
  {
    seq(|b| / 8, k requires 0 <= k < |b| / 8 => PackByte(b[8 * k..8 * k + 8]))
  }

  lemma PackByteBit(b: seq<bool>, i: nat)
    requires |b| == 8 && i < 8
    ensures BitSet(PackByte(b), Mask(i)) == b[i]
  {
  }

  /** Packing keeps the bits. */
  lemma PackBits(b: seq<bool>)
    requires |b| % 8 == 0
    ensures CodewordBits(Pack(b)) == b
  {
    hide BitSet, Mask, PackByte;
    forall i | 0 <= i < |b| ensures BitAt(Pack(b), i) == b[i] {
      var k := i / 8;
      PackByteBit(b[8 * k..8 * k + 8], i % 8);
    }
  }

  lemma NoBits(mask: bv8)
    ensures !BitSet(0, mask)
  {
  }

  lemma SetBit(b: bv8, i: nat, j: nat)
    requires i < 8 && j < 8
    ensures BitSet(b | Mask(i), Mask(j)) == (i == j || BitSet(b, Mask(j)))
  {
  }

  /** Two byte strings with the same bits are equal. */
  lemma BitsDetermine(a: seq<bv8>, b: seq<bv8>)
    requires |a| == |b| && forall i :: 0 <= i < 8 * |a| ==> BitAt(a, i) == BitAt(b, i)
    ensures a == b
  {
    forall k | 0 <= k < |a| ensures a[k] == b[k] {
      forall j | 0 <= j < 8 ensures BitSet(a[k], Mask(j)) == BitSet(b[k], Mask(j)) {
        assert (8 * k + j) / 8 == k && (8 * k + j) % 8 == j;
        assert BitAt(a, 8 * k + j) == BitAt(b, 8 * k + j);
      }
      SameByte(a[k], b[k]);
    }
  }

  lemma SameByte(a: bv8, b: bv8)
    requires forall j :: 0 <= j < 8 ==> BitSet(a, Mask(j)) == BitSet(b, Mask(j))
    ensures a == b
  {
    assert BitSet(a, Mask(0)) == BitSet(b, Mask(0)) && BitSet(a, Mask(1)) == BitSet(b, Mask(1));
    assert BitSet(a, Mask(2)) == BitSet(b, Mask(2)) && BitSet(a, Mask(3)) == BitSet(b, Mask(3));
    assert BitSet(a, Mask(4)) == BitSet(b, Mask(4)) && BitSet(a, Mask(5)) == BitSet(b, Mask(5));
    assert BitSet(a, Mask(6)) == BitSet(b, Mask(6)) && BitSet(a, Mask(7)) == BitSet(b, Mask(7));
  }

  // ---- the stream ----

  /** The bits of a byte string, byte by byte. */
  function DataBits(data: seq<byte>): (b: seq<bool>)
    ensures |b| == 8 * |data|
  {
    if data == [] then [] else DataBits(data[..|data| - 1]) + NumBits(data[|data| - 1], 8)
  }

  /** Mode 4, the character count and the payload. */
  function Header(data: seq<byte>, countBits: nat): (b: seq<bool>)
    ensures |b| == 4 + countBits + 8 * |data|
  {
    NumBits(4, 4) + NumBits(|data|, countBits) + DataBits(data)
  }

  /** Alternating pad codewords 0xEC and 0x11. */
  function Pads(n: nat): (b: seq<bool>)
    ensures |b| == 8 * n
  {
    if n == 0 then [] else Pads(n - 1) + NumBits(if n % 2 == 1 then 0xEC else 0x11, 8)
  }

  /** The whole stream for a capacity in codewords: the four-bit terminator ends on a byte boundary by itself. */
  function Stream(data: seq<byte>, countBits: nat, capacity: nat): (b: seq<bool>)
    requires countBits % 8 == 0 && 4 + countBits + 8 * |data| <= 8 * capacity
    ensures |b| == 8 * capacity && |b| % 8 == 0
  {
    Header(data, countBits) + NumBits(0, 4) + Pads(capacity - (1 + countBits / 8 + |data|))
  }

  /** Append mode, count and payload. */
  method PushHeader(b: BitBuffer, data: seq<byte>, countBits: nat)
    requires b.bits == []
    modifies b
    ensures b.bits == Header(data, countBits)
  {
    hide NumBits;
    b.Push(4, 4);
    b.Push(|data|, countBits);
    for i := 0 to |data|
      invariant b.bits == NumBits(4, 4) + NumBits(|data|, countBits) + DataBits(data[..i])
    {
      assert data[..i + 1][..i] == data[..i];
      b.Push(data[i], 8);
    }
    assert data[..|data|] == data;
  }

  /** Append mode, count, payload, terminator, alignment and padding. */
  method BuildStream(data: seq<byte>, countBits: nat, capacity: nat) returns (b: BitBuffer)
    requires countBits % 8 == 0 && 4 + countBits + 8 * |data| <= 8 * capacity
    ensures fresh(b)
    ensures b.bits == Stream(data, countBits, capacity)
  {
    hide NumBits, Pads, Header;
    b := new BitBuffer();
    PushHeader(b, data, countBits);
    var remaining := capacity * 8 - if |b.bits| < capacity * 8 then |b.bits| else capacity * 8;
    assert remaining >= 4;
    b.Push(0, if remaining < 4 then remaining else 4);
    var toByte := (8 - |b.bits| % 8) % 8;
    assert toByte == 0;
    b.Push(0, toByte);
    ghost var used := b.bits;
    assert used == Header(data, countBits) + NumBits(0, 4);
    assert |used| / 8 == 1 + countBits / 8 + |data|;
    PadOut(b, capacity);
  }

  /** Alternating pad codewords up to the capacity. */
  method PadOut(b: BitBuffer, capacity: nat)
    requires |b.bits| % 8 == 0 && |b.bits| <= 8 * capacity
    modifies b
    ensures b.bits == old(b.bits) + Pads(capacity - |old(b.bits)| / 8)
  {
    hide NumBits;
    ghost var used := b.bits;
    var first := true;
    ghost var n := 0;
    while |b.bits| < capacity * 8
      invariant b.bits == used + Pads(n) && first == (n % 2 == 0)
      invariant |b.bits| <= capacity * 8
      decreases capacity * 8 - |b.bits|
    {
      b.Push(if first then 0xEC else 0x11, 8);
      first := !first;
      n := n + 1;
    }
  }

  // ---- reading the stream ----

  /** The bytes of a bit string. */
  function ReadBytes(b: seq<bool>, n: nat): (d: seq<nat>)
    requires 8 * n <= |b|
    ensures |d| == n
  {
    if n == 0 then [] else ReadBytes(b, n - 1) + [BitsNum(b[8 * (n - 1)..8 * n])]
  }

  /** What a reader makes of a stream: byte mode, a count, and that many bytes. */
  function ReadStream(b: seq<bool>, countBits: nat): (r: Option<seq<nat>>) {
    if |b| < 4 + countBits || BitsNum(b[..4]) != 4 then
      None
    else
      var n := BitsNum(b[4..4 + countBits]);
      var rest := b[4 + countBits..];
      if 8 * n > |rest| then None else Some(ReadBytes(rest, n))
  }

  lemma {:induction false} ReadBytesInverse(data: seq<byte>, more: seq<bool>, n: nat)
    requires n <= |data|
    ensures ReadBytes(DataBits(data) + more, n) == data[..n]
  {
    hide NumBits, BitsNum, DataBits, Pow2;
    if n > 0 {
      ReadBytesInverse(data, more, n - 1);
      ByteSlice(data, n - 1);
      assert (DataBits(data) + more)[8 * (n - 1)..8 * n] == DataBits(data)[8 * (n - 1)..8 * n];
      SmallPowers();
      NumBitsInverse(data[n - 1], 8);
    }
  }

  lemma {:induction false} ByteSlice(data: seq<byte>, k: nat)
    requires k < |data|
    ensures DataBits(data)[8 * k..8 * k + 8] == NumBits(data[k], 8)
  {
    var last := |data| - 1;
    var before, bits := DataBits(data[..last]), NumBits(data[last], 8);
    assert DataBits(data) == before + bits;
    if k < last {
      ByteSlice(data[..last], k);
      assert (before + bits)[8 * k..8 * k + 8] == before[8 * k..8 * k + 8];
    } else {
      assert (before + bits)[8 * k..8 * k + 8] == bits;
    }
  }

  /** Reading undoes writing. */
  lemma StreamRoundTrip(data: seq<byte>, countBits: nat, capacity: nat)
    requires countBits % 8 == 0 && 4 + countBits + 8 * |data| <= 8 * capacity && |data| < Pow2(countBits)
    ensures ReadStream(Stream(data, countBits, capacity), countBits) == Some(data)
  {
    hide NumBits, DataBits, Pads, BitsNum, Pow2;
    var b := Stream(data, countBits, capacity);
    var pad := NumBits(0, 4) + Pads(capacity - (1 + countBits / 8 + |data|));
    assert b == NumBits(4, 4) + NumBits(|data|, countBits) + (DataBits(data) + pad);
    assert b[..4] == NumBits(4, 4);
    assert b[4..4 + countBits] == NumBits(|data|, countBits);
    assert b[4 + countBits..] == DataBits(data) + pad;
    SmallPowers();
    NumBitsInverse(4, 4);
    NumBitsInverse(|data|, countBits);
    ReadBytesInverse(data, pad, |data|);
    assert data[..|data|] == data;
  }
}
