/** What the body codecs assume of an authenticated cipher, and the codec errors. */
module Aead {
  import opened Wrappers
  import opened Bits

  const TAG := 16

  /** An unsigned 16-bit word. */
  type u16 = x: int | 0 <= x < 0x1_0000

  /** A keyed cipher: a nonce and a text in each direction. */
  datatype Cipher = Cipher(seal: (Bytes, Bytes) -> Bytes, open: (Bytes, Bytes) -> Option<Bytes>) {

    /** What opens is shorter by the tag. */
    ghost predicate LengthsMatch() {
      forall n, c :: open(n, c).Some? ==> |c| == |open(n, c).value| + TAG
    }

    /** Opening undoes sealing, and a sealed text is longer than its plaintext by the tag. */
    ghost predicate Lawful() {
      && LengthsMatch()
      && (forall n, p :: open(n, seal(n, p)) == Some(p))
      && (forall n, p :: |seal(n, p)| == |p| + TAG)
    }
  }

  /** What stands behind a tag. */
  function BehindTag(tag: Bytes, sealed: Bytes): Option<Bytes>
    requires |tag| == TAG
  {
    if |sealed| >= TAG && sealed[..TAG] == tag then Some(sealed[TAG..]) else None
  }

  /** The simplest lawful cipher: a fixed tag in front of the plaintext. */
  function Tagged(tag: Bytes): (c: Cipher)
    requires |tag| == TAG
    ensures c.Lawful()
  {
    var c := Cipher((_, p) => tag + p, (_, s) => BehindTag(tag, s));
    assert forall n, p :: c.open(n, c.seal(n, p)) == Some(p) by {
      forall n: Bytes, p: Bytes ensures c.open(n, c.seal(n, p)) == Some(p) {
        assert (tag + p)[..TAG] == tag && (tag + p)[TAG..] == p;
      }
    }
    c
  }

  datatype CodecError = Auth | LengthExceeded | Malformed | Unsupported

  /** What a decoder call yields: the state afterwards, the chunks put out, and the error if there was one. */
  datatype Outcome<S> = Outcome(state: S, chunks: seq<Bytes>, error: Option<CodecError>)

  function Prepend<S>(chunks: seq<Bytes>, o: Outcome<S>): Outcome<S> {
    o.(chunks := chunks + o.chunks)
  }

  lemma PrependTwice<S>(a: seq<Bytes>, b: seq<Bytes>, o: Outcome<S>)
    ensures Prepend(a, Prepend(b, o)) == Prepend(a + b, o)
  {
    assert a + (b + o.chunks) == a + b + o.chunks;
  }

  /** Two bytes, most significant first. */
  function Be16(x: u16): (b: Bytes)
    ensures |b| == 2
  {
    [x / 256, x % 256]
  }

  function FromBe16(hi: byte, lo: byte): (x: u16)
    ensures Be16(x) == [hi, lo]
  {
    256 * hi + lo
  }

  function Xor16(a: u16, b: u16): u16 {
    SmallPowers();
    XorBits(a, b, 16)
  }

  /** Masking twice gives the word back. */
  lemma XorTwice(a: u16, b: u16)
    ensures Xor16(Xor16(a, b), b) == a
  {
    hide Pow2, XorBits;
    SmallPowers();
    XorBitsTwice(a, b, 16);
  }

  /** The first `n` elements, or all of them if there are fewer. */
  function Take<T>(s: seq<T>, n: nat): (t: seq<T>)
    ensures t == s[..if |s| < n then |s| else n]
  {
    s[..if |s| < n then |s| else n]
  }

  /** Cut into pieces of `n`, the last one possibly shorter. */
  function Pieces<T>(s: seq<T>, n: nat): (p: seq<seq<T>>)
    requires n > 0
    ensures forall i :: 0 <= i < |p| ==> 0 < |p[i]| <= n
  {
    if s == [] then [] else [Take(s, n)] + Pieces(s[|Take(s, n)|..], n)
  }

  /** The pieces put together are the whole. */
  lemma {:induction false} PiecesConcat<T>(s: seq<T>, n: nat)
    requires n > 0
    ensures Concat(Pieces(s, n)) == s
  {
    if s != [] {
      var first := Take(s, n);
      PiecesConcat(s[|first|..], n);
      assert Pieces(s, n)[1..] == Pieces(s[|first|..], n);
      assert s == first + s[|first|..];
    }
  }

  /** All pieces of a sequence of writes, in order. */
  function AllPieces<T>(writes: seq<seq<T>>, n: nat): (p: seq<seq<T>>)
    requires n > 0
    ensures forall i :: 0 <= i < |p| ==> 0 < |p[i]| <= n
  {
    if writes == [] then [] else Pieces(writes[0], n) + AllPieces(writes[1..], n)
  }

  lemma {:induction false} AllPiecesConcat<T>(writes: seq<seq<T>>, n: nat)
    requires n > 0
    ensures Concat(AllPieces(writes, n)) == Concat(writes)
  {
    if writes != [] {
      AllPiecesConcat(writes[1..], n);
      PiecesConcat(writes[0], n);
      ConcatAppend(Pieces(writes[0], n), AllPieces(writes[1..], n));
    }
  }
}
