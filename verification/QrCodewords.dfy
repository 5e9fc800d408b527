/** From payload to interleaved codewords and back. */
module QrCodewords {
  import opened Wrappers
  import opened Bits
  import opened ReedSolomon
  import opened RsDistance
  import opened Interleave
  import opened QrTables
  import opened QrBits

  /** The block structure of a version and level. */
  function ShapeFor(v: nat, e: Ecc): (s: Shape)
    requires IsVersion(v)
    ensures s.Valid()
  {
    hide NumRawCodewords, EccLen, NumBlocks;
    EntryHolds(v, e);
    EnoughPerBlock(NumBlocks(v, e), EccLen(v, e), NumRawCodewords(v));
    ShapeOf(NumBlocks(v, e), EccLen(v, e), NumRawCodewords(v))
  }

  lemma EnoughPerBlock(blocks: nat, eccLen: nat, raw: nat)
    requires blocks > 0 && blocks * (eccLen + 1) <= raw
    ensures eccLen + 1 <= raw / blocks
  {
    if raw / blocks <= eccLen {
      MulMonotone(raw / blocks + 1, eccLen + 1, blocks);
    }
  }

  lemma ShapeCapacity(v: nat, e: Ecc)
    requires IsVersion(v)
    ensures ShapeFor(v, e).Capacity() == NumDataCodewords(v, e)
    ensures ShapeFor(v, e).Capacity() + ShapeFor(v, e).numBlocks * ShapeFor(v, e).eccLen == NumRawCodewords(v)
  {
    hide EccLen, NumBlocks, NumRawCodewords;
    EntryHolds(v, e);
    EnoughPerBlock(NumBlocks(v, e), EccLen(v, e), NumRawCodewords(v));
    CapacityIsRest(NumBlocks(v, e), EccLen(v, e), NumRawCodewords(v));
  }

  /** Block `j`: its data followed by its parity. */
  function Block(s: Shape, payload: seq<bv8>, divisor: Poly, j: nat): (b: seq<bv8>)
    requires s.Valid() && |payload| == s.Capacity() && j < s.numBlocks && |divisor| == s.eccLen
    ensures |b| == s.DataLen(j) + s.eccLen && b[..s.DataLen(j)] == BlockData(s, payload, j)
  {
    Encoded(BlockData(s, payload, j), divisor)
  }

  /** The first `n` blocks. */
  function Blocks(s: Shape, payload: seq<bv8>, divisor: Poly, n: nat): (blocks: seq<seq<bv8>>)
    requires s.Valid() && |payload| == s.Capacity() && n <= s.numBlocks && |divisor| == s.eccLen
    ensures |blocks| == n && forall j :: 0 <= j < n ==> blocks[j] == Block(s, payload, divisor, j)
  {
    seq(n, j requires 0 <= j < n => Block(s, payload, divisor, j))
  }

  /** All blocks, with the generator of the shape's parity degree. */
  function AllBlocks(s: Shape, payload: seq<bv8>): (blocks: seq<seq<bv8>>)
    requires s.Valid() && |payload| == s.Capacity()
    ensures WellFormed(s, blocks)
  {
    Blocks(s, payload, Generator(s.eccLen)[1..], s.numBlocks)
  }

  /** Every block is a multiple of the generator: it vanishes at the first `eccLen` powers of 2. */
  lemma BlocksHaveRoots(s: Shape, payload: seq<bv8>, j: nat, i: nat)
    requires s.Valid() && |payload| == s.Capacity() && j < s.numBlocks && i < s.eccLen
    ensures Eval(AllBlocks(s, payload)[j], Alpha(i)) == 0
  {
    hide Eval, Remainder, Generator;
    var divisor := Generator(s.eccLen)[1..];
    GeneratorMonic(s.eccLen);
    assert [1] + divisor == Generator(s.eccLen);
    BlockHasRoots(BlockData(s, payload, j), divisor, s.eccLen, i);
  }

  /** No block of a symbol is longer than 255 codewords. */
  lemma BlocksShort(v: nat, e: Ecc, j: nat)
    requires IsVersion(v) && j < ShapeFor(v, e).numBlocks
    ensures ShapeFor(v, e).DataLen(j) + ShapeFor(v, e).eccLen <= MAX_BLOCK
  {
    hide EccLen, NumBlocks, NumRawCodewords;
    EntryHolds(v, e);
    AtMostPerBlock(NumBlocks(v, e), NumRawCodewords(v), 254);
  }

  lemma AtMostPerBlock(blocks: nat, raw: nat, most: nat)
    requires blocks > 0 && raw <= blocks * most
    ensures raw / blocks <= most
  {
    if raw / blocks > most {
      MulMonotone(most + 1, raw / blocks, blocks);
    }
  }

  /** No block has more damaged codewords than half its parity. */
  ghost predicate Repairable(s: Shape, blocks: seq<seq<bv8>>, received: seq<seq<bv8>>)
    requires WellFormed(s, blocks) && WellFormed(s, received)
  {
    forall j :: 0 <= j < s.numBlocks ==> 2 * |Errors(blocks[j], received[j])| <= s.eccLen
  }

  /** The error correction of a symbol: damage up to half the parity of each block leaves one payload it can come
      from. */
  lemma OnePayload(v: nat, e: Ecc, payload: seq<bv8>, payload': seq<bv8>, received: seq<seq<bv8>>)
    requires IsVersion(v) && |payload| == |payload'| == ShapeFor(v, e).Capacity()
    requires WellFormed(ShapeFor(v, e), received)
    requires Repairable(ShapeFor(v, e), AllBlocks(ShapeFor(v, e), payload), received)
    requires Repairable(ShapeFor(v, e), AllBlocks(ShapeFor(v, e), payload'), received)
    ensures payload == payload'
  {
    hide ShapeFor, Generator, Encoded, Errors, BlockData;
    var s := ShapeFor(v, e);
    var divisor := Generator(s.eccLen)[1..];
    GeneratorMonic(s.eccLen);
    assert [1] + divisor == Generator(s.eccLen);
    forall j | 0 <= j < s.numBlocks ensures BlockData(s, payload, j) == BlockData(s, payload', j) {
      BlocksShort(v, e, j);
      assert AllBlocks(s, payload)[j] == Encoded(BlockData(s, payload, j), divisor);
      assert AllBlocks(s, payload')[j] == Encoded(BlockData(s, payload', j), divisor);
      OneNearest(BlockData(s, payload, j), BlockData(s, payload', j), divisor, received[j]);
    }
    SameBlocks(s, payload, payload', s.numBlocks);
  }

  lemma {:induction false} SameBlocks(s: Shape, payload: seq<bv8>, payload': seq<bv8>, n: nat)
    requires s.Valid() && |payload| == |payload'| == s.Capacity() && n <= s.numBlocks
    requires forall j :: 0 <= j < n ==> BlockData(s, payload, j) == BlockData(s, payload', j)
    ensures s.Offset(n) <= |payload| && payload[..s.Offset(n)] == payload'[..s.Offset(n)]
  {
    OffsetMonotone(s, n, s.numBlocks);
    if n > 0 {
      SameBlocks(s, payload, payload', n - 1);
      var from, to := s.Offset(n - 1), s.Offset(n);
      assert BlockData(s, payload, n - 1) == BlockData(s, payload', n - 1);
      assert payload[..to] == payload[..from] + payload[from..to];
      assert payload'[..to] == payload'[..from] + payload'[from..to];
    }
  }

  /** Cut the payload into blocks, append parity to each, and interleave. */
  method InterleaveCodewords(s: Shape, payload: seq<bv8>) returns (out: seq<bv8>)
    requires s.Valid() && |payload| == s.Capacity()
    ensures out == Interleaved(s, AllBlocks(s, payload))
  {
    hide Remainder, Generator, Interleaved;
    var divisor := RsDivisor(s.eccLen);
    assert divisor == ([1] + divisor)[1..] == Generator(s.eccLen)[1..];
    var blocks: seq<seq<bv8>> := [];
    var offset := 0;
    for j := 0 to s.numBlocks
      invariant offset == s.Offset(j)
      invariant blocks == Blocks(s, payload, divisor, j)
    {
      OffsetMonotone(s, j + 1, s.numBlocks);
      var len := s.DataLen(j);
      var chunk := payload[offset..offset + len];
      offset := offset + len;
      var parity := RsRemainder(chunk, divisor);
      assert chunk == BlockData(s, payload, j) && chunk + parity == Block(s, payload, divisor, j);
      blocks := blocks + [chunk + parity];
    }
    out := Columns(s, blocks);
  }

  /** The stream of `data` fits the data codewords of the shape. */
  predicate StreamFits(s: Shape, countBits: nat, data: seq<byte>) {
    countBits % 8 == 0 && 4 + countBits + 8 * |data| <= 8 * s.Capacity()
  }

  /** The codewords of a payload: its bit stream, packed, in blocks with parity, interleaved. */
  ghost function CodewordsOf(s: Shape, countBits: nat, data: seq<byte>): seq<bv8>
    requires s.Valid() && StreamFits(s, countBits, data)
  {
    Interleaved(s, AllBlocks(s, Pack(Stream(data, countBits, s.Capacity()))))
  }

  lemma ShapeData(v: nat, e: Ecc)
    requires IsVersion(v)
    ensures ShapeFor(v, e).Capacity() == NumDataCodewords(v, e)
  {
    hide ShapeFor, NumDataCodewords, NumRawCodewords;
    ShapeCapacity(v, e);
  }

  lemma CapacityMeansFits(v: nat, e: Ecc, data: seq<byte>)
    requires IsVersion(v) && |data| <= ByteCapacity(v, e)
    ensures StreamFits(ShapeFor(v, e), CountBits(v), data) && |data| < Pow2(CountBits(v))
  {
    hide ShapeFor, NumDataCodewords, Pow2, Shape.Capacity;
    ShapeData(v, e);
    EntryRange(v, e);
    RoomForHeader(NumDataCodewords(v, e), CountBits(v), |data|);
    SmallPowers();
  }

  lemma EntryRange(v: nat, e: Ecc)
    requires IsVersion(v)
    ensures 9 <= NumDataCodewords(v, e) <= (if v <= 9 then 255 else 8000)
  {
    hide EccLen, NumBlocks, NumRawCodewords, NumDataCodewords;
    EntryHolds(v, e);
  }

  /** Payload bytes that fit leave room for the header. */
  lemma RoomForHeader(codewords: int, countBits: nat, len: nat)
    requires codewords >= 9 && countBits in {8, 16} && len <= (8 * codewords - (4 + countBits)) / 8
    ensures 4 + countBits + 8 * len <= 8 * codewords && len < codewords
  {
  }

  /** The bit stream, packed into the data codewords. */
  method BuildPayload(data: seq<byte>, countBits: nat, capacity: nat) returns (payload: seq<bv8>)
    requires countBits % 8 == 0 && 4 + countBits + 8 * |data| <= 8 * capacity
    ensures payload == Pack(Stream(data, countBits, capacity))
  {
    hide Stream, Pack, BitAt;
    var stream := BuildStream(data, countBits, capacity);
    payload := stream.IntoBytes();
    PackBits(stream.bits);
    BitsDetermine(payload, Pack(stream.bits));
  }

  /** Encode the payload to a bit stream, then to interleaved codewords. */
  method BuildCodewords(data: seq<byte>, v: nat, e: Ecc) returns (codewords: seq<bv8>)
    requires IsVersion(v) && |data| <= ByteCapacity(v, e)
    ensures StreamFits(ShapeFor(v, e), CountBits(v), data)
    ensures codewords == CodewordsOf(ShapeFor(v, e), CountBits(v), data)
  {
    CapacityMeansFits(v, e, data);
    ShapeCapacity(v, e);
    hide ShapeFor, NumDataCodewords, CountBits, Stream, Pack, AllBlocks, Interleaved;
    var payload := BuildPayload(data, CountBits(v), NumDataCodewords(v, e));
    codewords := InterleaveCodewords(ShapeFor(v, e), payload);
  }

  // ---- reading back ----

  /** The payload of interleaved codewords: blocks put back together, parity dropped, the stream read. */
  ghost function ReadCodewords(s: Shape, countBits: nat, codewords: seq<bv8>): Option<seq<nat>>
    requires s.Valid()
  {
    if |codewords| < s.Capacity() then
      None
    else
      ReadStream(CodewordBits(Deinterleave(s, codewords, s.numBlocks)), countBits)
  }

  lemma ReadBuilt(s: Shape, countBits: nat, data: seq<byte>)
    requires s.Valid() && StreamFits(s, countBits, data) && |data| < Pow2(countBits)
    ensures |CodewordsOf(s, countBits, data)| == s.Capacity() + s.numBlocks * s.eccLen
    ensures ReadCodewords(s, countBits, CodewordsOf(s, countBits, data)) == Some(data)
  {
    hide Interleaved, Block, Stream, ReadStream, Pack, CodewordBits;
    var payload := Pack(Stream(data, countBits, s.Capacity()));
    var blocks := AllBlocks(s, payload);
    InterleavedLength(s, blocks);
    DeinterleaveInverse(s, payload, blocks, s.numBlocks);
    assert payload[..s.Offset(s.numBlocks)] == payload;
    PackBits(Stream(data, countBits, s.Capacity()));
    StreamRoundTrip(data, countBits, s.Capacity());
  }
}
