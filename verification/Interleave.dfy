/** Splitting codewords into blocks and interleaving them column by column: section 7.6 of ISO/IEC 18004. */
module Interleave {
  import opened Wrappers

  /** How a symbol's codewords are divided. The first `numShort` blocks hold `shortDataLen` data codewords, the
      others one more; every block has `eccLen` parity codewords. */
  datatype Shape = Shape(numBlocks: nat, numShort: nat, shortDataLen: nat, eccLen: nat) {

    predicate Valid() {
      0 < numShort <= numBlocks && eccLen > 0
    }

    function DataLen(j: nat): nat {
      if j >= numShort then shortDataLen + 1 else shortDataLen
    }

    /** Data codewords before block `j`. */
    function Offset(j: nat): nat {
      if j == 0 then 0 else Offset(j - 1) + DataLen(j - 1)
    }

    /** Data codewords of all blocks together. */
    function Capacity(): nat {
      Offset(numBlocks)
    }
  }

  /** The shape for `raw` codewords in `numBlocks` blocks. */
  function ShapeOf(numBlocks: nat, eccLen: nat, raw: nat): (s: Shape)
    requires numBlocks > 0 && 0 < eccLen <= raw / numBlocks
    ensures s.Valid()
  {
    Shape(numBlocks, numBlocks - raw % numBlocks, raw / numBlocks - eccLen, eccLen)
  }

  lemma {:induction false} OffsetMonotone(s: Shape, j: nat, k: nat)
    requires s.Valid() && j <= k
    ensures s.Offset(j) <= s.Offset(k)
  {
    if j < k {
      OffsetMonotone(s, j, k - 1);
    }
  }

  lemma {:induction false} OffsetClosed(s: Shape, j: nat)
    ensures s.Offset(j) == j * s.shortDataLen + if j > s.numShort then j - s.numShort else 0
  {
    if j > 0 {
      OffsetClosed(s, j - 1);
      assert (j - 1) * s.shortDataLen + s.shortDataLen == j * s.shortDataLen;
    }
  }

  /** The data capacity is what parity leaves of the raw codewords. */
  lemma CapacityIsRest(numBlocks: nat, eccLen: nat, raw: nat)
    requires numBlocks > 0 && 0 < eccLen <= raw / numBlocks
    ensures ShapeOf(numBlocks, eccLen, raw).Capacity() == raw - numBlocks * eccLen
  {
    var s := ShapeOf(numBlocks, eccLen, raw);
    OffsetClosed(s, numBlocks);
    var q := raw / numBlocks;
    assert numBlocks * (q - eccLen) + numBlocks * eccLen == numBlocks * q;
    assert raw == numBlocks * q + raw % numBlocks;
  }

  // ---- the blocks ----

  /** The data of block `j`. */
  function BlockData<T>(s: Shape, payload: seq<T>, j: nat): (d: seq<T>)
    requires s.Valid() && |payload| == s.Capacity() && j < s.numBlocks
    ensures |d| == s.DataLen(j)
  {
    OffsetMonotone(s, j + 1, s.numBlocks);
    payload[s.Offset(j)..s.Offset(j + 1)]
  }

  /** Blocks of the lengths the shape prescribes. */
  predicate WellFormed<T>(s: Shape, blocks: seq<seq<T>>) {
    && s.Valid() && |blocks| == s.numBlocks
    && forall j :: 0 <= j < s.numBlocks ==> |blocks[j]| == s.DataLen(j) + s.eccLen
  }

  // ---- interleaving ----

  /** Codeword `i` of the data of block `j`, if there is one. */
  function DataCell<T>(s: Shape, blocks: seq<seq<T>>, i: nat, j: nat): seq<T>
    requires WellFormed(s, blocks) && j < s.numBlocks
  {
    if i < s.DataLen(j) then [blocks[j][i]] else []
  }

  /** Data column `i` of the first `j` blocks; short blocks have nothing in the last column. */
  function DataRow<T>(s: Shape, blocks: seq<seq<T>>, i: nat, j: nat): seq<T>
    requires WellFormed(s, blocks) && j <= s.numBlocks
  {
    if j == 0 then [] else DataRow(s, blocks, i, j - 1) + DataCell(s, blocks, i, j - 1)
  }

  /** The first `i` data columns, one after the other. */
  function DataRows<T>(s: Shape, blocks: seq<seq<T>>, i: nat): seq<T>
    requires WellFormed(s, blocks)
  {
    if i == 0 then [] else DataRows(s, blocks, i - 1) + DataRow(s, blocks, i - 1, s.numBlocks)
  }

  /** Parity column `c` of the first `j` blocks. */
  function ParityRow<T>(s: Shape, blocks: seq<seq<T>>, c: nat, j: nat): (r: seq<T>)
    requires WellFormed(s, blocks) && j <= s.numBlocks && c < s.eccLen
    ensures |r| == j
    ensures forall k :: 0 <= k < j ==> r[k] == blocks[k][s.DataLen(k) + c]
  {
    seq(j, k requires 0 <= k < j => blocks[k][s.DataLen(k) + c])
  }

  function ParityRows<T>(s: Shape, blocks: seq<seq<T>>, c: nat): seq<T>
    requires WellFormed(s, blocks) && c <= s.eccLen
  {
    if c == 0 then [] else ParityRows(s, blocks, c - 1) + ParityRow(s, blocks, c - 1, s.numBlocks)
  }

  function Interleaved<T>(s: Shape, blocks: seq<seq<T>>): seq<T>
    requires WellFormed(s, blocks)
  {
    DataRows(s, blocks, s.shortDataLen + 1) + ParityRows(s, blocks, s.eccLen)
  }

  /** The encoder's walk: data and parity as two separate column runs. */
  method Columns<T>(s: Shape, blocks: seq<seq<T>>) returns (out: seq<T>)
    requires WellFormed(s, blocks)
    ensures out == Interleaved(s, blocks)
  {
    hide WellFormed, DataRow, ParityRow;
    out := [];
    for i := 0 to s.shortDataLen + 1
      invariant out == DataRows(s, blocks, i)
    {
      out := DataColumn(s, blocks, i, out);
    }
    ghost var data := out;
    for c := 0 to s.eccLen
      invariant out == data + ParityRows(s, blocks, c)
    {
      ghost var parity := ParityRows(s, blocks, c);
      out := ParityColumn(s, blocks, c, out);
      assert data + parity + ParityRow(s, blocks, c, s.numBlocks) == data + ParityRows(s, blocks, c + 1);
    }
  }

  /** One pass over the blocks: their data codeword `i`, where they have one. */
  method DataColumn<T>(s: Shape, blocks: seq<seq<T>>, i: nat, before: seq<T>) returns (out: seq<T>)
    requires WellFormed(s, blocks)
    ensures out == before + DataRow(s, blocks, i, s.numBlocks)
  {
    out := before;
    for j := 0 to s.numBlocks
      invariant out == before + DataRow(s, blocks, i, j)
    {
      if i < s.DataLen(j) {
        out := out + [blocks[j][i]];
      }
    }
  }

  /** One pass over the blocks: their parity codeword `c`. */
  method ParityColumn<T>(s: Shape, blocks: seq<seq<T>>, c: nat, before: seq<T>) returns (out: seq<T>)
    requires WellFormed(s, blocks) && c < s.eccLen
    ensures out == before + ParityRow(s, blocks, c, s.numBlocks)
  {
    out := before;
    for j := 0 to s.numBlocks
      invariant out == before + ParityRow(s, blocks, c, j)
    {
      out := out + [blocks[j][s.DataLen(j) + c]];
    }
  }

  // ---- the inverse ----

  /** The first codeword of full column `i`. */
  function RowStart(s: Shape, i: nat): nat {
    if i == 0 then 0 else RowStart(s, i - 1) + s.numBlocks
  }

  /** Where data codeword `i` of block `j` goes. */
  function DataPos(s: Shape, j: nat, i: nat): int
    requires s.Valid()
  {
    RowStart(s, i) + if i < s.shortDataLen then j else j - s.numShort
  }

  /** Where parity codeword `c` of block `j` goes. */
  function ParityPos(s: Shape, j: nat, c: nat): nat
    requires s.Valid()
  {
    s.Capacity() + RowStart(s, c) + j
  }

  lemma {:induction false} RowStartMonotone(s: Shape, i: nat, k: nat)
    requires i <= k
    ensures RowStart(s, i) <= RowStart(s, k)
  {
    if i < k {
      RowStartMonotone(s, i, k - 1);
    }
  }

  /** All data columns together have as many codewords as the payload. */
  lemma CapacityByRows(s: Shape)
    requires s.Valid()
    ensures s.Capacity() == RowStart(s, s.shortDataLen) + s.numBlocks - s.numShort
  {
    RowStartClosed(s, s.shortDataLen);
    OffsetClosed(s, s.numBlocks);
  }

  lemma DataPosBound(s: Shape, j: nat, i: nat)
    requires s.Valid() && j < s.numBlocks && i < s.DataLen(j)
    ensures 0 <= DataPos(s, j, i) < s.Capacity()
  {
    CapacityByRows(s);
    if i < s.shortDataLen {
      RowStartMonotone(s, i + 1, s.shortDataLen);
    }
  }

  /** The data of block `j`, read back from interleaved codewords. */
  function ReadBlock<T>(s: Shape, codewords: seq<T>, j: nat): (d: seq<T>)
    requires s.Valid() && s.Capacity() <= |codewords| && j < s.numBlocks
    ensures |d| == s.DataLen(j)
  {
    seq(s.DataLen(j), i requires 0 <= i < s.DataLen(j) => DataPosBound(s, j, i); codewords[DataPos(s, j, i)])
  }

  /** The payload of the first `n` blocks, read back from interleaved codewords, parity dropped. */
  function Deinterleave<T>(s: Shape, codewords: seq<T>, n: nat): (d: seq<T>)
    requires s.Valid() && s.Capacity() <= |codewords| && n <= s.numBlocks
    ensures |d| == s.Offset(n)
  {
    if n == 0 then [] else Deinterleave(s, codewords, n - 1) + ReadBlock(s, codewords, n - 1)
  }

  lemma {:induction false} FullRow<T>(s: Shape, blocks: seq<seq<T>>, i: nat, j: nat)
    requires WellFormed(s, blocks) && j <= s.numBlocks && i < s.shortDataLen
    ensures |DataRow(s, blocks, i, j)| == j
    ensures forall k :: 0 <= k < j ==> DataRow(s, blocks, i, j)[k] == blocks[k][i]
  {
    if j > 0 {
      FullRow(s, blocks, i, j - 1);
    }
  }

  lemma {:induction false} LongRow<T>(s: Shape, blocks: seq<seq<T>>, j: nat)
    requires WellFormed(s, blocks) && j <= s.numBlocks
    ensures |DataRow(s, blocks, s.shortDataLen, j)| == if j > s.numShort then j - s.numShort else 0
    ensures forall k :: s.numShort <= k < j ==>
      DataRow(s, blocks, s.shortDataLen, j)[k - s.numShort] == blocks[k][s.shortDataLen]
  {
    if j > 0 {
      LongRow(s, blocks, j - 1);
    }
  }

  lemma {:induction false} DataRowsLength<T>(s: Shape, blocks: seq<seq<T>>, i: nat)
    requires WellFormed(s, blocks) && i <= s.shortDataLen
    ensures |DataRows(s, blocks, i)| == RowStart(s, i)
  {
    if i > 0 {
      DataRowsLength(s, blocks, i - 1);
      FullRow(s, blocks, i - 1, s.numBlocks);
    }
  }

  lemma {:induction false} RowStartClosed(s: Shape, i: nat)
    ensures RowStart(s, i) == i * s.numBlocks
  {
    if i > 0 {
      RowStartClosed(s, i - 1);
      assert (i - 1) * s.numBlocks + s.numBlocks == i * s.numBlocks;
    }
  }

  lemma DataRowsTotal<T>(s: Shape, blocks: seq<seq<T>>)
    requires WellFormed(s, blocks)
    ensures |DataRows(s, blocks, s.shortDataLen + 1)| == s.Capacity()
  {
    DataRowsLength(s, blocks, s.shortDataLen);
    LongRow(s, blocks, s.numBlocks);
    CapacityByRows(s);
  }

  lemma {:induction false} DataEntry<T>(s: Shape, blocks: seq<seq<T>>, n: nat, j: nat, i: nat)
    requires WellFormed(s, blocks) && n <= s.shortDataLen + 1
    requires j < s.numBlocks && i < s.DataLen(j) && i < n
    ensures 0 <= DataPos(s, j, i) < |DataRows(s, blocks, n)|
    ensures DataRows(s, blocks, n)[DataPos(s, j, i)] == blocks[j][i]
  {
    hide WellFormed, DataRow;
    if i < n - 1 {
      DataEntry(s, blocks, n - 1, j, i);
    } else {
      DataRowsLength(s, blocks, i);
      RowEntry(s, blocks, j, i);
    }
  }

  lemma RowEntry<T>(s: Shape, blocks: seq<seq<T>>, j: nat, i: nat)
    requires WellFormed(s, blocks) && j < s.numBlocks && i < s.DataLen(j)
    ensures 0 <= DataPos(s, j, i) - RowStart(s, i) < |DataRow(s, blocks, i, s.numBlocks)|
    ensures DataRow(s, blocks, i, s.numBlocks)[DataPos(s, j, i) - RowStart(s, i)] == blocks[j][i]
  {
    hide DataRow;
    if i < s.shortDataLen {
      FullRow(s, blocks, i, s.numBlocks);
    } else {
      LongRow(s, blocks, s.numBlocks);
    }
  }

  lemma {:induction false} ParityRowsLength<T>(s: Shape, blocks: seq<seq<T>>, c: nat)
    requires WellFormed(s, blocks) && c <= s.eccLen
    ensures |ParityRows(s, blocks, c)| == RowStart(s, c)
  {
    if c > 0 {
      ParityRowsLength(s, blocks, c - 1);
    }
  }

  lemma {:induction false} ParityEntry<T>(s: Shape, blocks: seq<seq<T>>, n: nat, j: nat, c: nat)
    requires WellFormed(s, blocks) && c < n <= s.eccLen && j < s.numBlocks
    ensures RowStart(s, c) + j < |ParityRows(s, blocks, n)|
    ensures ParityRows(s, blocks, n)[RowStart(s, c) + j] == blocks[j][s.DataLen(j) + c]
  {
    ParityRowsLength(s, blocks, n - 1);
    if c < n - 1 {
      ParityEntry(s, blocks, n - 1, j, c);
    }
  }

  /** Every codeword of every block stands at its own position, and the positions fill the symbol exactly. */
  lemma InterleavedEntry<T>(s: Shape, blocks: seq<seq<T>>, j: nat, i: nat)
    requires WellFormed(s, blocks) && j < s.numBlocks && i < |blocks[j]|
    ensures |Interleaved(s, blocks)| == s.Capacity() + s.numBlocks * s.eccLen
    ensures 0 <= BlockPos(s, j, i) < |Interleaved(s, blocks)|
    ensures Interleaved(s, blocks)[BlockPos(s, j, i)] == blocks[j][i]
  {
    hide DataRows, ParityRows, RowStart;
    InterleavedLength(s, blocks);
    if i < s.DataLen(j) {
      DataEntry(s, blocks, s.shortDataLen + 1, j, i);
    } else {
      ParityEntry(s, blocks, s.eccLen, j, i - s.DataLen(j));
    }
  }

  /** Where codeword `i` of block `j` goes, data first. */
  function BlockPos(s: Shape, j: nat, i: nat): int
    requires s.Valid()
  {
    if i < s.DataLen(j) then DataPos(s, j, i) else ParityPos(s, j, i - s.DataLen(j))
  }

  lemma InterleavedLength<T>(s: Shape, blocks: seq<seq<T>>)
    requires WellFormed(s, blocks)
    ensures |DataRows(s, blocks, s.shortDataLen + 1)| == s.Capacity()
    ensures |Interleaved(s, blocks)| == s.Capacity() + s.numBlocks * s.eccLen
  {
    DataRowsTotal(s, blocks);
    ParityRowsLength(s, blocks, s.eccLen);
    RowStartClosed(s, s.eccLen);
  }

  lemma ReadBlockInverse<T>(s: Shape, blocks: seq<seq<T>>, j: nat)
    requires WellFormed(s, blocks) && j < s.numBlocks
    ensures s.Capacity() <= |Interleaved(s, blocks)|
    ensures ReadBlock(s, Interleaved(s, blocks), j) == DataOf(s, blocks, j)
  {
    InterleavedLength(s, blocks);
    forall i | 0 <= i < s.DataLen(j) ensures ReadBlock(s, Interleaved(s, blocks), j)[i] == blocks[j][i] {
      InterleavedEntry(s, blocks, j, i);
    }
  }

  /** The blocks carry the payload, cut at the offsets of the shape. */
  predicate Carry<T(==)>(s: Shape, payload: seq<T>, blocks: seq<seq<T>>)
    requires WellFormed(s, blocks) && |payload| == s.Capacity()
  {
    forall j :: 0 <= j < s.numBlocks ==> DataOf(s, blocks, j) == BlockData(s, payload, j)
  }

  function DataOf<T>(s: Shape, blocks: seq<seq<T>>, j: nat): seq<T>
    requires WellFormed(s, blocks) && j < s.numBlocks
  {
    blocks[j][..s.DataLen(j)]
  }

  /** De-interleaving undoes interleaving: it yields the data of all blocks, which is the payload. */
  lemma {:induction false} DeinterleaveInverse<T>(s: Shape, payload: seq<T>, blocks: seq<seq<T>>, n: nat)
    requires WellFormed(s, blocks) && |payload| == s.Capacity() && n <= s.numBlocks
    requires Carry(s, payload, blocks)
    ensures s.Offset(n) <= |payload| && s.Capacity() <= |Interleaved(s, blocks)|
    ensures Deinterleave(s, Interleaved(s, blocks), n) == payload[..s.Offset(n)]
  {
    OffsetMonotone(s, n, s.numBlocks);
    InterleavedLength(s, blocks);
    hide Interleaved, ReadBlock, DataOf;
    if n > 0 {
      DeinterleaveInverse(s, payload, blocks, n - 1);
      ReadBlockInverse(s, blocks, n - 1);
      assert DataOf(s, blocks, n - 1) == BlockData(s, payload, n - 1);
      DeinterleaveStep(s, payload, Interleaved(s, blocks), n);
    }
  }

  lemma DeinterleaveStep<T>(s: Shape, payload: seq<T>, out: seq<T>, n: nat)
    requires s.Valid() && s.Capacity() <= |out| && 0 < n <= s.numBlocks
    requires s.Offset(n - 1) <= s.Offset(n) <= |payload|
    requires Deinterleave(s, out, n - 1) == payload[..s.Offset(n - 1)]
    requires ReadBlock(s, out, n - 1) == payload[s.Offset(n - 1)..s.Offset(n)]
    ensures Deinterleave(s, out, n) == payload[..s.Offset(n)]
  {
  }

  // ---- exactly once ----

  /** How often `v` occurs. */
  ghost function Count<T>(x: seq<T>, v: T): nat {
    multiset(x)[v]
  }

  lemma CountAppend<T>(a: seq<T>, b: seq<T>, v: T)
    ensures Count(a + b, v) == Count(a, v) + Count(b, v)
    ensures Count([], v) == 0
  {
  }

  /** The first `i` data codewords of block `j`, or all of them. */
  function DataPrefix<T>(s: Shape, blocks: seq<seq<T>>, j: nat, i: nat): seq<T>
    requires WellFormed(s, blocks) && j < s.numBlocks
  {
    blocks[j][..if i < s.DataLen(j) then i else s.DataLen(j)]
  }

  /** The first `c` parity codewords of block `j`. */
  function ParityPrefix<T>(s: Shape, blocks: seq<seq<T>>, j: nat, c: nat): seq<T>
    requires WellFormed(s, blocks) && j < s.numBlocks && c <= s.eccLen
  {
    blocks[j][s.DataLen(j)..s.DataLen(j) + c]
  }

  ghost function DataCount<T>(s: Shape, blocks: seq<seq<T>>, i: nat, j: nat, v: T): nat
    requires WellFormed(s, blocks) && j <= s.numBlocks
  {
    if j == 0 then 0 else DataCount(s, blocks, i, j - 1, v) + Count(DataPrefix(s, blocks, j - 1, i), v)
  }

  ghost function ParityCount<T>(s: Shape, blocks: seq<seq<T>>, c: nat, j: nat, v: T): nat
    requires WellFormed(s, blocks) && j <= s.numBlocks && c <= s.eccLen
  {
    if j == 0 then 0 else ParityCount(s, blocks, c, j - 1, v) + Count(ParityPrefix(s, blocks, j - 1, c), v)
  }

  lemma DataPrefixGrows<T>(s: Shape, blocks: seq<seq<T>>, j: nat, i: nat)
    requires WellFormed(s, blocks) && j < s.numBlocks
    ensures DataPrefix(s, blocks, j, i + 1) == DataPrefix(s, blocks, j, i) + DataCell(s, blocks, i, j)
  {
  }

  /** Parity codeword `c` of block `j`. */
  function ParityCell<T>(s: Shape, blocks: seq<seq<T>>, c: nat, j: nat): seq<T>
    requires WellFormed(s, blocks) && j < s.numBlocks && c < s.eccLen
  {
    [blocks[j][s.DataLen(j) + c]]
  }

  lemma ParityPrefixGrows<T>(s: Shape, blocks: seq<seq<T>>, j: nat, c: nat)
    requires WellFormed(s, blocks) && j < s.numBlocks && c < s.eccLen
    ensures ParityPrefix(s, blocks, j, c + 1) == ParityPrefix(s, blocks, j, c) + ParityCell(s, blocks, c, j)
    ensures ParityRow(s, blocks, c, j + 1) == ParityRow(s, blocks, c, j) + ParityCell(s, blocks, c, j)
  {
  }

  lemma {:induction false} OneMoreDataColumn<T>(s: Shape, blocks: seq<seq<T>>, i: nat, j: nat, v: T)
    requires WellFormed(s, blocks) && j <= s.numBlocks
    ensures DataCount(s, blocks, i + 1, j, v) == DataCount(s, blocks, i, j, v) + Count(DataRow(s, blocks, i, j), v)
  {
    hide Count, DataPrefix, DataCell, WellFormed;
    CountAppend<T>([], [], v);
    if j > 0 {
      OneMoreDataColumn(s, blocks, i, j - 1, v);
      var added := DataCell(s, blocks, i, j - 1);
      DataPrefixGrows(s, blocks, j - 1, i);
      CountAppend(DataPrefix(s, blocks, j - 1, i), added, v);
      CountAppend(DataRow(s, blocks, i, j - 1), added, v);
    }
  }

  lemma {:induction false} OneMoreParityColumn<T>(s: Shape, blocks: seq<seq<T>>, c: nat, j: nat, v: T)
    requires WellFormed(s, blocks) && j <= s.numBlocks && c < s.eccLen
    ensures ParityCount(s, blocks, c + 1, j, v)
         == ParityCount(s, blocks, c, j, v) + Count(ParityRow(s, blocks, c, j), v)
  {
    hide Count, ParityPrefix, ParityCell, ParityRow, WellFormed;
    CountAppend<T>([], [], v);
    if j > 0 {
      OneMoreParityColumn(s, blocks, c, j - 1, v);
      var added := ParityCell(s, blocks, c, j - 1);
      ParityPrefixGrows(s, blocks, j - 1, c);
      CountAppend(ParityPrefix(s, blocks, j - 1, c), added, v);
      CountAppend(ParityRow(s, blocks, c, j - 1), added, v);
    } else {
      ParityRowEmpty(s, blocks, c);
    }
  }

  lemma ParityRowEmpty<T>(s: Shape, blocks: seq<seq<T>>, c: nat)
    requires WellFormed(s, blocks) && c < s.eccLen
    ensures ParityRow(s, blocks, c, 0) == []
  {
  }

  lemma {:induction false} NoPrefixes<T>(s: Shape, blocks: seq<seq<T>>, j: nat, v: T)
    requires WellFormed(s, blocks) && j <= s.numBlocks
    ensures DataCount(s, blocks, 0, j, v) == 0 == ParityCount(s, blocks, 0, j, v)
  {
    if j > 0 {
      NoPrefixes(s, blocks, j - 1, v);
    }
  }

  lemma {:induction false} DataColumnsOnce<T>(s: Shape, blocks: seq<seq<T>>, i: nat, v: T)
    requires WellFormed(s, blocks)
    ensures Count(DataRows(s, blocks, i), v) == DataCount(s, blocks, i, s.numBlocks, v)
  {
    hide Count, DataRow, DataCount;
    NoPrefixes(s, blocks, s.numBlocks, v);
    CountAppend<T>([], [], v);
    if i > 0 {
      DataColumnsOnce(s, blocks, i - 1, v);
      OneMoreDataColumn(s, blocks, i - 1, s.numBlocks, v);
      CountAppend(DataRows(s, blocks, i - 1), DataRow(s, blocks, i - 1, s.numBlocks), v);
    }
  }

  lemma {:induction false} ParityColumnsOnce<T>(s: Shape, blocks: seq<seq<T>>, c: nat, v: T)
    requires WellFormed(s, blocks) && c <= s.eccLen
    ensures Count(ParityRows(s, blocks, c), v) == ParityCount(s, blocks, c, s.numBlocks, v)
  {
    hide Count, ParityRow, ParityCount;
    NoPrefixes(s, blocks, s.numBlocks, v);
    CountAppend<T>([], [], v);
    if c > 0 {
      ParityColumnsOnce(s, blocks, c - 1, v);
      OneMoreParityColumn(s, blocks, c - 1, s.numBlocks, v);
      CountAppend(ParityRows(s, blocks, c - 1), ParityRow(s, blocks, c - 1, s.numBlocks), v);
    }
  }

  lemma {:induction false} WholeBlocks<T>(s: Shape, blocks: seq<seq<T>>, j: nat, v: T)
    requires WellFormed(s, blocks) && j <= s.numBlocks
    ensures DataCount(s, blocks, s.shortDataLen + 1, j, v) + ParityCount(s, blocks, s.eccLen, j, v)
         == Count(Concat(blocks[..j]), v)
  {
    hide Count, DataPrefix, ParityPrefix, WellFormed;
    BlockNumber(s, blocks);
    CountAppend<T>([], [], v);
    if j > 0 {
      WholeBlocks(s, blocks, j - 1, v);
      var b := blocks[j - 1];
      var data, parity := DataPrefix(s, blocks, j - 1, s.shortDataLen + 1), ParityPrefix(s, blocks, j - 1, s.eccLen);
      WholeBlock(s, blocks, j - 1);
      assert blocks[..j] == blocks[..j - 1] + [b];
      ConcatSnoc(blocks[..j - 1], b);
      CountAppend(Concat(blocks[..j - 1]), b, v);
      CountAppend(data, parity, v);
    }
  }

  lemma WholeBlock<T>(s: Shape, blocks: seq<seq<T>>, j: nat)
    requires WellFormed(s, blocks) && j < s.numBlocks
    ensures blocks[j] == DataPrefix(s, blocks, j, s.shortDataLen + 1) + ParityPrefix(s, blocks, j, s.eccLen)
  {
  }

  lemma OnceEach<T>(s: Shape, blocks: seq<seq<T>>, v: T)
    requires WellFormed(s, blocks)
    ensures Count(Interleaved(s, blocks), v) == Count(Concat(blocks), v)
  {
    hide Count, DataCount, ParityCount, DataRows, ParityRows, WellFormed, Concat;
    DataColumnsOnce(s, blocks, s.shortDataLen + 1, v);
    ParityColumnsOnce(s, blocks, s.eccLen, v);
    WholeBlocks(s, blocks, s.numBlocks, v);
    BlockNumber(s, blocks);
    assert blocks[..s.numBlocks] == blocks;
    CountAppend(DataRows(s, blocks, s.shortDataLen + 1), ParityRows(s, blocks, s.eccLen), v);
  }

  lemma BlockNumber<T>(s: Shape, blocks: seq<seq<T>>)
    requires WellFormed(s, blocks)
    ensures |blocks| == s.numBlocks
  {
  }

  /** Interleaving outputs each codeword of each block exactly once. */
  lemma InterleavedOnce<T(!new)>(s: Shape, blocks: seq<seq<T>>)
    requires WellFormed(s, blocks)
    ensures multiset(Interleaved(s, blocks)) == multiset(Concat(blocks))
  {
    hide Interleaved, Concat, WellFormed;
    forall v: T ensures multiset(Interleaved(s, blocks))[v] == multiset(Concat(blocks))[v] {
      OnceEach(s, blocks, v);
    }
  }
}
