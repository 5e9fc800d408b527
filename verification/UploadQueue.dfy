/** Uplink chunks that arrive numbered, late and repeated, delivered in order and once each. */
module UploadQueue {
  import opened Wrappers

  datatype QueueError = TooManyBuffered | BufferBytesExceeded | SeqTooFarAhead

  datatype Accepted = Accepted(ready: seq<Bytes>, duplicate: bool)

  /** Bytes held under numbers below `end`. */
  function Total(held: map<nat, Bytes>, end: nat): nat {
    if end == 0 then 0 else Total(held, end - 1) + if end - 1 in held then |held[end - 1]| else 0
  }

  lemma {:induction false} TotalInsert(held: map<nat, Bytes>, end: nat, k: nat, data: Bytes)
    requires k !in held && k < end
    ensures Total(held[k := data], end) == Total(held, end) + |data|
  {
    if end - 1 == k {
      TotalSame(held[k := data], held, k);
    } else {
      TotalInsert(held, end - 1, k, data);
    }
  }

  lemma {:induction false} TotalSame(a: map<nat, Bytes>, b: map<nat, Bytes>, end: nat)
    requires forall k: nat :: k < end ==> (k in a <==> k in b) && (k in a ==> a[k] == b[k])
    ensures Total(a, end) == Total(b, end)
  {
    if end > 0 {
      TotalSame(a, b, end - 1);
    }
  }

  lemma {:induction false} TotalRemove(held: map<nat, Bytes>, end: nat, k: nat)
    requires k in held && k < end
    ensures Total(held - {k}, end) == Total(held, end) - |held[k]|
  {
    var without := held - {k};
    TotalInsert(without, end, k, held[k]);
    assert without[k := held[k]] == held;
  }

  lemma {:induction false} TotalBeyond(held: map<nat, Bytes>, end: nat, end': nat)
    requires end <= end' && forall k :: k in held ==> k < end
    ensures Total(held, end') == Total(held, end)
  {
    if end < end' {
      TotalBeyond(held, end, end' - 1);
    }
  }

  /** Everything numbered below `n` has been accepted. */
  ghost predicate Below(accepted: map<nat, Bytes>, n: nat) {
    forall k: nat :: k < n ==> k in accepted
  }

  /** What is held is what has been accepted from `n` on, none of it at `end` or beyond. */
  ghost predicate Holds(held: map<nat, Bytes>, accepted: map<nat, Bytes>, n: nat, end: nat) {
    && (forall k :: k in held <==> k in accepted && k >= n)
    && (forall k :: k in held ==> held[k] == accepted[k] && k < end)
  }

  /** The chunks numbered 0 to `n - 1`. */
  ghost function FirstChunks(accepted: map<nat, Bytes>, n: nat): (chunks: seq<Bytes>)
    requires Below(accepted, n)
    ensures |chunks| == n && forall k :: 0 <= k < n ==> chunks[k] == accepted[k]
  {
    seq(n, k requires 0 <= k < n => accepted[k])
  }

  /** The chunk that was awaited has arrived. */
  lemma Awaited(held: map<nat, Bytes>, accepted: map<nat, Bytes>, n: nat, end: nat, data: Bytes)
    requires Below(accepted, n) && n !in accepted && Holds(held, accepted, n, end)
    ensures Below(accepted[n := data], n + 1) && Holds(held, accepted[n := data], n + 1, end)
    ensures FirstChunks(accepted[n := data], n + 1) == FirstChunks(accepted, n) + [data]
  {
  }

  /** A chunk that follows without a gap is let go. */
  lemma LetGo(held: map<nat, Bytes>, accepted: map<nat, Bytes>, n: nat, end: nat)
    requires Below(accepted, n) && Holds(held, accepted, n, end) && n in held
    ensures Below(accepted, n + 1) && Holds(held - {n}, accepted, n + 1, end)
    ensures FirstChunks(accepted, n + 1) == FirstChunks(accepted, n) + [held[n]]
    ensures |held - {n}| == |held| - 1 && Total(held - {n}, end) == Total(held, end) - |held[n]|
  {
    OneLess(held, n);
    TotalRemove(held, end, n);
  }

  /** A chunk above the gap is held. */
  lemma Kept(held: map<nat, Bytes>, accepted: map<nat, Bytes>, n: nat, end: nat, k: nat, data: Bytes)
    requires Below(accepted, n) && n !in accepted && Holds(held, accepted, n, end) && k !in accepted && n < k < end
    ensures Below(accepted[k := data], n) && n !in accepted[k := data]
            && Holds(held[k := data], accepted[k := data], n, end)
    ensures FirstChunks(accepted[k := data], n) == FirstChunks(accepted, n)
    ensures |held[k := data]| == |held| + 1 && Total(held[k := data], end) == Total(held, end) + |data|
  {
    TotalInsert(held, end, k, data);
  }

  /** The window moves on. */
  lemma Moved(held: map<nat, Bytes>, accepted: map<nat, Bytes>, n: nat, end: nat, end': nat)
    requires Holds(held, accepted, n, end) && end <= end'
    ensures Holds(held, accepted, n, end') && Total(held, end') == Total(held, end)
  {
    TotalBeyond(held, end, end');
  }

  lemma OneLess(held: map<nat, Bytes>, k: nat)
    requires k in held
    ensures |held - {k}| == |held| - 1
  {
    assert (held - {k}).Keys == held.Keys - {k};
  }

  class UploadQueue {
    var nextSeq: nat
    var pending: map<nat, Bytes>
    var pendingBytes: nat
    const maxBuffered: nat
    const maxBufferBytes: nat
    const maxLookahead: nat
    /** The first data accepted under each number. */
    ghost var accepted: map<nat, Bytes>
    /** Everything handed on so far, in order. */
    ghost var delivered: seq<Bytes>

    /** One past the highest number that may be held. */
    function End(): nat
      reads this
    {
      nextSeq + maxLookahead + 1
    }

    /** Everything accepted has been delivered in order or is held above a gap, and both budgets are kept. */
    ghost predicate Valid()
      reads this
    {
      && maxLookahead == 4 * maxBuffered
      && Below(accepted, nextSeq) && nextSeq !in accepted
      && delivered == FirstChunks(accepted, nextSeq)
      && Holds(pending, accepted, nextSeq, End())
      && pendingBytes == Total(pending, End())
      && |pending| <= maxBuffered && pendingBytes <= maxBufferBytes
    }

    constructor (maxBuffered: nat, maxBufferBytes: nat)
      ensures Valid() && this.maxBuffered == maxBuffered && this.maxBufferBytes == maxBufferBytes
      ensures accepted == map[] && delivered == [] && nextSeq == 0
    {
      nextSeq, pending, pendingBytes := 0, map[], 0;
      this.maxBuffered, this.maxBufferBytes, maxLookahead := maxBuffered, maxBufferBytes, 4 * maxBuffered;
      accepted, delivered := map[], [];
      new;
      Moved(map[], map[], 0, 0, maxLookahead + 1);
    }

    /** Accept one chunk; a repeated one changes nothing, a refused one changes nothing. */
    method Push(number: nat, data: Bytes) returns (r: Result<Accepted, QueueError>)
      requires Valid()
      modifies this
      ensures Valid()
      ensures r.Ok? ==> delivered == old(delivered) + r.value.ready
      ensures r.Ok? && r.value.duplicate <==> number in old(accepted)
      ensures r.Ok? ==> accepted == if number in old(accepted) then old(accepted) else old(accepted)[number := data]
      ensures number == old(nextSeq) ==> r.Ok? && r.value.ready != [] && r.value.ready[0] == data
      ensures r.Err? ==> accepted == old(accepted) && delivered == old(delivered) && pending == old(pending)
      ensures r == Err(SeqTooFarAhead) <==> number !in old(accepted) && number > old(nextSeq) + maxLookahead
      ensures r == Err(TooManyBuffered) <==>
        number !in old(accepted) && old(nextSeq) < number <= old(nextSeq) + maxLookahead
          && |old(pending)| == maxBuffered
      ensures r == Err(BufferBytesExceeded) <==>
        number !in old(accepted) && old(nextSeq) < number <= old(nextSeq) + maxLookahead
        && |old(pending)| < maxBuffered && old(pendingBytes) + |data| > maxBufferBytes
    {
      hide Total, FirstChunks;
      if number < nextSeq {
        return Ok(Accepted([], true));
      }
      if number in pending {
        return Ok(Accepted([], true));
      }
      if number - nextSeq > maxLookahead {
        return Err(SeqTooFarAhead);
      }
      if number == nextSeq {
        var ready := Release(data);
        return Ok(Accepted(ready, false));
      }
      if |pending| >= maxBuffered {
        return Err(TooManyBuffered);
      }
      var newBytes := pendingBytes + |data|;
      if newBytes > maxBufferBytes {
        return Err(BufferBytesExceeded);
      }
      Kept(pending, accepted, nextSeq, End(), number, data);
      pendingBytes := newBytes;
      pending := pending[number := data];
      accepted := accepted[number := data];
      return Ok(Accepted([], false));
    }

    /** The chunk that was awaited: hand it on, and all that follow it without a gap. */
    method Release(data: Bytes) returns (ready: seq<Bytes>)
      requires Valid()
      modifies this
      ensures Valid()
      ensures ready != [] && ready[0] == data && delivered == old(delivered) + ready
      ensures accepted == old(accepted)[old(nextSeq) := data]
    {
      hide Total, FirstChunks, Holds, Below;
      ghost var end := End();
      Awaited(pending, accepted, nextSeq, end, data);
      accepted := accepted[nextSeq := data];
      ready := [data];
      nextSeq := nextSeq + 1;
      while nextSeq in pending
        invariant old(nextSeq) < nextSeq && maxLookahead == 4 * maxBuffered
        invariant accepted == old(accepted)[old(nextSeq) := data]
        invariant Below(accepted, nextSeq) && Holds(pending, accepted, nextSeq, end)
        invariant ready != [] && ready[0] == data && old(delivered) + ready == FirstChunks(accepted, nextSeq)
        invariant pendingBytes == Total(pending, end) && delivered == old(delivered)
        invariant |pending| <= maxBuffered && pendingBytes <= maxBufferBytes
        decreases |pending|
      {
        var chunk := pending[nextSeq];
        LetGo(pending, accepted, nextSeq, end);
        pending := pending - {nextSeq};
        pendingBytes := pendingBytes - |chunk|;
        ready := ready + [chunk];
        nextSeq := nextSeq + 1;
      }
      delivered := delivered + ready;
      GapNext(pending, accepted, nextSeq, end);
      Moved(pending, accepted, nextSeq, end, End());
    }
  }

  lemma GapNext(held: map<nat, Bytes>, accepted: map<nat, Bytes>, n: nat, end: nat)
    requires Holds(held, accepted, n, end) && n !in held
    ensures n !in accepted
  {
  }

  /** Whatever the order, the losses and the repetitions: when every chunk below `n` has been accepted, all of them
      have been delivered, in order and once each. */
  lemma AllDelivered(q: UploadQueue, n: nat)
    requires q.Valid() && Below(q.accepted, n)
    ensures n <= q.nextSeq && q.delivered[..n] == FirstChunks(q.accepted, n)
  {
  }

  /** What is held is bounded in number, in bytes and in distance. */
  lemma HeldBounded(q: UploadQueue)
    requires q.Valid()
    ensures |q.pending| <= q.maxBuffered && Total(q.pending, q.End()) <= q.maxBufferBytes
    ensures forall k :: k in q.pending ==> q.nextSeq < k <= q.nextSeq + 4 * q.maxBuffered
  {
  }
}
