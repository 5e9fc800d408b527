/** Several uplink requests at once: each takes its chunks out of the queue in one go, but sends them one by one, and
    another request may send in between. */
module UplinkHandlers {
  import opened Wrappers
  import opened UploadQueue

  /** A request that has taken the chunks from number `start` up to `to`, and has sent those before `next`. */
  datatype Handler = Handler(start: nat, next: nat, to: nat) {
    predicate Done() {
      next == to
    }
  }

  /** How many chunks the queue has let go, the requests in the order in which they took theirs, and the numbers in the
      order in which they were sent. */
  datatype State = State(released: nat, handlers: seq<Handler>, sent: seq<nat>)

  const IDLE := State(0, [], [])

  datatype Step = Take(count: nat) | Send(handler: nat)

  /** Only a request with chunks left can send. */
  predicate Enabled(s: State, step: Step) {
    step.Send? ==> step.handler < |s.handlers| && !s.handlers[step.handler].Done()
  }

  function Next(s: State, step: Step): State {
    if !Enabled(s, step) then s
    else
      match step
      case Take(count) =>
        var to := s.released + count;
        State(to, s.handlers + [Handler(s.released, s.released, to)], s.sent)
      case Send(i) =>
        var h := s.handlers[i];
        State(s.released, s.handlers[i := h.(next := h.next + 1)], s.sent + [h.next])
  }

  /** A run from the idle session. */
  function After(steps: seq<Step>): State {
    if steps == [] then IDLE else Next(After(steps[..|steps| - 1]), steps[|steps| - 1])
  }

  // ---- every chunk once ----

  /** The requests share the numbers out without gap or overlap. */
  ghost predicate Shared(s: State) {
    && (forall i :: 0 <= i < |s.handlers| ==>
          && s.handlers[i].start <= s.handlers[i].next <= s.handlers[i].to <= s.released)
    && (forall i, j :: 0 <= i < j < |s.handlers| ==> s.handlers[i].to <= s.handlers[j].start)
    && (forall n: nat :: n < s.released ==> Owned(s, n))
  }

  /** Some request has taken this number. */
  predicate Owned(s: State, n: nat) {
    exists i :: 0 <= i < |s.handlers| && s.handlers[i].start <= n < s.handlers[i].to
  }

  /** Some request has sent it. */
  predicate Gone(s: State, n: nat) {
    exists i :: 0 <= i < |s.handlers| && s.handlers[i].start <= n < s.handlers[i].next
  }

  /** What was sent is what the requests have sent, each number once. */
  ghost predicate Once(s: State) {
    && (forall k :: 0 <= k < |s.sent| ==> Gone(s, s.sent[k]))
    && (forall n: nat :: Gone(s, n) ==> n in s.sent)
    && (forall k, l :: 0 <= k < l < |s.sent| ==> s.sent[k] != s.sent[l])
  }

  ghost predicate Valid(s: State) {
    Shared(s) && Once(s)
  }

  lemma NextValid(s: State, step: Step)
    requires Valid(s)
    ensures Valid(Next(s, step))
  {
    hide Valid;
    match step
    case Take(count) => TakeValid(s, count);
    case Send(i) => if Enabled(s, step) { SendValid(s, i); }
  }

  lemma TakeValid(s: State, count: nat)
    requires Valid(s)
    ensures Valid(Next(s, Take(count)))
  {
    var t := Next(s, Take(count));
    forall n: nat | n < t.released ensures Owned(t, n) {
      if n < s.released {
        assert Owned(s, n);
        var i :| 0 <= i < |s.handlers| && s.handlers[i].start <= n < s.handlers[i].to;
        assert t.handlers[i] == s.handlers[i];
      } else {
        assert t.handlers[|s.handlers|].start <= n < t.handlers[|s.handlers|].to;
      }
    }
    forall n: nat ensures Gone(t, n) <==> Gone(s, n) {
      if Gone(s, n) {
        var i :| 0 <= i < |s.handlers| && s.handlers[i].start <= n < s.handlers[i].next;
        assert t.handlers[i] == s.handlers[i];
      }
    }
  }

  lemma SendValid(s: State, i: nat)
    requires Valid(s) && Enabled(s, Send(i))
    ensures Valid(Next(s, Send(i)))
  {
    SendShared(s, i);
    NotGone(s, i);
    SendGone(s, i);
    hide Gone, Shared;
  }

  lemma SendShared(s: State, i: nat)
    requires Shared(s) && Enabled(s, Send(i))
    ensures Shared(Next(s, Send(i)))
  {
    var t := Next(s, Send(i));
    forall n: nat | n < t.released ensures Owned(t, n) {
      assert Owned(s, n);
      var j :| 0 <= j < |s.handlers| && s.handlers[j].start <= n < s.handlers[j].to;
      assert t.handlers[j].start <= n < t.handlers[j].to;
    }
  }

  lemma SendGone(s: State, i: nat)
    requires Shared(s) && Enabled(s, Send(i))
    ensures forall n: nat :: Gone(Next(s, Send(i)), n) <==> Gone(s, n) || n == s.handlers[i].next
  {
    var t, m := Next(s, Send(i)), s.handlers[i].next;
    forall n: nat ensures Gone(t, n) <==> Gone(s, n) || n == m {
      if Gone(s, n) {
        var j :| 0 <= j < |s.handlers| && s.handlers[j].start <= n < s.handlers[j].next;
        assert t.handlers[j].start <= n < t.handlers[j].next;
      }
      assert t.handlers[i].start <= m < t.handlers[i].next;
    }
  }

  /** The next number of a request has not been sent by any. */
  lemma NotGone(s: State, i: nat)
    requires Shared(s) && i < |s.handlers| && !s.handlers[i].Done()
    ensures !Gone(s, s.handlers[i].next)
  {
  }

  lemma {:induction false} AfterValid(steps: seq<Step>)
    ensures Valid(After(steps))
  {
    if steps == [] {
      assert forall n: nat :: !Gone(IDLE, n);
    } else {
      hide Next, Valid;
      AfterValid(steps[..|steps| - 1]);
      NextValid(After(steps[..|steps| - 1]), steps[|steps| - 1]);
    }
  }

  /** When every request has sent all it took, every number let go has been sent, and once. */
  lemma AllSentOnce(steps: seq<Step>)
    requires forall i :: 0 <= i < |After(steps).handlers| ==> After(steps).handlers[i].Done()
    ensures var s := After(steps);
      && (forall n: nat :: n < s.released <==> n in s.sent)
      && (forall k, l :: 0 <= k < l < |s.sent| ==> s.sent[k] != s.sent[l])
  {
    hide After;
    AfterValid(steps);
    var s := After(steps);
    forall n: nat ensures n < s.released <==> n in s.sent {
      if n < s.released {
        assert Owned(s, n);
        var i :| 0 <= i < |s.handlers| && s.handlers[i].start <= n < s.handlers[i].to;
        assert s.handlers[i].Done() && Gone(s, n);
      }
    }
  }

  // ---- in order, or not ----

  predicate InOrder(s: State) {
    forall k :: 0 <= k < |s.sent| ==> s.sent[k] == k
  }

  /** No earlier request has chunks left. */
  predicate Turn(s: State, i: nat)
    requires i < |s.handlers|
  {
    forall j :: 0 <= j < i ==> s.handlers[j].Done()
  }

  lemma SentPrefix(s: State, n: nat)
    requires Valid(s) && InOrder(s) && n < |s.sent|
    ensures Gone(s, n)
  {
    assert s.sent[n] == n;
  }

  /** While the order has been kept, a request sends the number that is due exactly when it is its turn. */
  lemma DueIffTurn(s: State, i: nat)
    requires Valid(s) && InOrder(s) && i < |s.handlers| && !s.handlers[i].Done()
    ensures s.handlers[i].next == |s.sent| <==> Turn(s, i)
  {
    var m := s.handlers[i].next;
    NotGone(s, i);
    if Turn(s, i) && |s.sent| < m {
      SentBefore(s, i, |s.sent|);
    }
    if m < |s.sent| {
      SentPrefix(s, m);
    }
    if m == |s.sent| {
      forall j | 0 <= j < i ensures s.handlers[j].Done() {
        if !s.handlers[j].Done() {
          NotGone(s, j);
          SentPrefix(s, s.handlers[j].next);
        }
      }
    }
  }

  /** When it is a request's turn, every number before its next one has been sent. */
  lemma SentBefore(s: State, i: nat, n: nat)
    requires Valid(s) && i < |s.handlers| && Turn(s, i) && n < s.handlers[i].next
    ensures n in s.sent
  {
    assert Owned(s, n);
    var j :| 0 <= j < |s.handlers| && s.handlers[j].start <= n < s.handlers[j].to;
    assert j <= i;
    assert Gone(s, n);
  }

  /** In a run every request waited for its turn. */
  predicate TookTurns(steps: seq<Step>)
  {
    steps == [] || (var before, last := steps[..|steps| - 1], steps[|steps| - 1];
                    TookTurns(before)
                    && (last.Send? && Enabled(After(before), last) ==> Turn(After(before), last.handler)))
  }

  /** Over any run the chunks are sent in order exactly when no request sends while an earlier one has chunks left. */
  lemma {:induction false} InOrderIff(steps: seq<Step>)
    ensures InOrder(After(steps)) <==> TookTurns(steps)
  {
    if steps != [] {
      var before, last := steps[..|steps| - 1], steps[|steps| - 1];
      InOrderIff(before);
      AfterValid(before);
      var s, t := After(before), After(steps);
      hide Valid, Turn, TookTurns;
      match last {
        case Take(count) =>
          assert t.sent == s.sent;
        case Send(i) =>
          if !Enabled(s, last) {
          } else if InOrder(s) {
            DueIffTurn(s, i);
            assert t.sent[|s.sent|] == s.handlers[i].next;
          } else {
            var k :| 0 <= k < |s.sent| && s.sent[k] != k;
            assert t.sent[k] != k;
          }
      }
    }
  }

  /** The chunks behind the numbers that were sent. */
  ghost function Contents(s: State, accepted: map<nat, Bytes>): (chunks: seq<Bytes>)
    requires Valid(s) && Below(accepted, s.released)
    ensures |chunks| == |s.sent|
  {
    seq(|s.sent|, k requires 0 <= k < |s.sent| => SentWasReleased(s, k); accepted[s.sent[k]])
  }

  lemma SentWasReleased(s: State, k: nat)
    requires Valid(s) && k < |s.sent|
    ensures s.sent[k] < s.released
  {
    assert Gone(s, s.sent[k]);
  }

  lemma SentIndex(s: State, n: nat)
    requires InOrder(s) && n in s.sent
    ensures n < |s.sent|
  {
    var k :| 0 <= k < |s.sent| && s.sent[k] == n;
  }

  /** What the relay receives: the first chunks in order when every request waited for its turn, and all that the queue
      let go once every request is done. */
  lemma TurnsDeliver(steps: seq<Step>, accepted: map<nat, Bytes>)
    requires Below(accepted, After(steps).released) && TookTurns(steps)
    ensures var s := After(steps);
      && Valid(s) && |s.sent| <= s.released && Contents(s, accepted) == FirstChunks(accepted, |s.sent|)
      && ((forall i :: 0 <= i < |s.handlers| ==> s.handlers[i].Done()) ==> |s.sent| == s.released)
  {
    hide After, TookTurns;
    AfterValid(steps);
    InOrderIff(steps);
    var s := After(steps);
    if |s.sent| > 0 {
      SentWasReleased(s, |s.sent| - 1);
    }
    if forall i :: 0 <= i < |s.handlers| ==> s.handlers[i].Done() {
      AllSentOnce(steps);
      if |s.sent| < s.released {
        SentIndex(s, |s.sent|);
      }
    }
  }

  /** It can happen: the second of two requests sends before the first has. */
  lemma Overtaking()
    ensures var s := After([Take(2), Take(1), Send(1)]);
      s.sent == [2] && !InOrder(s)
  {
    var steps := [Take(2), Take(1), Send(1)];
    assert steps[..2] == [Take(2), Take(1)] && steps[..1] == [Take(2)] && steps[..2][..1] == [Take(2)];
    assert After(steps[..1]) == Next(IDLE, Take(2));
    assert After(steps[..2]) == Next(After(steps[..1]), Take(1));
    assert After(steps) == Next(After(steps[..2]), Send(1));
    assert After(steps).sent[0] == 2;
  }
}
