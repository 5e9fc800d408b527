/** The uplink of an XHTTP session: numbered posts, put in order by the queue, handed on to the relay. */
module Uplink {
  import opened Wrappers
  import opened UploadQueue
  import Detect
  import Relay

  datatype Post = Post(number: nat, data: Bytes)

  /** The first data under each number. */
  function AcceptedOf(posts: seq<Post>): map<nat, Bytes> {
    if posts == [] then map[]
    else
      var before, last := AcceptedOf(posts[..|posts| - 1]), posts[|posts| - 1];
      if last.number in before then before else before[last.number := last.data]
  }

  /** What goes out for some posts: the chunks from number 0 up to the first gap. */
  ghost predicate InOrder(posts: seq<Post>, pieces: seq<Bytes>) {
    var accepted := AcceptedOf(posts);
    Below(accepted, |pieces|) && |pieces| !in accepted && pieces == FirstChunks(accepted, |pieces|)
  }

  /** Take posts in until one is refused; `taken` of them were not. */
  method Receive(posts: seq<Post>, maxBuffered: nat, maxBytes: nat) returns (taken: nat, pieces: seq<Bytes>)
    ensures taken <= |posts| && InOrder(posts[..taken], pieces)
  {
    hide Below, Holds, Total;
    var queue := new UploadQueue(maxBuffered, maxBytes);
    pieces := [];
    assert posts[..0] == [];
    for i := 0 to |posts|
      invariant fresh(queue) && queue.Valid()
      invariant queue.accepted == AcceptedOf(posts[..i]) && queue.delivered == pieces
    {
      assert posts[..i + 1][..i] == posts[..i];
      var r := queue.Push(posts[i].number, posts[i].data);
      match r {
        case Err(_) =>
          return i, pieces;
        case Ok(accepted) =>
          pieces := pieces + accepted.ready;
      }
    }
    return |posts|, pieces;
  }

  /** Some post has this number. */
  ghost predicate Occurs(posts: seq<Post>, n: nat) {
    exists i :: 0 <= i < |posts| && posts[i].number == n
  }

  /** The posts carry these chunks: each under its number, any of them repeated, in any order, and none missing. */
  ghost predicate Carry(posts: seq<Post>, chunks: seq<Bytes>) {
    && (forall i :: 0 <= i < |posts| ==> posts[i].number < |chunks| && posts[i].data == chunks[posts[i].number])
    && (forall n: nat :: n < |chunks| ==> Occurs(posts, n))
  }

  lemma {:induction false} AcceptedFrom(posts: seq<Post>, n: nat)
    ensures n in AcceptedOf(posts) <==> Occurs(posts, n)
    ensures n in AcceptedOf(posts) ==>
              exists i :: 0 <= i < |posts| && posts[i].number == n && AcceptedOf(posts)[n] == posts[i].data
  {
    if posts != [] {
      var m := |posts| - 1;
      AcceptedFrom(posts[..m], n);
      if n in AcceptedOf(posts[..m]) {
        var i :| 0 <= i < m && posts[..m][i].number == n && AcceptedOf(posts[..m])[n] == posts[..m][i].data;
        assert posts[i].number == n && AcceptedOf(posts)[n] == posts[i].data;
      } else if posts[m].number == n {
        assert AcceptedOf(posts)[n] == posts[m].data;
      } else {
        forall i | 0 <= i < m ensures posts[i].number != n {
          assert posts[..m][i] == posts[i];
        }
      }
    }
  }

  /** Whatever the order and the repetitions, what goes out is the chunks. */
  lemma CarriedInOrder(posts: seq<Post>, chunks: seq<Bytes>, pieces: seq<Bytes>)
    requires Carry(posts, chunks) && InOrder(posts, pieces)
    ensures pieces == chunks
  {
    AcceptedFrom(posts, |pieces|);
    forall n: nat | n < |pieces| ensures n < |chunks| && pieces[n] == chunks[n] {
      AcceptedFrom(posts, n);
    }
    if |chunks| < |pieces| {
      AcceptedFrom(posts, |chunks|);
    }
  }

  /** A session: take the posts in, serve what goes out. When the posts carry the chunks of a stream that the relay
      delivers, and none is refused, the destination gets its plaintext. */
  method Session(posts: seq<Post>, maxBuffered: nat, maxBytes: nat, creds: Detect.Credentials, env: Relay.Env,
                 entropy: Bytes, ghost chunks: seq<Bytes>, ghost front: Bytes, ghost plaintext: Bytes)
    returns (taken: nat, ending: Relay.Ending, forwarded: seq<Bytes>)
    requires env.Valid() && creds.Valid() && |entropy| == 32
    ensures taken <= |posts|
    ensures taken == |posts| && Carry(posts, chunks) && Relay.Delivers(chunks, front, plaintext, creds, env) ==>
              if Relay.Reach(chunks, 0, |front|) <= 8192 then
                ending.Drained? && Concat(forwarded) == plaintext
              else ending.NotServed? && forwarded == []
  {
    var pieces;
    taken, pieces := Receive(posts, maxBuffered, maxBytes);
    hide InOrder, Carry, Relay.Run, Relay.Reach;
    if taken == |posts| && Carry(posts, chunks) {
      assert posts[..taken] == posts;
      CarriedInOrder(posts, chunks, pieces);
    }
    ending, forwarded := Relay.Serve(pieces, creds, env, entropy);
  }
}
