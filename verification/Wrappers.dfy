/** Results and options shared by every component, and the byte type they work on. */
module Wrappers {

  datatype Option<+T> = None | Some(value: T)

  datatype Result<+T, +E> = Ok(value: T) | Err(error: E) {
    predicate IsFailure() {
      Err?
    }

    function PropagateFailure<U>(): Result<U, E>
      requires Err?
    {
      Err(error)
    }

    function Extract(): T
      requires Ok?
    {
      value
    }
  }

  /** An octet. */
  type byte = x: int | 0 <= x < 256

  type Bytes = seq<byte>

  /** An unsigned 32-bit word. */
  type u32 = x: int | 0 <= x < 0x1_0000_0000

  function Zeros(n: nat): (z: Bytes)
    ensures |z| == n && forall i :: 0 <= i < n ==> z[i] == 0
  {
    seq(n, _ => 0)
  }

  /** The concatenation of a sequence of byte strings. */
  function Concat<T>(parts: seq<seq<T>>): seq<T> {
    if parts == [] then [] else parts[0] + Concat(parts[1..])
  }

  lemma {:induction false} ConcatAppend<T>(a: seq<seq<T>>, b: seq<seq<T>>)
    ensures Concat(a + b) == Concat(a) + Concat(b)
  {
    if a == [] {
      assert a + b == b;
    } else {
      assert (a + b)[1..] == a[1..] + b;
      ConcatAppend(a[1..], b);
    }
  }

  lemma ConcatSnoc<T>(a: seq<seq<T>>, x: seq<T>)
    ensures Concat(a + [x]) == Concat(a) + x
  {
    ConcatAppend(a, [x]);
    assert [x][1..] == [];
    assert Concat([x]) == x + Concat<T>([]);
  }

  /** Moving the first `k` bytes of `rest` into the absorbed part keeps the whole stream. */
  lemma AbsorbPiece<T>(before: seq<T>, current: seq<T>, rest: seq<T>, k: nat)
    requires k <= |rest|
    ensures (before + (current + rest[..k])) + rest[k..] == (before + current) + rest
    ensures (current + rest[..k]) + rest[k..] == current + rest
  {
    assert rest[..k] + rest[k..] == rest;
  }
}
