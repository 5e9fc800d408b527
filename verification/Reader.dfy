/** The bounds-checked cursor every header parser reads through. */
module Reader {
  import opened Wrappers
  import opened Bits

  const MAX_TAKE := 64 * 1024

  datatype ProtocolError =
    | Incomplete
    | UnsupportedVersion(version: byte)
    | UnknownAddressType(addressType: byte)
    | MalformedAddress
    | UnsupportedCommand(command: byte)
    | AuthFailed
    | LengthExceeded

  type Read<+T> = Result<(T, nat), ProtocolError>

  /** The `n` bytes at `pos` and the position after them. */
  function TakeAt(buf: Bytes, pos: nat, n: nat): (r: Read<Bytes>)
    ensures r.Ok? ==> r.value.1 == pos + n <= |buf| && r.value.0 == buf[pos..pos + n]
  {
    if n > MAX_TAKE then Err(LengthExceeded)
    else if pos + n > |buf| then Err(Incomplete)
    else Ok((buf[pos..pos + n], pos + n))
  }

  function U8At(buf: Bytes, pos: nat): (r: Read<byte>)
    ensures r.Ok? ==> r.value.1 == pos + 1 <= |buf| && r.value.0 == buf[pos]
  {
    if pos < |buf| then Ok((buf[pos], pos + 1)) else Err(Incomplete)
  }

  /** Two bytes, most significant first. */
  function Join(hi: nat, lo: nat): nat {
    256 * hi + lo
  }

  /** A number of any width, most significant byte first. */
  function BeNat(b: Bytes): nat {
    if b == [] then 0 else 256 * BeNat(b[..|b| - 1]) + b[|b| - 1]
  }

  lemma {:induction false} BeNatOfZeros(n: nat)
    ensures BeNat(Zeros(n)) == 0
  {
    if n > 0 {
      assert Zeros(n)[..n - 1] == Zeros(n - 1);
      BeNatOfZeros(n - 1);
    }
  }

  function AbsDiff(a: nat, b: nat): nat {
    if a < b then b - a else a - b
  }

  function U16At(buf: Bytes, pos: nat): (r: Read<nat>)
    ensures r.Ok? ==> r.value.1 == pos + 2 <= |buf| && r.value.0 == Join(buf[pos], buf[pos + 1])
  {
    var (b, p) :- TakeAt(buf, pos, 2);
    Ok((Join(b[0], b[1]), p))
  }

  /** `Incomplete` is the only result that more bytes may change. */
  predicate Settled<T(==)>(now: Result<T, ProtocolError>, later: Result<T, ProtocolError>) {
    now == Err(Incomplete) || later == now
  }

  lemma TakeSettled(buf: Bytes, ext: Bytes, pos: nat, n: nat)
    ensures Settled(TakeAt(buf, pos, n), TakeAt(buf + ext, pos, n))
  {
    if pos + n <= |buf| {
      assert (buf + ext)[pos..pos + n] == buf[pos..pos + n];
    }
  }

  lemma U8Settled(buf: Bytes, ext: Bytes, pos: nat)
    ensures Settled(U8At(buf, pos), U8At(buf + ext, pos))
  {
  }

  lemma U16Settled(buf: Bytes, ext: Bytes, pos: nat)
    ensures Settled(U16At(buf, pos), U16At(buf + ext, pos))
  {
    TakeSettled(buf, ext, pos, 2);
  }

  /** A call returned the outcome of a pure read, and moved the cursor only on success. */
  predicate Did<T(==)>(r: Result<T, ProtocolError>, read: Read<T>, before: nat, after: nat) {
    match read
    case Ok((v, p)) => r == Ok(v) && after == p
    case Err(e) => r == Err(e) && after == before
  }

  /** A cursor over a buffer. */
  class Cursor {
    const buf: Bytes
    var pos: nat

    ghost predicate Valid()
      reads this
    {
      pos <= |buf|
    }

    constructor (buf: Bytes)
      ensures Valid() && this.buf == buf && pos == 0
    {
      this.buf, pos := buf, 0;
    }

    method U8() returns (r: Result<byte, ProtocolError>)
      requires Valid()
      modifies this
      ensures Valid() && Did(r, U8At(buf, old(pos)), old(pos), pos)
    {
      if pos >= |buf| {
        return Err(Incomplete);
      }
      var b := buf[pos];
      pos := pos + 1;
      return Ok(b);
    }

    /** The next `n` bytes; an implausible length is refused instead of waited for. */
    method Take(n: nat) returns (r: Result<Bytes, ProtocolError>)
      requires Valid()
      modifies this
      ensures Valid() && Did(r, TakeAt(buf, old(pos), n), old(pos), pos)
    {
      if n > MAX_TAKE {
        return Err(LengthExceeded);
      }
      var end := pos + n;
      if end > |buf| {
        return Err(Incomplete);
      }
      var s := buf[pos..end];
      pos := end;
      return Ok(s);
    }

    method U16Be() returns (r: Result<nat, ProtocolError>)
      requires Valid()
      modifies this
      ensures Valid() && Did(r, U16At(buf, old(pos)), old(pos), pos)
    {
      var s :- Take(2);
      return Ok(Join(s[0], s[1]));
    }

    /** What has not been read. */
    method Rest() returns (rest: Bytes)
      requires Valid()
      ensures rest == buf[pos..]
    {
      rest := buf[pos..];
    }
  }

  /** Equality without early exit. */
  method CtEq(a: Bytes, b: Bytes) returns (equal: bool)
    ensures equal <==> a == b
  {
    hide XorBits, OrBits, Pow2;
    SmallPowers();
    if |a| != |b| {
      return false;
    }
    var diff: nat := 0;
    for i := 0 to |a|
      invariant diff < Pow2(8)
      invariant diff == 0 <==> a[..i] == b[..i]
    {
      XorBitsZero(a[i], b[i], 8);
      OrBitsZero(diff, XorBits(a[i], b[i], 8), 8);
      assert a[..i + 1] == a[..i] + [a[i]] && b[..i + 1] == b[..i] + [b[i]];
      diff := OrBits(diff, XorBits(a[i], b[i], 8), 8);
    }
    assert a[..|a|] == a && b[..|b|] == b;
    return diff == 0;
  }

  /** The last table entry equal to `presented`. */
  ghost predicate IsLastMatch(presented: Bytes, table: seq<Bytes>, found: Option<nat>) {
    match found
    case Some(i) => i < |table| && table[i] == presented && forall j :: i < j < |table| ==> table[j] != presented
    case None => presented !in table
  }

  function LastMatch(presented: Bytes, table: seq<Bytes>): (found: Option<nat>)
    ensures IsLastMatch(presented, table, found)
  {
    if table == [] then None
    else if table[|table| - 1] == presented then Some(|table| - 1)
    else LastMatch(presented, table[..|table| - 1])
  }

  /** Every entry is compared, even after a match. */
  method Authenticate(presented: Bytes, table: seq<Bytes>) returns (found: Option<nat>)
    ensures found == LastMatch(presented, table)
  {
    found := None;
    for i := 0 to |table|
      invariant found == LastMatch(presented, table[..i])
    {
      assert table[..i + 1][..i] == table[..i];
      var equal := CtEq(presented, table[i]);
      if equal {
        found := Some(i);
      }
    }
    assert table[..|table|] == table;
  }
}
