/** Choosing the version and level for a payload. */
module QrPlan {
  import opened Wrappers
  import opened QrTables

  datatype QrError = TooLong

  predicate Fits(len: nat, v: nat, e: Ecc)
    requires IsVersion(v)
  {
    len <= ByteCapacity(v, e)
  }

  /** The smallest version from `v` on that holds `len` bytes. */
  function SmallestFrom(len: nat, e: Ecc, v: nat): (r: Result<nat, QrError>)
    requires MIN_VERSION <= v <= MAX_VERSION + 1
    ensures r.Ok? ==> v <= r.value <= MAX_VERSION && Fits(len, r.value, e)
    ensures forall w :: v <= w <= (if r.Ok? then r.value - 1 else MAX_VERSION) ==> !Fits(len, w, e)
    decreases MAX_VERSION + 1 - v
  {
    if v > MAX_VERSION then Err(TooLong)
    else if Fits(len, v, e) then Ok(v)
    else SmallestFrom(len, e, v + 1)
  }

  /** The smallest version at the required level, then the strongest level at least as strong that still fits it. */
  method Plan(len: nat, minEcc: Ecc) returns (r: Result<(nat, Ecc), QrError>)
    ensures r.Err? <==> forall w :: MIN_VERSION <= w <= MAX_VERSION ==> !Fits(len, w, minEcc)
    ensures r.Ok? ==>
      var (version, ecc) := r.value;
      && IsVersion(version) && Fits(len, version, ecc)
      && Fits(len, version, minEcc)
      && (forall w :: MIN_VERSION <= w < version ==> !Fits(len, w, minEcc))
      && ecc.Index() >= minEcc.Index()
      && (forall e: Ecc :: e.Index() > ecc.Index() ==> !Fits(len, version, e))
  {
    hide ByteCapacity;
    var smallest := SmallestFrom(len, minEcc, MIN_VERSION);
    if smallest.Err? {
      return Err(TooLong);
    }
    var version := smallest.value;
    var ecc := minEcc;
    var levels := [Low, Medium, Quartile, High];
    for i := 0 to 4
      invariant minEcc.Index() <= ecc.Index() && Fits(len, version, ecc)
      invariant forall e: Ecc :: ecc.Index() < e.Index() < i ==> !Fits(len, version, e)
    {
      var candidate := levels[i];
      assert candidate.Index() == i;
      assert forall e: Ecc :: e.Index() == i ==> e == candidate;
      if candidate.Index() > ecc.Index() && Fits(len, version, candidate) {
        ecc := candidate;
      }
    }
    return Ok((version, ecc));
  }
}
