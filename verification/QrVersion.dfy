/** The 18-bit version information: section 7.10 of ISO/IEC 18004. */
module QrVersion {
  function VersionRound(rem: bv32): bv32 {
    (rem << 1) ^ ((rem >> 11) * 0x1F25)
  }

  /** The check bits after `n` rounds of division by the generator 0x1F25. */
  function VersionCheck(v: bv32, n: nat): bv32 {
    if n == 0 then v else VersionRound(VersionCheck(v, n - 1))
  }

  /** The version number followed by twelve more bits. */
  function VersionAnd(v: bv32, check: bv32): bv32 {
    (v << 12) | check
  }

  /** The version number followed by its check bits. */
  function VersionWord(v: bv32): bv32 {
    VersionAnd(v, VersionCheck(v, 12))
  }

  method VersionBits(v: bv32) returns (bits: bv32)
    ensures bits == VersionWord(v)
  {
    hide VersionRound;
    var rem := v;
    for i := 0 to 12
      invariant rem == VersionCheck(v, i)
    {
      rem := VersionRound(rem);
    }
    bits := (v << 12) | rem;
  }

  predicate BitOf(word: bv32, i: nat)
    requires i < 18
  {
    match i
    case 0 => word & 1 != 0
    case 1 => word & 2 != 0
    case 2 => word & 4 != 0
    case 3 => word & 8 != 0
    case 4 => word & 0x10 != 0
    case 5 => word & 0x20 != 0
    case 6 => word & 0x40 != 0
    case 7 => word & 0x80 != 0
    case 8 => word & 0x100 != 0
    case 9 => word & 0x200 != 0
    case 10 => word & 0x400 != 0
    case 11 => word & 0x800 != 0
    case 12 => word & 0x1000 != 0
    case 13 => word & 0x2000 != 0
    case 14 => word & 0x4000 != 0
    case 15 => word & 0x8000 != 0
    case 16 => word & 0x1_0000 != 0
    case _ => word & 0x2_0000 != 0
  }

  /** Bit `i` of the version information. */
  predicate VersionBit(v: nat, i: nat)
    requires v < 64 && i < 18
  {
    BitOf(VersionWord(v as bv32), i)
  }
}
