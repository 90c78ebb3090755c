/** The flag the domain-bind call accepts. Domain-bind flags form their own
    namespace, separate from the address-vector flags, and
    FI_REG_MR takes the same bit there that FI_SYMMETRIC takes among the
    address-vector flags. */
module Domain {
  import opened Word64
  import AddressVector

  /** FI_REG_MR, `1ULL << 59`, one of the domain-bind flags. */
  const RegMr: Word := ShiftLeft(FromInt(1), 59)

  /** FI_REG_MR is bit 59 alone, the very word FI_SYMMETRIC is. */
  lemma RegMrBit()
    ensures IsBit(RegMr, 59) && Value(RegMr) == Pow2(59)
    ensures RegMr == AddressVector.Symmetric
  {
    OneShifted(59);
    BitAtValue(59);
  }
}
