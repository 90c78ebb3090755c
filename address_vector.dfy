/** The address-vector part of the domain interface that has behaviour of its
    own: the address-vector flag bits and `fi_rx_addr`,
    which packs a receive-context index into the high-order bits of a fabric
    address.

    An address vector reserves the top `rx_ctx_bits` bits of every fabric
    address for the index of a receive context; `fi_rx_addr` shifts the index
    up by `64 - rx_ctx_bits` and ORs it with the base address. `RxIndexOf` and
    `RxBaseOf` are the two halves a reader of the packed address recovers:
    the top bits shifted back down, and the remaining low bits. */
module AddressVector {
  import opened Word64

  /** FI_SYMMETRIC, `1ULL << 59`, one of the address-vector flags. */
  const Symmetric: Word := ShiftLeft(FromInt(1), 59)

  /** FI_SYNC_ERR, `1ULL << 58`, one of the address-vector flags. */
  const SyncErr: Word := ShiftLeft(FromInt(1), 58)

  /** The widths for which the shift count `64 - rx_ctx_bits` lies in
      [0, 64); every other width makes the shift undefined (section 6.5.7,
      paragraph 3, of ISO/IEC 9899:2011). */
  predicate ValidRxCtxBits(rxCtxBits: int)
  {
    1 <= rxCtxBits <= WordSize
  }

  /** fi_rx_addr: `((uint64_t) rx_index << (64 - rx_ctx_bits)) | fi_addr`. */
  function RxAddr(fiAddr: Word, rxIndex: CInt, rxCtxBits: CInt): Word
    requires ValidRxCtxBits(rxCtxBits)
  {
    BitOr(ShiftLeft(FromInt(rxIndex), WordSize - rxCtxBits), fiAddr)
  }

  /** The receive-context index held in the top rxCtxBits bits of addr. */
  function RxIndexOf(addr: Word, rxCtxBits: CInt): Word
    requires ValidRxCtxBits(rxCtxBits)
  {
    ShiftRight(addr, WordSize - rxCtxBits)
  }

  /** The word whose low n bits are set. */
  function LowMask(n: nat): Word
  {
    seq(WordSize, j requires 0 <= j < WordSize => j < n)
  }

  /** addr with its top rxCtxBits bits masked off. */
  function RxBaseOf(addr: Word, rxCtxBits: CInt): Word
    requires ValidRxCtxBits(rxCtxBits)
  {
    BitAnd(addr, LowMask(WordSize - rxCtxBits))
  }

  /** No bit of addr lies in the top rxCtxBits positions. */
  predicate TopBitsClear(addr: Word, rxCtxBits: CInt)
    requires ValidRxCtxBits(rxCtxBits)
  {
    forall j | WordSize - rxCtxBits <= j < WordSize :: !addr[j]
  }

  /** The index is a number the rxCtxBits-bit field can hold. */
  predicate IndexFits(rxIndex: int, rxCtxBits: CInt)
    requires ValidRxCtxBits(rxCtxBits)
  {
    0 <= rxIndex < Pow2(rxCtxBits)
  }

  // ---------------------------------------------------------------------
  // Shape of the packed address

  /** With a base whose top bits are clear, the packed address is the low
      64 - rxCtxBits bits of the base followed by the rxCtxBits low-order bits
      of the index. */
  lemma RxAddrSplit(fiAddr: Word, rxIndex: CInt, rxCtxBits: CInt)
    requires ValidRxCtxBits(rxCtxBits) && TopBitsClear(fiAddr, rxCtxBits)
    ensures RxAddr(fiAddr, rxIndex, rxCtxBits)
         == fiAddr[..WordSize - rxCtxBits] + Bits(rxIndex, rxCtxBits)
  {
    var s := WordSize - rxCtxBits;
    BitsPrefix(rxIndex, rxCtxBits, WordSize);
    var r := RxAddr(fiAddr, rxIndex, rxCtxBits);
    var t := fiAddr[..s] + Bits(rxIndex, rxCtxBits);
    forall j | 0 <= j < WordSize ensures r[j] == t[j] {
      if j >= s {
        assert FromInt(rxIndex)[j - s] == Bits(rxIndex, rxCtxBits)[j - s];
      }
    }
  }

  /** A base address has its top rxCtxBits bits clear exactly when it is a
      number below 2^(64 - rxCtxBits). */
  lemma TopBitsClearValue(fiAddr: Word, rxCtxBits: CInt)
    requires ValidRxCtxBits(rxCtxBits)
    ensures TopBitsClear(fiAddr, rxCtxBits) <==> Value(fiAddr) < Pow2(WordSize - rxCtxBits)
  {
    var s := WordSize - rxCtxBits;
    ValueSplit(fiAddr, s);
    HighBitsClearIff(fiAddr, s);
    if Value(fiAddr[s..]) >= 1 {
      MulAtLeast(Pow2(s), Value(fiAddr[s..]));
    }
  }

  /** A base with clear top bits denotes what its low bits denote. */
  lemma LowPartValue(fiAddr: Word, rxCtxBits: CInt)
    requires ValidRxCtxBits(rxCtxBits) && TopBitsClear(fiAddr, rxCtxBits)
    ensures Value(fiAddr[..WordSize - rxCtxBits]) == Value(fiAddr)
  {
    ValueSplit(fiAddr, WordSize - rxCtxBits);
    HighBitsClearIff(fiAddr, WordSize - rxCtxBits);
  }

  /** The number fi_rx_addr produces: the base plus the index, reduced
      modulo 2^rxCtxBits, scaled to the top rxCtxBits bits. */
  lemma RxAddrValue(fiAddr: Word, rxIndex: CInt, rxCtxBits: CInt)
    requires ValidRxCtxBits(rxCtxBits) && TopBitsClear(fiAddr, rxCtxBits)
    ensures Value(RxAddr(fiAddr, rxIndex, rxCtxBits))
         == Value(fiAddr) + Pow2(WordSize - rxCtxBits) * (rxIndex % Pow2(rxCtxBits))
  {
    var s := WordSize - rxCtxBits;
    RxAddrSplit(fiAddr, rxIndex, rxCtxBits);
    LowPartValue(fiAddr, rxCtxBits);
    BitsValue(rxIndex, rxCtxBits);
    ValueConcat(fiAddr[..s], Bits(rxIndex, rxCtxBits));
  }

  // ---------------------------------------------------------------------
  // Decoding the index

  /** Shifting the packed address back down yields the index modulo
      2^rxCtxBits: index bits at or above rxCtxBits are lost, and a negative
      index arrives as its two's-complement bits. */
  lemma RxIndexModulo(fiAddr: Word, rxIndex: CInt, rxCtxBits: CInt)
    requires ValidRxCtxBits(rxCtxBits) && TopBitsClear(fiAddr, rxCtxBits)
    ensures Value(RxIndexOf(RxAddr(fiAddr, rxIndex, rxCtxBits), rxCtxBits))
         == rxIndex % Pow2(rxCtxBits)
  {
    var s := WordSize - rxCtxBits;
    var r := RxAddr(fiAddr, rxIndex, rxCtxBits);
    RxAddrValue(fiAddr, rxIndex, rxCtxBits);
    ShiftRightValue(r, s);
    TopBitsClearValue(fiAddr, rxCtxBits);
    BitsValue(rxIndex, rxCtxBits);
    DivModUnique(Value(r), Pow2(s), rxIndex % Pow2(rxCtxBits), Value(fiAddr));
  }

  /** Over any base, the decoded index is the base's own top field ORed with
      the index as it decodes over a clean base: bits the base leaves in the
      top field are merged into the index. */
  lemma RxIndexDirtyBase(fiAddr: Word, rxIndex: CInt, rxCtxBits: CInt)
    requires ValidRxCtxBits(rxCtxBits)
    ensures RxIndexOf(RxAddr(fiAddr, rxIndex, rxCtxBits), rxCtxBits)
         == BitOr(RxIndexOf(fiAddr, rxCtxBits), RxIndexOf(RxAddr(Zero, rxIndex, rxCtxBits), rxCtxBits))
  {
    var l := RxIndexOf(RxAddr(fiAddr, rxIndex, rxCtxBits), rxCtxBits);
    var r := BitOr(RxIndexOf(fiAddr, rxCtxBits), RxIndexOf(RxAddr(Zero, rxIndex, rxCtxBits), rxCtxBits));
    assert forall j | 0 <= j < WordSize :: l[j] == r[j];
  }

  /** The index comes back unchanged exactly when it fits in rxCtxBits bits. */
  lemma RxIndexRoundTrip(fiAddr: Word, rxIndex: CInt, rxCtxBits: CInt)
    requires ValidRxCtxBits(rxCtxBits) && TopBitsClear(fiAddr, rxCtxBits)
    ensures Value(RxIndexOf(RxAddr(fiAddr, rxIndex, rxCtxBits), rxCtxBits)) == rxIndex
        <==> IndexFits(rxIndex, rxCtxBits)
  {
    RxIndexModulo(fiAddr, rxIndex, rxCtxBits);
    ModIdentityIff(rxIndex, Pow2(rxCtxBits));
  }

  /** Two indices give the same packed address exactly when they agree
      modulo 2^rxCtxBits: index 2^rxCtxBits collides with index 0, and -1
      with 2^rxCtxBits - 1. */
  lemma RxAddrCollision(fiAddr: Word, i: CInt, j: CInt, rxCtxBits: CInt)
    requires ValidRxCtxBits(rxCtxBits) && TopBitsClear(fiAddr, rxCtxBits)
    ensures RxAddr(fiAddr, i, rxCtxBits) == RxAddr(fiAddr, j, rxCtxBits)
        <==> i % Pow2(rxCtxBits) == j % Pow2(rxCtxBits)
  {
    RxIndexModulo(fiAddr, i, rxCtxBits);
    RxIndexModulo(fiAddr, j, rxCtxBits);
    if i % Pow2(rxCtxBits) == j % Pow2(rxCtxBits) {
      RxAddrValue(fiAddr, i, rxCtxBits);
      RxAddrValue(fiAddr, j, rxCtxBits);
      ValueInjective(RxAddr(fiAddr, i, rxCtxBits), RxAddr(fiAddr, j, rxCtxBits));
    }
  }

  /** Over any base, indices that agree modulo 2^rxCtxBits pack to the same
      address. The converse needs a clean base: a base with bits in the top
      field can make different indices collide. */
  lemma RxAddrCollisionAnyBase(fiAddr: Word, i: CInt, j: CInt, rxCtxBits: CInt)
    requires ValidRxCtxBits(rxCtxBits)
    requires i % Pow2(rxCtxBits) == j % Pow2(rxCtxBits)
    ensures RxAddr(fiAddr, i, rxCtxBits) == RxAddr(fiAddr, j, rxCtxBits)
  {
    var zi, zj := RxAddr(Zero, i, rxCtxBits), RxAddr(Zero, j, rxCtxBits);
    RxAddrCollision(Zero, i, j, rxCtxBits);
    var a, b := RxAddr(fiAddr, i, rxCtxBits), RxAddr(fiAddr, j, rxCtxBits);
    assert forall k | 0 <= k < WordSize :: a[k] == (zi[k] || fiAddr[k]);
    assert forall k | 0 <= k < WordSize :: b[k] == (zj[k] || fiAddr[k]);
  }

  // ---------------------------------------------------------------------
  // Decoding the base

  /** The low 64 - rxCtxBits bits of the packed address are those of the
      base, whatever the index. */
  lemma RxAddrKeepsLowBits(fiAddr: Word, rxIndex: CInt, rxCtxBits: CInt)
    requires ValidRxCtxBits(rxCtxBits)
    ensures RxBaseOf(RxAddr(fiAddr, rxIndex, rxCtxBits), rxCtxBits) == RxBaseOf(fiAddr, rxCtxBits)
  {
    var a := RxBaseOf(RxAddr(fiAddr, rxIndex, rxCtxBits), rxCtxBits);
    var b := RxBaseOf(fiAddr, rxCtxBits);
    assert forall j | 0 <= j < WordSize :: a[j] == b[j];
  }

  /** Masking off the top bits of the packed address gives back the base
      exactly when the base left those bits clear. */
  lemma RxBaseRoundTrip(fiAddr: Word, rxIndex: CInt, rxCtxBits: CInt)
    requires ValidRxCtxBits(rxCtxBits)
    ensures RxBaseOf(RxAddr(fiAddr, rxIndex, rxCtxBits), rxCtxBits) == fiAddr
        <==> TopBitsClear(fiAddr, rxCtxBits)
  {
    RxAddrKeepsLowBits(fiAddr, rxIndex, rxCtxBits);
    var b := RxBaseOf(fiAddr, rxCtxBits);
    if TopBitsClear(fiAddr, rxCtxBits) {
      assert forall j | 0 <= j < WordSize :: b[j] == fiAddr[j];
    }
    if b == fiAddr {
      forall j | WordSize - rxCtxBits <= j < WordSize ensures !fiAddr[j] {
        assert b[j] == (fiAddr[j] && j < WordSize - rxCtxBits);
      }
    }
  }

  // ---------------------------------------------------------------------
  // The OR never clears a bit

  /** Every bit set in the base is set in the packed address. */
  lemma RxAddrKeepsBaseBits(fiAddr: Word, rxIndex: CInt, rxCtxBits: CInt)
    requires ValidRxCtxBits(rxCtxBits)
    ensures BitAnd(RxAddr(fiAddr, rxIndex, rxCtxBits), fiAddr) == fiAddr
  {
    var a := BitAnd(RxAddr(fiAddr, rxIndex, rxCtxBits), fiAddr);
    assert forall j | 0 <= j < WordSize :: a[j] == fiAddr[j];
  }

  /** Index 0 leaves the base address as it is. */
  lemma RxAddrIndexZero(fiAddr: Word, rxCtxBits: CInt)
    requires ValidRxCtxBits(rxCtxBits)
    ensures RxAddr(fiAddr, 0, rxCtxBits) == fiAddr
  {
    FromIntZero();
    var r := RxAddr(fiAddr, 0, rxCtxBits);
    assert forall j | 0 <= j < WordSize :: r[j] == fiAddr[j];
  }

  // ---------------------------------------------------------------------
  // Flag bits

  /** FI_SYMMETRIC is bit 59 alone. */
  lemma SymmetricBit()
    ensures IsBit(Symmetric, 59) && Value(Symmetric) == Pow2(59)
  {
    OneShifted(59);
    BitAtValue(59);
  }

  /** FI_SYNC_ERR is bit 58 alone. */
  lemma SyncErrBit()
    ensures IsBit(SyncErr, 58) && Value(SyncErr) == Pow2(58)
  {
    OneShifted(58);
    BitAtValue(58);
  }

  /** The two address-vector flags are distinct and never overlap. */
  lemma AvFlagsDisjoint()
    ensures BitAnd(Symmetric, SyncErr) == Zero && Symmetric != SyncErr
  {
    OneShifted(59);
    OneShifted(58);
    DistinctBitsDisjoint(Symmetric, 59, SyncErr, 58);
  }
}
