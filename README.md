# libfabric domain interface: fi_rx_addr, memory-region accessors and flag bits

This project models the part of libfabric's domain interface
(`include/rdma/fi_domain.h`) that has behaviour of its own:

- `fi_rx_addr`, which packs a receive-context index into the top
  `rx_ctx_bits` bits of a 64-bit fabric address:
  `((uint64_t) rx_index << (64 - rx_ctx_bits)) | fi_addr`;
- the memory-region record `struct fid_mr` and its two inline accessors
  `fi_mr_desc` and `fi_mr_key`;
- the address-vector flags `FI_SYMMETRIC` (bit 59) and
  `FI_SYNC_ERR` (bit 58), and the domain-bind flag `FI_REG_MR` (bit 59 of
  the separate domain-bind namespace).

Modules:

- `Word64` (`word64.dfy`): the C `uint64_t` as a sequence of 64 bits, least
  significant first, with the operators `fi_rx_addr` uses. `FromInt` is the
  conversion `(uint64_t) int` (section 6.3.1.3 of ISO/IEC 9899:2011: the
  value modulo 2^64). `ShiftLeft` and `ShiftRight` are `<<` and `>>`.
  `BitOr` and `BitAnd` are `|` and `&`. `Value` gives the number a word
  denotes. The lemmas `FromIntValue`, `ShiftLeftValue` and `ShiftRightValue`
  tie each operator to its arithmetic meaning in section 6.5.7 of
  ISO/IEC 9899:2011.
- `AddressVector` (`address_vector.dfy`): `RxAddr` (`fi_rx_addr`) and the
  two decoders a reader of a packed address uses. `RxIndexOf` shifts the top
  bits back down. `RxBaseOf` masks them off. It also holds the address-vector
  flags.
- `MemoryRegion` (`memory_region.dfy`): `FidMr`, `MrDesc` and `MrKey`.
- `Domain` (`domain.dfy`): `RegMr` (`FI_REG_MR`).

`fi_rx_addr` has no range check. A shift count of 64 or more is undefined
behaviour (section 6.5.7, paragraph 3, of ISO/IEC 9899:2011), so `RxAddr`
requires `1 <= rx_ctx_bits <= 64`, the widths the code handles. The header
states no range for `rx_ctx_bits`, neither at the `fi_av_attr` field nor at
the `fi_rx_addr` parameter. A caller who assumes the range [0, 63] would pass
0, which makes the shift count 64, and would avoid 64, which is well defined
(shift count 0). The model follows the code.

The index and the base are otherwise unconstrained, as in the code. The
lemmas spell out exactly what happens:

- bits of the index at or above `rx_ctx_bits` are lost;
- a negative index arrives as its two's-complement bits;
- a base with bits in the top field has those bits merged with the index:
  the decoded index is then the OR of the base's top field and the index's
  low bits (`RxIndexDirtyBase`), and the base does not come back
  (`RxBaseRoundTrip`).

## Model

| member | source | states |
|---|---|---|
| Word64.FromIntValue | include/rdma/fi_domain.h:339 | the conversion `(uint64_t) rx_index` yields the word denoting `rx_index` modulo 2^64, for negative indices too |
| Word64.ShiftLeftValue | include/rdma/fi_domain.h:339 | `w << n` for 0 <= n < 64 denotes `w * 2^n` reduced modulo 2^64: bits shifted past bit 63 are lost |
| Word64.ShiftRightValue | include/rdma/fi_domain.h:339 | `w >> n` for 0 <= n < 64 denotes `w / 2^n`, the inverse shift used to read the index back |
| Word64.OneShifted | include/rdma/fi_domain.h:50-51 | `1ULL << n` is the word with bit n set and no other bit set |
| AddressVector.RxAddr | include/rdma/fi_domain.h:336-340 | none of its own (`fi_rx_addr`, defined as shift-and-OR); its meaning is stated by the lemmas RxAddrSplit, RxAddrValue, RxIndexModulo, RxIndexDirtyBase, RxIndexRoundTrip, RxAddrCollision, RxAddrCollisionAnyBase, RxAddrKeepsLowBits, RxBaseRoundTrip, RxAddrKeepsBaseBits and RxAddrIndexZero |
| AddressVector.RxAddrSplit | include/rdma/fi_domain.h:336-340 | for a base with the top `rx_ctx_bits` bits clear, the packed address is the base's low `64 - rx_ctx_bits` bits followed by the low `rx_ctx_bits` bits of the index |
| AddressVector.RxAddrValue | include/rdma/fi_domain.h:336-340 | for such a base, the packed address denotes base + 2^(64 - rx_ctx_bits) * (index mod 2^rx_ctx_bits) |
| AddressVector.TopBitsClearValue | include/rdma/fi_domain.h:336-340 | a base has its top `rx_ctx_bits` bits clear if and only if it is below 2^(64 - rx_ctx_bits) |
| AddressVector.RxIndexModulo | include/rdma/fi_domain.h:337-339 | for a base with the top `rx_ctx_bits` bits clear, shifting the packed address right by `64 - rx_ctx_bits` yields the index modulo 2^rx_ctx_bits: high index bits are lost and a negative index arrives in two's complement |
| AddressVector.RxIndexDirtyBase | include/rdma/fi_domain.h:337-339 | for any base, decoding the index yields the base's own top field ORed with the index as it would decode over a clean base: bits the base leaves in the top field corrupt the index |
| AddressVector.RxIndexRoundTrip | include/rdma/fi_domain.h:337-339 | for a base with the top `rx_ctx_bits` bits clear, decoding the index returns it unchanged if and only if 0 <= index < 2^rx_ctx_bits |
| AddressVector.RxAddrCollision | include/rdma/fi_domain.h:337-339 | for a base with the top `rx_ctx_bits` bits clear, two indices pack to the same address over that base if and only if they agree modulo 2^rx_ctx_bits |
| AddressVector.RxAddrCollisionAnyBase | include/rdma/fi_domain.h:337-339 | over any base, two indices that agree modulo 2^rx_ctx_bits pack to the same address (the "if" half of the collision law without the clean-base condition) |
| AddressVector.RxAddrKeepsLowBits | include/rdma/fi_domain.h:339 | the low `64 - rx_ctx_bits` bits of the packed address equal those of the base, whatever the index |
| AddressVector.RxBaseRoundTrip | include/rdma/fi_domain.h:339 | masking off the top `rx_ctx_bits` bits of the packed address yields the base if and only if the base had those bits clear |
| AddressVector.RxAddrKeepsBaseBits | include/rdma/fi_domain.h:339 | the OR never clears a bit: packed address & base == base |
| AddressVector.RxAddrIndexZero | include/rdma/fi_domain.h:339 | with index 0 the packed address is the base itself |
| AddressVector.Symmetric | include/rdma/fi_domain.h:50 | none of its own (`FI_SYMMETRIC`); stated by SymmetricBit and AvFlagsDisjoint |
| AddressVector.SyncErr | include/rdma/fi_domain.h:51 | none of its own (`FI_SYNC_ERR`); stated by SyncErrBit and AvFlagsDisjoint |
| AddressVector.SymmetricBit | include/rdma/fi_domain.h:50 | `FI_SYMMETRIC` is bit 59 alone and denotes 2^59 |
| AddressVector.SyncErrBit | include/rdma/fi_domain.h:51 | `FI_SYNC_ERR` is bit 58 alone and denotes 2^58 |
| AddressVector.AvFlagsDisjoint | include/rdma/fi_domain.h:50-51 | the two address-vector flags are distinct and share no bit |
| Domain.RegMr | include/rdma/fi_domain.h:152 | none of its own (`FI_REG_MR`); stated by RegMrBit |
| Domain.RegMrBit | include/rdma/fi_domain.h:151-152 | `FI_REG_MR` is bit 59 alone, denotes 2^59 and is the same word as `FI_SYMMETRIC` |
| MemoryRegion.FidMr | include/rdma/fi_domain.h:93-97 | none of its own (`struct fid_mr`: header, `mem_desc`, `key`); stated by MrFieldsRead and MrAccessorsRoundTrip |
| MemoryRegion.MrDesc | include/rdma/fi_domain.h:234-237 | none of its own (`fi_mr_desc`); stated by MrFieldsRead and MrAccessorsRoundTrip |
| MemoryRegion.MrKey | include/rdma/fi_domain.h:239-242 | none of its own (`fi_mr_key`); stated by MrFieldsRead and MrAccessorsRoundTrip |
| MemoryRegion.MrFieldsRead | include/rdma/fi_domain.h:234-242 | `fi_mr_desc` and `fi_mr_key` return the stored `mem_desc` and `key` fields unchanged |
| MemoryRegion.MrAccessorsRoundTrip | include/rdma/fi_domain.h:93-97 | the header together with the two accessors' results rebuilds the whole region record, so the accessors lose and alter nothing |

## Left out

- The provider-dispatch wrappers (`fi_domain`, `fi_domain_bind`, `fi_cq_open`, `fi_cntr_open`, `fi_wait_open`, `fi_poll_open`, `fi_mr_reg`, `fi_mr_regv`, `fi_mr_regattr`, `fi_mr_bind`, `fi_av_open`, `fi_av_bind`, `fi_av_insert`, `fi_av_insertsvc`, `fi_av_insertsym`, `fi_av_remove`, `fi_av_lookup`, `fi_av_straddr`; include/rdma/fi_domain.h:167-334) are left out. Each one is a single call through an entry of the provider's operations table, so it is a foreign call with no visible behaviour.
- `fi_mr_raw_attr`, `fi_mr_map_raw` and `fi_mr_unmap_key` (include/rdma/fi_domain.h:244-275) are left out. They only pack their arguments and forward them to the provider's `control` hook.
- No address-vector translation table or memory-key table is modelled, because no code in the interface keeps one.
- The ops-table structures, their `size` fields and the attribute structures other than `fid_mr` are ABI declarations with no behaviour and are left out. Of `fi_av_attr`, only `rx_ctx_bits` matters; it is a parameter of `RxAddr`.
- The `FABRIC_DIRECT` build path is left out. It replaces these inline definitions with a provider header that is not part of this model.
- `struct fid` is declared in rdma/fabric.h, which is not part of this model. `Fid` keeps it as an opaque identity.
- `void *` values are modelled as `VoidPtr` (`Null` or an address). Nothing is dereferenced except the region record, which `MemoryRegion` passes by value. The accessors in C change nothing, and Dafny functions cannot change state, so this is captured.
- Concurrency and thread safety of the address-vector and memory-region operations are left out, because nothing in the interface implements them.
- The flag namespaces are not modelled as types. `FI_REG_MR` and `FI_SYMMETRIC` are the same word, and only the call they are passed to tells them apart.
