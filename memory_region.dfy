/** The memory-region record of the domain interface and its two inline
    accessors. A registered region carries a local descriptor, which only
    the local provider interprets, and a remote protection key, which peers
    use to address the region in remote operations. */
module MemoryRegion {
  import opened Word64

  /** An untyped C address (`void *`): NULL or a location. */
  datatype VoidPtr = Null | Addr(addr: nat)

  /** The generic resource header `struct fid` that every object embeds. Its
      layout is declared in rdma/fabric.h, which is not part of this model,
      so it is kept as an opaque identity. */
  datatype Fid = Fid(id: nat)

  /** struct fid_mr: the header, the local memory descriptor and the remote
      key (a uint64_t). */
  datatype FidMr = FidMr(fid: Fid, memDesc: VoidPtr, key: Word)

  /** fi_mr_desc: the region's local descriptor. */
  function MrDesc(mr: FidMr): VoidPtr
  {
    mr.memDesc
  }

  /** fi_mr_key: the region's remote key. */
  function MrKey(mr: FidMr): Word
  {
    mr.key
  }

  /** Each accessor returns the field it is named after, as stored. */
  lemma MrFieldsRead(fid: Fid, desc: VoidPtr, key: Word)
    ensures MrDesc(FidMr(fid, desc, key)) == desc
    ensures MrKey(FidMr(fid, desc, key)) == key
  {
  }

  /** The header and the two accessors together give back the whole record:
      the accessors lose nothing and alter nothing. */
  lemma MrAccessorsRoundTrip(mr: FidMr)
    ensures FidMr(mr.fid, MrDesc(mr), MrKey(mr)) == mr
  {
  }
}
