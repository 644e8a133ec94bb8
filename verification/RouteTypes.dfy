/** Route legs as they cross the wire, and account metas. */
module RouteTypes {
  import opened Common

  const MAX_SWAPS: nat := 12
  const MAX_MINTS: nat := 12

  datatype AccountMeta = AccountMeta(pubkey: Pubkey, isSigner: bool, isWritable: bool)

  datatype Venue = ByrealClmm(zeroForOne: bool)

  /** `SwapSpecInputV2`; `Valid` bounds the fields by their integer widths. */
  datatype SwapSpec = SwapSpec(venue: Venue, from: nat, to: nat, weightNanos: nat, nAccounts: nat) {
    predicate Valid() {
      from < 0x100 && to < 0x100 && weightNanos < 0x1_0000_0000 && nAccounts < 0x100
    }
  }
}
