/**
 Pointers that may carry an authentication code: the code sits above the raw virtual address, and
 all that is known of signing is that stripping recovers the address.
 */
module Pointers {
  import opened Words

  const ADDRESS_SPACE: int := 0x8000_0000_0000

  /** `ptrauth_strip`. */
  function Strip(pointer: u64): (raw: u64)
    ensures raw < ADDRESS_SPACE
  {
    pointer % ADDRESS_SPACE
  }

  /** `ptrauth_sign_unauthenticated` for some key: a raw address and a discriminator to a signed pointer. */
  type Signer = (u64, u64) -> u64

  ghost predicate IsSigner(sign: Signer) {
    forall raw: u64, discriminator: u64 :: Strip(sign(raw, discriminator)) == Strip(raw)
  }
}
