/**
 * Value types shared by the referral store: identifiers, referral records and
 * the namespace tags that keep the store's tables apart.
 */
module Types {

  datatype Option<T> = None | Some(value: T)

  /** A 160-bit public-key id (`uint160`); `Address{}` is the all-zero id. */
  newtype Address = a: int | 0 <= a < 0x1_0000_0000_0000_0000_0000_0000_0000_0000_0000_0000

  /** A 256-bit hash (`uint256`): referral codes and random seeds. */
  newtype Hash256 = h: int | 0 <= h < 0x1_0000_0000_0000_0000_0000_0000_0000_0000_0000_0000_0000_0000_0000_0000_0000_0000

  type CodeHash = Hash256

  /** The address type is a C++ `char`; only its 8 bits matter here. */
  type AddressType = bv8

  /** The default-constructed address, used as the inviter of roots. */
  const NullAddress: Address := 0

  /**
   * The fields of a referral this store reads: its own code, the code of the
   * inviter's referral and the address it introduces.
   */
  datatype Referral = Referral(
    codeHash: CodeHash,
    previousReferral: CodeHash,
    pubKeyId: Address,
    addressType: AddressType)

  // Every table of the store is keyed by (tag, key), so the tables never
  // share a key and are modelled as separate maps. Only the ANV tag is
  // observable: the iterator scans read it back from the raw keys.
  const DB_ANV: char := 'a'

  /** Capacity of the lottery reservoir. */
  const MAX_RESERVOIR_SIZE: nat := 1000
}
