/** Accounts, errors and size arithmetic of the journal program. */
module JournalTypes {

  const U64_MAX: int := 0xFFFF_FFFF_FFFF_FFFF
  const I64_MIN: int := -0x8000_0000_0000_0000
  const I64_MAX: int := 0x7FFF_FFFF_FFFF_FFFF

  /** Rust's `u64` and `i64`. */
  type u64 = n: int | 0 <= n <= U64_MAX
  type i64 = n: int | I64_MIN <= n <= I64_MAX

  /** A 32-byte public key: the identity of an owner. */
  type Pubkey = k: seq<bv8> | |k| == 32 witness seq(32, _ => 0 as bv8)

  /** A Rust `String` seen as its UTF-8 bytes: `len()` counts bytes. */
  type Bytes = seq<bv8>

  const MAX_TITLE_LEN := 50
  const MAX_CONTENT_LEN := 500

  /** One journal entry account. */
  datatype JournalEntry = JournalEntry(
    id: u64,
    owner: Pubkey,
    createdAt: i64,
    updatedAt: i64,
    title: Bytes,
    content: Bytes)

  /** The per-owner sequence counter account. */
  datatype JournalCount = JournalCount(count: u64, owner: Pubkey)

  /** The program's own error codes. */
  datatype ErrorCode = InvalidJournalEntryId | TitleLengthExceeded | ContentLengthExceeded

  /**
   * Why an instruction fails: one of the program's codes, or one of the
   * account constraints that the framework checks before the handler runs.
   */
  datatype Error =
    | ProgramError(code: ErrorCode)
      // the instruction names an account that holds no data
    | AccountNotInitialized
      // `init` on an address that already holds an account
    | AccountAlreadyInUse
      // `has_one = owner`: the account's stored owner is not the signer
    | ConstraintHasOne

  datatype Result<T> = Ok(value: T) | Err(error: Error)

  /**
   * The address of an entry account, derived from the seeds
   * `["journal", index, owner]`; the hashing is abstracted away.
   */
  datatype EntryAddress = EntryAddress(index: nat, owner: Pubkey)

  /** An entry account: its allocated size in bytes and its contents. */
  datatype EntryAccount = EntryAccount(space: nat, entry: JournalEntry)

  /**
   * Bytes allocated for an entry: discriminator, id, owner, the two
   * timestamps, and each string with its 4-byte length prefix.
   */
  function EntrySpace(titleLen: nat, contentLen: nat): nat
  {
    8 + 8 + 32 + 8 + 8 + 4 + titleLen + 4 + contentLen
  }

  /** `a.checked_add(b)` on `u64`. */
  function CheckedAdd(a: u64, b: u64): Option<u64>
  {
    if a + b <= U64_MAX then Some(a + b) else None
  }

  datatype Option<T> = None | Some(value: T)

  /** An entry that respects the program's length limits, sized exactly. */
  predicate WellFormedAccount(acct: EntryAccount)
  {
    && |acct.entry.title| <= MAX_TITLE_LEN
    && |acct.entry.content| <= MAX_CONTENT_LEN
    && acct.space == EntrySpace(|acct.entry.title|, |acct.entry.content|)
  }

  /** A well-formed entry account never needs more than 622 bytes nor fewer than 72. */
  lemma WellFormedAccountSpace(acct: EntryAccount)
    requires WellFormedAccount(acct)
    ensures 72 <= acct.space <= 72 + MAX_TITLE_LEN + MAX_CONTENT_LEN
    ensures acct.space == 72 + |acct.entry.title| + |acct.entry.content|
  {
  }
}
