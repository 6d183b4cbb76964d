/**
 * The journal program's three instructions as functions on the whole state
 * of its accounts. An instruction either commits its new state (`Ok`) or
 * fails, and a failed instruction leaves every account as it was.
 */
module JournalState {
  import opened JournalTypes

  /** Counters keyed by their owner; entry accounts keyed by their address. */
  datatype State = State(
    counters: map<Pubkey, JournalCount>,
    entries: map<EntryAddress, EntryAccount>)

  /** Which key index a create instruction derives the new entry's address from. */
  datatype Seeding =
    | AsWritten  // the counter as read during account validation, before the increment
    | Corrected  // the counter after the increment, which is also the new entry's id

  /** How far an entry's stored id is from the key index of its address. */
  function IdOffset(seeding: Seeding): nat
  {
    if seeding == AsWritten then 1 else 0
  }

  /**
   * The invariant of every state the instructions can reach from a state
   * with no entries: each entry respects the length limits and is sized
   * exactly, sits under its owner, carries the id its address was derived
   * for, and that id has already been handed out by its owner's counter.
   */
  ghost predicate Valid(s: State, seeding: Seeding)
  {
    forall a | a in s.entries ::
      && WellFormedAccount(s.entries[a])
      && s.entries[a].entry.owner == a.owner
      && s.entries[a].entry.id == a.index + IdOffset(seeding)
      && a.owner in s.counters
      && 1 <= s.entries[a].entry.id <= s.counters[a.owner].count
  }

  predicate LengthsOk(title: Bytes, content: Bytes)
  {
    |title| <= MAX_TITLE_LEN && |content| <= MAX_CONTENT_LEN
  }

  /** The account constraints of a create instruction hold. */
  predicate CreateAccountsOk(s: State, signer: Pubkey, index: nat)
  {
    && signer in s.counters
    && EntryAddress(index, signer) !in s.entries
    && s.counters[signer].owner == signer
  }

  /**
   * What a successful create does: the signer's counter goes up by exactly
   * one and no other counter changes; a new entry appears at a previously
   * unused address, holding the new count as its id, and no other entry
   * changes.
   */
  ghost predicate CreatedEntry(s: State, t: State, signer: Pubkey, title: Bytes, content: Bytes, now: i64, index: nat)
    requires signer in s.counters
  {
    var address := EntryAddress(index, signer);
    && signer in t.counters
    && t.counters[signer].count == s.counters[signer].count + 1
    && t.counters[signer].owner == signer
    && t.counters - {signer} == s.counters - {signer}
    && address !in s.entries
    && t.entries.Keys == s.entries.Keys + {address}
    && t.entries - {address} == s.entries
    && t.entries[address].space == EntrySpace(|title|, |content|)
    && var e := t.entries[address].entry;
    && e.id == t.counters[signer].count
    && e.owner == signer
    && e.title == title
    && e.content == content
    && e.createdAt == now
    && e.updatedAt == now
  }

  /**
   * A create instruction whose new entry account is derived from key index
   * `index`: first the account constraints (the new address must be unused,
   * the counter's stored owner must be the signer), then the handler's
   * checks in order (title length, content length, counter overflow).
   */
  function CreateAt(s: State, signer: Pubkey, title: Bytes, content: Bytes, now: i64, index: nat): (r: Result<State>)
    requires signer in s.counters
    ensures r == Err(AccountAlreadyInUse) <==> EntryAddress(index, signer) in s.entries
    ensures r == Err(ConstraintHasOne) <==>
      EntryAddress(index, signer) !in s.entries && s.counters[signer].owner != signer
    ensures r == Err(ProgramError(TitleLengthExceeded)) <==>
      CreateAccountsOk(s, signer, index) && |title| > MAX_TITLE_LEN
    ensures r == Err(ProgramError(ContentLengthExceeded)) <==>
      CreateAccountsOk(s, signer, index) && |title| <= MAX_TITLE_LEN && |content| > MAX_CONTENT_LEN
    ensures r == Err(ProgramError(InvalidJournalEntryId)) <==>
      CreateAccountsOk(s, signer, index) && LengthsOk(title, content) && s.counters[signer].count == U64_MAX
    ensures r.Ok? <==>
      CreateAccountsOk(s, signer, index) && LengthsOk(title, content) && s.counters[signer].count < U64_MAX
    ensures r.Ok? ==> CreatedEntry(s, r.value, signer, title, content, now, index)
  {
    var address := EntryAddress(index, signer);
    var counter := s.counters[signer];
    if address in s.entries then Err(AccountAlreadyInUse)
    else if counter.owner != signer then Err(ConstraintHasOne)
    else if |title| > MAX_TITLE_LEN then Err(ProgramError(TitleLengthExceeded))
    else if |content| > MAX_CONTENT_LEN then Err(ProgramError(ContentLengthExceeded))
    else match CheckedAdd(counter.count, 1)
      case None => Err(ProgramError(InvalidJournalEntryId))
      case Some(count) =>
        var entry := JournalEntry(count, signer, now, now, title, content);
        Ok(State(
          s.counters[signer := JournalCount(count, signer)],
          s.entries[address := EntryAccount(EntrySpace(|title|, |content|), entry)]))
  }

  /**
   * `create_journal_entry` as written: the counter must exist, and the new
   * entry's address is derived from the counter before the handler
   * increments it, so the entry's key index is its id minus one.
   */
  function Create(s: State, signer: Pubkey, title: Bytes, content: Bytes, now: i64): (r: Result<State>)
    ensures r == Err(AccountNotInitialized) <==> signer !in s.counters
    ensures signer in s.counters ==>
      r == CreateAt(s, signer, title, content, now, s.counters[signer].count)
    ensures r.Ok? ==>
      var index := s.counters[signer].count;
      && EntryAddress(index, signer) in r.value.entries
      && r.value.entries[EntryAddress(index, signer)].entry.id == index + 1
  {
    if signer !in s.counters then Err(AccountNotInitialized)
    else CreateAt(s, signer, title, content, now, s.counters[signer].count)
  }

  /**
   * The create instruction as evidently intended: the new entry's address is
   * derived from its own id, the incremented counter, which is the key that
   * update and delete derive from the id they are given.
   */
  function CreateCorrected(s: State, signer: Pubkey, title: Bytes, content: Bytes, now: i64): (r: Result<State>)
    ensures r == Err(AccountNotInitialized) <==> signer !in s.counters
    ensures signer in s.counters ==>
      r == CreateAt(s, signer, title, content, now, s.counters[signer].count + 1)
    ensures r.Ok? ==>
      var id := r.value.counters[signer].count;
      && EntryAddress(id, signer) in r.value.entries
      && r.value.entries[EntryAddress(id, signer)].entry.id == id
  {
    if signer !in s.counters then Err(AccountNotInitialized)
    else CreateAt(s, signer, title, content, now, s.counters[signer].count + 1)
  }

  /** The account constraints of an update or delete instruction hold. */
  predicate EntryAccountsOk(s: State, signer: Pubkey, index: nat)
  {
    var address := EntryAddress(index, signer);
    address in s.entries && s.entries[address].entry.owner == signer
  }

  /**
   * What a successful update does: the entry at `address` gets the new
   * title, content and update time and is resized to fit them exactly; its
   * id, owner and creation time, every other entry and every counter are
   * unchanged.
   */
  ghost predicate UpdatedEntry(s: State, t: State, address: EntryAddress, title: Bytes, content: Bytes, now: i64)
    requires address in s.entries
  {
    && t.counters == s.counters
    && t.entries.Keys == s.entries.Keys
    && t.entries - {address} == s.entries - {address}
    && t.entries[address].space == EntrySpace(|title|, |content|)
    && var (before, after) := (s.entries[address].entry, t.entries[address].entry);
    && after.id == before.id
    && after.owner == before.owner
    && after.createdAt == before.createdAt
    && after.title == title
    && after.content == content
    && after.updatedAt == now
  }

  /**
   * `update_journal_entry`: the entry is looked up at the address derived
   * from the given id, must be owned by the signer and is resized to the
   * new exact size (account constraints); then the handler checks the title
   * length, the content length, and that the stored id is the given id.
   */
  function Update(s: State, signer: Pubkey, id: u64, title: Bytes, content: Bytes, now: i64): (r: Result<State>)
    ensures r == Err(AccountNotInitialized) <==> EntryAddress(id, signer) !in s.entries
    ensures r == Err(ConstraintHasOne) <==>
      EntryAddress(id, signer) in s.entries && s.entries[EntryAddress(id, signer)].entry.owner != signer
    ensures r == Err(ProgramError(TitleLengthExceeded)) <==>
      EntryAccountsOk(s, signer, id) && |title| > MAX_TITLE_LEN
    ensures r == Err(ProgramError(ContentLengthExceeded)) <==>
      EntryAccountsOk(s, signer, id) && |title| <= MAX_TITLE_LEN && |content| > MAX_CONTENT_LEN
    ensures r == Err(ProgramError(InvalidJournalEntryId)) <==>
      EntryAccountsOk(s, signer, id) && LengthsOk(title, content)
      && s.entries[EntryAddress(id, signer)].entry.id != id
    ensures r.Ok? <==>
      EntryAccountsOk(s, signer, id) && LengthsOk(title, content)
      && s.entries[EntryAddress(id, signer)].entry.id == id
    ensures r.Ok? ==> UpdatedEntry(s, r.value, EntryAddress(id, signer), title, content, now)
  {
    var address := EntryAddress(id, signer);
    if address !in s.entries then Err(AccountNotInitialized)
    else
      var acct := s.entries[address];
      if acct.entry.owner != signer then Err(ConstraintHasOne)
      else if |title| > MAX_TITLE_LEN then Err(ProgramError(TitleLengthExceeded))
      else if |content| > MAX_CONTENT_LEN then Err(ProgramError(ContentLengthExceeded))
      else if acct.entry.id != id then Err(ProgramError(InvalidJournalEntryId))
      else
        var entry := acct.entry.(title := title, content := content, updatedAt := now);
        Ok(s.(entries := s.entries[address := EntryAccount(EntrySpace(|title|, |content|), entry)]))
  }

  /**
   * `delete_journal_entry`: the entry at the address derived from `index`
   * must exist and be owned by the signer, and is then closed. The `title`
   * argument is only written to the log.
   *
   * The accounts struct declares `#[instruction(id: u64)]` while the handler
   * takes `title: String`, so the framework reads the key index from the
   * first eight bytes of the encoded title; that decoding is not modelled,
   * and the key index is a separate argument here.
   */
  function Delete(s: State, signer: Pubkey, index: u64, title: Bytes): (r: Result<State>)
    ensures r == Err(AccountNotInitialized) <==> EntryAddress(index, signer) !in s.entries
    ensures r == Err(ConstraintHasOne) <==>
      EntryAddress(index, signer) in s.entries && s.entries[EntryAddress(index, signer)].entry.owner != signer
    ensures r.Ok? <==> EntryAccountsOk(s, signer, index)
    ensures r.Ok? ==>
      && r.value.counters == s.counters
      && EntryAddress(index, signer) !in r.value.entries
      && r.value.entries.Keys == s.entries.Keys - {EntryAddress(index, signer)}
      && forall a | a in r.value.entries :: r.value.entries[a] == s.entries[a]
  {
    var address := EntryAddress(index, signer);
    if address !in s.entries then Err(AccountNotInitialized)
    else if s.entries[address].entry.owner != signer then Err(ConstraintHasOne)
    else Ok(s.(entries := s.entries - {address}))
  }

  /** The title passed to delete has no effect on the outcome. */
  lemma DeleteIgnoresTitle(s: State, signer: Pubkey, index: u64, title1: Bytes, title2: Bytes)
    ensures Delete(s, signer, index, title1) == Delete(s, signer, index, title2)
  {
  }

  lemma CreateAtPreservesValid(s: State, seeding: Seeding, signer: Pubkey, title: Bytes, content: Bytes, now: i64, index: nat)
    requires Valid(s, seeding) && signer in s.counters
    requires index + IdOffset(seeding) == s.counters[signer].count + 1
    requires CreateAt(s, signer, title, content, now, index).Ok?
    ensures Valid(CreateAt(s, signer, title, content, now, index).value, seeding)
  {
    var t := CreateAt(s, signer, title, content, now, index).value;
    var address := EntryAddress(index, signer);
    forall a | a in t.entries
      ensures WellFormedAccount(t.entries[a])
      ensures t.entries[a].entry.owner == a.owner
      ensures t.entries[a].entry.id == a.index + IdOffset(seeding)
      ensures a.owner in t.counters
      ensures 1 <= t.entries[a].entry.id <= t.counters[a.owner].count
    {
      if a != address {
        assert a in s.entries && t.entries[a] == s.entries[a];
        assert a.owner in t.counters && t.counters[a.owner].count >= s.counters[a.owner].count by {
          if a.owner != signer {
            assert t.counters[a.owner] == (t.counters - {signer})[a.owner];
          }
        }
      }
    }
  }

  /** A successful create keeps the invariant of the program as written. */
  lemma CreatePreservesValid(s: State, signer: Pubkey, title: Bytes, content: Bytes, now: i64)
    requires Valid(s, AsWritten)
    requires Create(s, signer, title, content, now).Ok?
    ensures Valid(Create(s, signer, title, content, now).value, AsWritten)
  {
    CreateAtPreservesValid(s, AsWritten, signer, title, content, now, s.counters[signer].count);
  }

  /** A successful corrected create keeps the corrected invariant. */
  lemma CreateCorrectedPreservesValid(s: State, signer: Pubkey, title: Bytes, content: Bytes, now: i64)
    requires Valid(s, Corrected)
    requires CreateCorrected(s, signer, title, content, now).Ok?
    ensures Valid(CreateCorrected(s, signer, title, content, now).value, Corrected)
  {
    CreateAtPreservesValid(s, Corrected, signer, title, content, now, s.counters[signer].count + 1);
  }

  /** A successful update keeps the invariant: its new strings passed the length checks. */
  lemma UpdatePreservesValid(s: State, seeding: Seeding, signer: Pubkey, id: u64, title: Bytes, content: Bytes, now: i64)
    requires Valid(s, seeding)
    requires Update(s, signer, id, title, content, now).Ok?
    ensures Valid(Update(s, signer, id, title, content, now).value, seeding)
  {
    var t := Update(s, signer, id, title, content, now).value;
    var address := EntryAddress(id, signer);
    forall a | a in t.entries
      ensures WellFormedAccount(t.entries[a])
      ensures t.entries[a].entry.owner == a.owner
      ensures t.entries[a].entry.id == a.index + IdOffset(seeding)
      ensures a.owner in t.counters
      ensures 1 <= t.entries[a].entry.id <= t.counters[a.owner].count
    {
      if a != address {
        assert t.entries[a] == (t.entries - {address})[a];
      }
    }
  }

  /** A successful delete keeps the invariant. */
  lemma DeletePreservesValid(s: State, seeding: Seeding, signer: Pubkey, index: u64, title: Bytes)
    requires Valid(s, seeding)
    requires Delete(s, signer, index, title).Ok?
    ensures Valid(Delete(s, signer, index, title).value, seeding)
  {
  }

  /**
   * In a reachable state a create never runs into an address that is
   * already in use: every existing entry of the signer has an id the
   * counter has already handed out, which rules out the new address.
   */
  lemma CreateFindsFreshAddress(s: State, signer: Pubkey, title: Bytes, content: Bytes, now: i64)
    requires Valid(s, AsWritten)
    ensures Create(s, signer, title, content, now) != Err(AccountAlreadyInUse)
  {
    if signer in s.counters {
      var address := EntryAddress(s.counters[signer].count, signer);
      if address in s.entries {
        assert false;
      }
    }
  }

  /** Two entries of one owner never share an id. */
  lemma IdsDistinctPerOwner(s: State, seeding: Seeding, a: EntryAddress, b: EntryAddress)
    requires Valid(s, seeding)
    requires a in s.entries && b in s.entries && a.owner == b.owner && a != b
    ensures s.entries[a].entry.id != s.entries[b].entry.id
  {
  }

  /**
   * Deleting an entry does not reset its owner's counter: a later create by
   * that owner gets an id that no entry of the owner had before the delete.
   */
  lemma DeleteThenCreateGivesNewId(s: State, signer: Pubkey, index: u64, oldTitle: Bytes, title: Bytes, content: Bytes, now: i64)
    requires Valid(s, AsWritten)
    requires Delete(s, signer, index, oldTitle).Ok?
    requires Create(Delete(s, signer, index, oldTitle).value, signer, title, content, now).Ok?
    ensures
      var t := Create(Delete(s, signer, index, oldTitle).value, signer, title, content, now).value;
      && t.counters[signer].count == s.counters[signer].count + 1
      && forall a | a in s.entries && a.owner == signer :: s.entries[a].entry.id < t.counters[signer].count
  {
  }
}
