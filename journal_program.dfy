/**
 * The journal program as the accounts it keeps: one counter per owner and
 * the entry accounts, updated in place by the three instructions. Each
 * method is one atomic instruction and is proved to do what the functions
 * of JournalState say.
 */
module JournalProgram {
  import opened JournalTypes
  import opened JournalState

  class Journal {
    var counters: map<Pubkey, JournalCount>
    var entries: map<EntryAddress, EntryAccount>

    /** The accounts as one value. */
    function Accounts(): State
      reads this
    {
      State(counters, entries)
    }

    ghost predicate Valid()
      reads this
    {
      JournalState.Valid(Accounts(), AsWritten)
    }

    /**
     * No instruction of the program creates a counter, so the counters are
     * given from outside; there are no entries yet.
     */
    constructor (counters: map<Pubkey, JournalCount>)
      ensures this.counters == counters && entries == map[]
      ensures Valid()
    {
      this.counters := counters;
      entries := map[];
    }

    /**
     * `create_journal_entry`. The framework first finds the signer's
     * counter, allocates the entry at the address derived from the
     * counter's current value and checks the counter's owner; the handler
     * then checks the lengths, increments the counter and fills the entry.
     */
    method CreateJournalEntry(signer: Pubkey, title: Bytes, content: Bytes, now: i64) returns (r: Result<()>)
      modifies this
      ensures r.Ok? <==> Create(old(Accounts()), signer, title, content, now).Ok?
      ensures r.Ok? ==> Accounts() == Create(old(Accounts()), signer, title, content, now).value
      ensures r.Err? ==> r.error == Create(old(Accounts()), signer, title, content, now).error
      ensures r.Err? ==> Accounts() == old(Accounts())
      ensures old(Valid()) ==> Valid()
    {
      if signer !in counters {
        return Err(AccountNotInitialized);
      }
      var address := EntryAddress(counters[signer].count, signer);
      if address in entries {
        return Err(AccountAlreadyInUse);
      }
      if counters[signer].owner != signer {
        return Err(ConstraintHasOne);
      }
      if |title| > MAX_TITLE_LEN {
        return Err(ProgramError(TitleLengthExceeded));
      }
      if |content| > MAX_CONTENT_LEN {
        return Err(ProgramError(ContentLengthExceeded));
      }
      var next := CheckedAdd(counters[signer].count, 1);
      if next.None? {
        return Err(ProgramError(InvalidJournalEntryId));
      }
      ghost var before := Accounts();
      counters := counters[signer := JournalCount(next.value, signer)];
      var entry := JournalEntry(next.value, signer, now, now, title, content);
      entries := entries[address := EntryAccount(EntrySpace(|title|, |content|), entry)];
      if JournalState.Valid(before, AsWritten) {
        CreatePreservesValid(before, signer, title, content, now);
      }
      return Ok(());
    }

    /**
     * `update_journal_entry`. The framework finds the entry at the address
     * derived from `id`, checks its owner and resizes it; the handler checks
     * the lengths and the stored id, then overwrites the title, the content
     * and the update time.
     */
    method UpdateJournalEntry(signer: Pubkey, id: u64, title: Bytes, content: Bytes, now: i64) returns (r: Result<()>)
      modifies this
      ensures r.Ok? <==> Update(old(Accounts()), signer, id, title, content, now).Ok?
      ensures r.Ok? ==> Accounts() == Update(old(Accounts()), signer, id, title, content, now).value
      ensures r.Err? ==> r.error == Update(old(Accounts()), signer, id, title, content, now).error
      ensures r.Err? ==> Accounts() == old(Accounts())
      ensures old(Valid()) ==> Valid()
    {
      var address := EntryAddress(id, signer);
      if address !in entries {
        return Err(AccountNotInitialized);
      }
      var entry := entries[address].entry;
      if entry.owner != signer {
        return Err(ConstraintHasOne);
      }
      if |title| > MAX_TITLE_LEN {
        return Err(ProgramError(TitleLengthExceeded));
      }
      if |content| > MAX_CONTENT_LEN {
        return Err(ProgramError(ContentLengthExceeded));
      }
      if entry.id != id {
        return Err(ProgramError(InvalidJournalEntryId));
      }
      ghost var before := Accounts();
      entry := entry.(title := title, content := content, updatedAt := now);
      entries := entries[address := EntryAccount(EntrySpace(|title|, |content|), entry)];
      if JournalState.Valid(before, AsWritten) {
        UpdatePreservesValid(before, AsWritten, signer, id, title, content, now);
      }
      return Ok(());
    }

    /**
     * `delete_journal_entry`. The framework finds the entry at the address
     * derived from `index`, checks its owner and closes it; the handler only
     * logs `title`, which therefore plays no part here.
     */
    method DeleteJournalEntry(signer: Pubkey, index: u64, title: Bytes) returns (r: Result<()>)
      modifies this
      ensures r.Ok? <==> Delete(old(Accounts()), signer, index, title).Ok?
      ensures r.Ok? ==> Accounts() == Delete(old(Accounts()), signer, index, title).value
      ensures r.Err? ==> r.error == Delete(old(Accounts()), signer, index, title).error
      ensures r.Err? ==> Accounts() == old(Accounts())
      ensures old(Valid()) ==> Valid()
    {
      var address := EntryAddress(index, signer);
      if address !in entries {
        return Err(AccountNotInitialized);
      }
      if entries[address].entry.owner != signer {
        return Err(ConstraintHasOne);
      }
      ghost var before := Accounts();
      entries := entries - {address};
      if JournalState.Valid(before, AsWritten) {
        DeletePreservesValid(before, AsWritten, signer, index, title);
      }
      return Ok(());
    }
  }

  /**
   * A client of the class: after a delete the entry is gone, the counter
   * still stands, and the next create gets a new id.
   */
  method DeleteThenCreate(journal: Journal, signer: Pubkey, index: u64)
    requires journal.Valid()
    modifies journal
  {
    var count := if signer in journal.counters then journal.counters[signer].count else 0;
    var r := journal.DeleteJournalEntry(signer, index, []);
    if r.Ok? {
      assert EntryAddress(index, signer) !in journal.entries;
      assert signer in journal.counters && journal.counters[signer].count == count;
      var c := journal.CreateJournalEntry(signer, [], [], 0);
      if c.Ok? {
        assert journal.entries[EntryAddress(count, signer)].entry.id == count + 1;
      }
    }
  }
}
