/**
 * The create instruction stores a new entry at key index `count` (the
 * counter before the increment) with id `count + 1`; update derives the key
 * from the id it is given and then requires the stored id to equal it. No
 * entry a create made can therefore pass both checks.
 */
module JournalFindings {
  import opened JournalTypes
  import opened JournalState

  /**
   * As written, update never succeeds in a reachable state: the entry at
   * key index `id` carries id `id + 1`.
   */
  lemma UpdateNeverSucceeds(s: State, signer: Pubkey, id: u64, title: Bytes, content: Bytes, now: i64)
    requires Valid(s, AsWritten)
    ensures Update(s, signer, id, title, content, now).Err?
    ensures LengthsOk(title, content) ==>
      Update(s, signer, id, title, content, now) in
        {Err(AccountNotInitialized), Err(ProgramError(InvalidJournalEntryId))}
  {
    var address := EntryAddress(id, signer);
    if address in s.entries {
      assert s.entries[address].entry.id == id + 1;
    }
  }

  /** An owner key used by the scenarios below. */
  function Alice(): Pubkey
  {
    seq(32, _ => 0xA1 as bv8)
  }

  /** A fresh owner: a counter at zero and no entries. */
  function Fresh(): (s: State)
    ensures Valid(s, AsWritten) && Valid(s, Corrected)
  {
    State(map[Alice() := JournalCount(0, Alice())], map[])
  }

  const HI: Bytes := [0x48, 0x69]
  const WORLD: Bytes := [0x57, 0x6F, 0x72, 0x6C, 0x64]

  /**
   * The first entry of a fresh owner has id 1 and sits at key index 0, so
   * updating it by id 1 finds no account and updating it by key index 0
   * fails the stored-id check.
   */
  lemma FirstEntryCannotBeUpdated(t1: i64, t2: i64)
    ensures Create(Fresh(), Alice(), HI, WORLD, t1).Ok?
    ensures
      var s := Create(Fresh(), Alice(), HI, WORLD, t1).value;
      && s.entries[EntryAddress(0, Alice())].entry.id == 1
      && Update(s, Alice(), 1, HI, WORLD, t2) == Err(AccountNotInitialized)
      && Update(s, Alice(), 0, HI, WORLD, t2) == Err(ProgramError(InvalidJournalEntryId))
  {
    var s := Create(Fresh(), Alice(), HI, WORLD, t1).value;
    assert EntryAddress(1, Alice()) !in s.entries;
  }

  /**
   * With the corrected create, an entry can be updated by the id it was
   * given: the update succeeds whenever the new strings fit.
   */
  lemma UpdateAfterCorrectedCreate(
    s: State, signer: Pubkey, title: Bytes, content: Bytes, now: i64,
    newTitle: Bytes, newContent: Bytes, later: i64)
    requires CreateCorrected(s, signer, title, content, now).Ok?
    requires LengthsOk(newTitle, newContent)
    ensures
      var t := CreateCorrected(s, signer, title, content, now).value;
      var id := t.counters[signer].count;
      var r := Update(t, signer, id, newTitle, newContent, later);
      && r.Ok?
      && r.value.entries[EntryAddress(id, signer)].entry.id == id
      && r.value.entries[EntryAddress(id, signer)].entry.createdAt == now
      && r.value.entries[EntryAddress(id, signer)].entry.title == newTitle
  {
    var t := CreateCorrected(s, signer, title, content, now).value;
    var id := t.counters[signer].count;
    assert CreatedEntry(s, t, signer, title, content, now, id);
  }

  /**
   * The scenario of a fresh owner under the corrected create: create,
   * update by id 1, then delete at key index 1 leaves no entry behind.
   */
  lemma CorrectedLifecycle(t1: i64, t2: i64)
    ensures CreateCorrected(Fresh(), Alice(), HI, WORLD, t1).Ok?
    ensures
      var s1 := CreateCorrected(Fresh(), Alice(), HI, WORLD, t1).value;
      var s2 := Update(s1, Alice(), 1, WORLD, HI, t2);
      && s2.Ok?
      && s2.value.entries[EntryAddress(1, Alice())].entry == JournalEntry(1, Alice(), t1, t2, WORLD, HI)
      && Delete(s2.value, Alice(), 1, []).Ok?
      && Delete(s2.value, Alice(), 1, []).value.entries == map[]
  {
    var s1 := CreateCorrected(Fresh(), Alice(), HI, WORLD, t1).value;
    assert s1.counters[Alice()].count == 1;
    UpdateAfterCorrectedCreate(Fresh(), Alice(), HI, WORLD, t1, WORLD, HI, t2);
  }
}
