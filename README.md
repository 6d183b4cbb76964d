# Journal program, modelled in Dafny

The journal program is an on-chain program (Rust, Anchor framework). Its owners keep short text entries in it. Each owner has one counter account, `JournalCount { count, owner }`. Each entry is an account `JournalEntry { id, owner, created_at, updated_at, title, content }` at an address derived from the seeds `["journal", index, owner]`. The program has three instructions:

- `create_journal_entry` checks that the title is at most 50 bytes and the content at most 500 bytes. It increments the owner's counter with overflow-checked `u64` addition and fills a new entry, allocated with exactly `8+8+32+8+8+4+len(title)+4+len(content)` bytes. Both timestamps are set to the clock's time.
- `update_journal_entry` looks the entry up by the id it is given. It checks the entry's owner, resizes the account to the new exact size and runs the same length checks. It requires the stored id to equal the given id, then overwrites the title, the content and `updated_at`.
- `delete_journal_entry` closes the entry at the address it is given. Its `title` argument is only logged.

The model has five modules:

- `JournalTypes` (journal_types.dfy) holds the accounts, the error codes, the entry address `(index, owner)` and the size formula.
- `JournalState` (journal_state.dfy) gives each instruction as a function from the whole state (counters and entries) to `Ok(new state)` or `Err(error)`. A failed instruction changes nothing. The module also defines the invariant `Valid` that all reachable states keep.
- `JournalRuns` (journal_runs.dfy) runs sequences of instructions. It proves that counters count successful creates and that the n-th create gets id n.
- `JournalFindings` (journal_findings.dfy) shows that an entry made by create can never be updated, and proves that the corrected create fixes this.
- `JournalProgram` (journal_program.dfy) is the class `Journal`. It holds the two account maps, which its three instruction methods update in place. Each method is proved to agree with the matching function of `JournalState` and to keep `Valid`.

Account-validation failures are modelled as error values, not as preconditions. The framework checks these constraints before the handler runs: an account that is missing, `init` on an address already in use, and `has_one = owner` on a stored owner that is not the signer. The model checks them in that order, which is the order in which the framework deserialises, initialises and then access-checks accounts. Then come the handler's own checks, in source order. Strings are their UTF-8 bytes, because Rust's `String::len` counts bytes. `now` is a parameter.

The create handler increments the counter. The new entry's address, however, is derived from the counter during account validation, which runs first. So an entry's key index is its id minus one. The model states this in `JournalState.Create`. Update and delete derive the address from the number they are given, so this choice matters: see "## Findings".

Three consequences of following the code, which a reader might not expect:
- After a first create, an update with id 1 does not succeed (see "## Findings").
- Nothing in the code makes `updated_at` later than its previous value, so no such property is claimed.
- Delete reads the key index from the instruction's arguments, not from a separate `id`.

## Model

| member | source | states |
|---|---|---|
| JournalTypes.WellFormedAccountSpace | programs/journal/src/lib.rs:67 | An entry within the limits is allocated exactly 72 + len(title) + len(content) bytes, so between 72 and 622. |
| JournalState.CreateAt | programs/journal/src/lib.rs:56-71 | Create at a given key index fails with AccountAlreadyInUse iff the address holds an entry. Otherwise it fails with ConstraintHasOne iff the counter's owner is not the signer. Then TitleLengthExceeded iff len(title) > 50, then ContentLengthExceeded iff len(content) > 500, then InvalidJournalEntryId iff the count is 2^64-1. On success the signer's counter goes up by exactly 1 and no other counter changes. A new entry appears at the unused address with id = new count, owner = signer, the given strings, created_at = updated_at = now and the exact size. No other entry changes. |
| JournalState.Create | programs/journal/src/lib.rs:9-29 | Fails with AccountNotInitialized iff the signer has no counter. Otherwise it is CreateAt at the counter value before the increment, so the new entry sits at key index count and has id count + 1. |
| JournalState.CreateCorrected | programs/journal/src/lib.rs:68 | Corrected create: CreateAt at the incremented count, so the new entry's key index equals its id. |
| JournalState.Update | programs/journal/src/lib.rs:31-46 | Fails with AccountNotInitialized iff there is no entry at (id, signer). Then ConstraintHasOne iff its owner is not the signer. Then the two length errors, as in create. Then InvalidJournalEntryId iff the stored id differs from id. On success only title, content, updated_at and the size (the exact new size) of that entry change. Its id, owner and created_at, every other entry and all counters are unchanged. |
| JournalState.Delete | programs/journal/src/lib.rs:95-109 | Fails with AccountNotInitialized iff there is no entry at (index, signer), and with ConstraintHasOne iff its owner is not the signer. Otherwise it removes exactly that entry, leaving counters and all other entries unchanged. |
| JournalState.DeleteIgnoresTitle | programs/journal/src/lib.rs:48-51 | The title passed to delete has no effect on the outcome. |
| JournalState.CreateAtPreservesValid | programs/journal/src/lib.rs:64-71 | A create whose key index is the new id minus the seeding's offset keeps the invariant: length limits, exact size, owner, id tied to address, id already handed out. |
| JournalState.CreatePreservesValid | programs/journal/src/lib.rs:9-29 | A successful create keeps the invariant of the program as written. |
| JournalState.CreateCorrectedPreservesValid | programs/journal/src/lib.rs:68 | The corrected create keeps the corrected invariant, in which key index = id. |
| JournalState.UpdatePreservesValid | programs/journal/src/lib.rs:31-46 | A successful update keeps the invariant: its new strings passed the length checks, and it is resized exactly. |
| JournalState.DeletePreservesValid | programs/journal/src/lib.rs:97-109 | A successful delete keeps the invariant. |
| JournalState.CreateFindsFreshAddress | programs/journal/src/lib.rs:64-68 | In a reachable state, create never fails with AccountAlreadyInUse: the address it derives is always unused. |
| JournalState.IdsDistinctPerOwner | programs/journal/src/lib.rs:111-119 | In a reachable state, two entries of one owner never share an id. |
| JournalState.DeleteThenCreateGivesNewId | programs/journal/src/lib.rs:13-20 | After a delete, the owner's next create raises the unchanged counter by one. The new id is larger than every id the owner's entries had before the delete. |
| JournalRuns.CommitCounter | programs/journal/src/lib.rs:13-16 | One instruction raises an owner's counter by one exactly when it is a successful create by that owner, and leaves it unchanged otherwise. |
| JournalRuns.CommitPreservesValid | programs/journal/src/lib.rs:9-51 | Every instruction, successful or not, keeps the invariant. |
| JournalRuns.RunPreservesValid | programs/journal/src/lib.rs:10-11 | Every state reached by any sequence of instructions keeps the invariant. So every stored entry has title ≤ 50 and content ≤ 500 bytes and the exact size. |
| JournalRuns.CounterCountsCreates | programs/journal/src/lib.rs:14 | After any sequence of instructions, an owner's count is its initial count plus the number of that owner's successful creates. |
| JournalRuns.NthCreateGetsNextId | programs/journal/src/lib.rs:14-20 | The n-th successful create by an owner with initial count c stores id c + n at key index c + n - 1, and leaves the counter at c + n. |
| JournalFindings.UpdateNeverSucceeds | programs/journal/src/lib.rs:37 | In every reachable state, update fails. With valid lengths it fails either with AccountNotInitialized or with InvalidJournalEntryId. |
| JournalFindings.FirstEntryCannotBeUpdated | programs/journal/src/lib.rs:83 | For a fresh owner, create stores id 1 at key index 0. Update with id 1 then finds no account, and update with id 0 fails with InvalidJournalEntryId. |
| JournalFindings.UpdateAfterCorrectedCreate | programs/journal/src/lib.rs:41-43 | After the corrected create, updating with the new id succeeds whenever the new strings fit. It keeps id and created_at and stores the new title. |
| JournalFindings.CorrectedLifecycle | programs/journal/src/lib.rs:100-102 | With the corrected create, a fresh owner can create id 1, update it to the expected record and delete it, leaving no entries. |
| JournalProgram.Journal.constructor | programs/journal/src/lib.rs:121-126 | Starts from externally provided counters and no entries, a state that satisfies the invariant. |
| JournalProgram.Journal.CreateJournalEntry | programs/journal/src/lib.rs:9-29 | Returns the outcome of Create on the old accounts and commits its new state only on success. A failure leaves all accounts unchanged. Keeps the invariant. |
| JournalProgram.Journal.UpdateJournalEntry | programs/journal/src/lib.rs:31-46 | Returns the outcome of Update on the old accounts and commits its new state only on success. A failure leaves all accounts unchanged. Keeps the invariant. |
| JournalProgram.Journal.DeleteJournalEntry | programs/journal/src/lib.rs:48-51 | Returns the outcome of Delete on the old accounts and commits its new state only on success. A failure leaves all accounts unchanged. Keeps the invariant. |

## Left out

- Lamports, rent, `payer` and the refund on `close` are not modelled. A failure to fund an allocation or a resize comes from the runtime, not from this program.
- Account bytes are not modelled: the 8-byte discriminator, Borsh encoding with length prefixes, and the zero-fill of a grown account (`realloc::zero`). Only the allocated size is kept.
- Address derivation is abstract. The pair `(index, owner)` stands for the address; seed hashing and bump search are not modelled.
- `msg!` logging and `declare_id!` are not modelled.
- `Clock::get()` is replaced by the `now` parameter. Its failure path is not modelled.
- Delete's instruction arguments are not decoded. `#[instruction(id: u64)]` reads the key index from the first eight bytes of the encoded `title`. The model takes the key index as a separate argument.
- No instruction creates counters. The class constructor takes them as given.
- Runtime limits are not modelled: the transaction size, and the largest resize allowed in one instruction. They can reject an over-long title or content before the handler's own check.
- Other account checks are not modelled: the account owner program, the signer and the `system_program` account. The signer is taken as authenticated.
- Concurrency is not modelled. Each instruction is one atomic step, and a failed instruction leaves every account as it was.

## Findings

| source | as written | input that shows it | evidently intended | confidence | as-written member | corrected member |
|---|---|---|---|---|---|---|
| programs/journal/src/lib.rs:68 | Create derives the new entry's address from the counter before the increment (line 14) but stores the incremented counter as the id (line 20). Update derives the address from the given id (line 83) and requires the stored id to equal it (line 37). So no entry made by create can ever be updated. | A fresh owner (count 0) creates "Hi"/"World": the entry gets id 1 at key index 0. Update with id 1 fails with AccountNotInitialized, and update with id 0 fails with InvalidJournalEntryId. | The address is derived from the new id (count + 1), so update and delete find an entry by its id. | high; not executed | JournalFindings.FirstEntryCannotBeUpdated | JournalFindings.UpdateAfterCorrectedCreate |

`JournalFindings.UpdateNeverSucceeds` generalises the as-written half to every reachable state. The corrected create, `JournalState.CreateCorrected`, shares all its checks with the code through `CreateAt` and differs only in the key index. It keeps the corrected invariant (`CreateCorrectedPreservesValid`). The class `Journal` keeps the code's own key index, because it models the program as deployed.
