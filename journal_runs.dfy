/**
 * Sequences of instructions, each one atomic: a failed instruction is
 * reverted and the next one starts from the state before it.
 */
module JournalRuns {
  import opened JournalTypes
  import opened JournalState

  datatype Instruction =
    | CreateEntry(signer: Pubkey, title: Bytes, content: Bytes, now: i64)
    | UpdateEntry(signer: Pubkey, id: u64, title: Bytes, content: Bytes, now: i64)
    | DeleteEntry(signer: Pubkey, index: u64, title: Bytes)

  function Execute(s: State, ins: Instruction): Result<State>
  {
    match ins
    case CreateEntry(signer, title, content, now) => Create(s, signer, title, content, now)
    case UpdateEntry(signer, id, title, content, now) => Update(s, signer, id, title, content, now)
    case DeleteEntry(signer, index, title) => Delete(s, signer, index, title)
  }

  /** The state after one instruction: its new state, or the old one if it failed. */
  function Commit(s: State, ins: Instruction): State
  {
    var r := Execute(s, ins);
    if r.Ok? then r.value else s
  }

  /** The state after running `ops` in order from `s`. */
  function Run(s: State, ops: seq<Instruction>): State
    decreases |ops|
  {
    if ops == [] then s
    else Commit(Run(s, ops[..|ops| - 1]), ops[|ops| - 1])
  }

  /** Whether `ins`, run in state `s`, is a create by `owner` that succeeds. */
  predicate CreatesFor(s: State, ins: Instruction, owner: Pubkey)
  {
    ins.CreateEntry? && ins.signer == owner && Execute(s, ins).Ok?
  }

  /** How many instructions of `ops`, run from `s`, are successful creates by `owner`. */
  function CreatesBy(s: State, ops: seq<Instruction>, owner: Pubkey): nat
    decreases |ops|
  {
    if ops == [] then 0
    else
      var prefix := ops[..|ops| - 1];
      CreatesBy(s, prefix, owner) + if CreatesFor(Run(s, prefix), ops[|ops| - 1], owner) then 1 else 0
  }

  /** One instruction moves the counter of `owner` by one exactly when it is a successful create by `owner`. */
  lemma CommitCounter(s: State, ins: Instruction, owner: Pubkey)
    requires owner in s.counters
    ensures owner in Commit(s, ins).counters
    ensures Commit(s, ins).counters[owner].count ==
      s.counters[owner].count + if CreatesFor(s, ins, owner) then 1 else 0
  {
    var t := Commit(s, ins);
    if ins.CreateEntry? && Execute(s, ins).Ok? && ins.signer != owner {
      assert t.counters[owner] == (t.counters - {ins.signer})[owner];
    }
  }

  /** Every instruction keeps the invariant of the program as written. */
  lemma CommitPreservesValid(s: State, ins: Instruction)
    requires Valid(s, AsWritten)
    ensures Valid(Commit(s, ins), AsWritten)
  {
    if Execute(s, ins).Ok? {
      match ins
      case CreateEntry(signer, title, content, now) =>
        CreatePreservesValid(s, signer, title, content, now);
      case UpdateEntry(signer, id, title, content, now) =>
        UpdatePreservesValid(s, AsWritten, signer, id, title, content, now);
      case DeleteEntry(signer, index, title) =>
        DeletePreservesValid(s, AsWritten, signer, index, title);
    }
  }

  /**
   * Every state reached by any sequence of instructions satisfies the
   * invariant: all stored entries respect the length limits, are sized
   * exactly, and carry distinct ids per owner.
   */
  lemma {:induction false} RunPreservesValid(s: State, ops: seq<Instruction>)
    requires Valid(s, AsWritten)
    ensures Valid(Run(s, ops), AsWritten)
    decreases |ops|
  {
    if ops != [] {
      RunPreservesValid(s, ops[..|ops| - 1]);
      CommitPreservesValid(Run(s, ops[..|ops| - 1]), ops[|ops| - 1]);
    }
  }

  /**
   * An owner's counter only ever moves through that owner's successful
   * creates, by one each: updates, deletes, failed instructions and other
   * owners' creates leave it alone, and nothing resets it.
   */
  lemma {:induction false} CounterCountsCreates(s: State, ops: seq<Instruction>, owner: Pubkey)
    requires owner in s.counters
    ensures owner in Run(s, ops).counters
    ensures Run(s, ops).counters[owner].count == s.counters[owner].count + CreatesBy(s, ops, owner)
    decreases |ops|
  {
    if ops != [] {
      var prefix := ops[..|ops| - 1];
      CounterCountsCreates(s, prefix, owner);
      CommitCounter(Run(s, prefix), ops[|ops| - 1], owner);
    }
  }

  /**
   * The n-th successful create by an owner, counting from a counter at
   * `c`, stores an entry with id `c + n` at key index `c + n - 1`; from a
   * fresh counter (`c == 0`) the n-th entry gets id n.
   */
  lemma NthCreateGetsNextId(s: State, ops: seq<Instruction>, owner: Pubkey, k: nat)
    requires owner in s.counters
    requires k < |ops| && CreatesFor(Run(s, ops[..k]), ops[k], owner)
    ensures
      var n := CreatesBy(s, ops[..k + 1], owner);
      var t := Run(s, ops[..k + 1]);
      && n == CreatesBy(s, ops[..k], owner) + 1
      && EntryAddress(s.counters[owner].count + n - 1, owner) in t.entries
      && t.entries[EntryAddress(s.counters[owner].count + n - 1, owner)].entry.id == s.counters[owner].count + n
      && owner in t.counters
      && t.counters[owner].count == s.counters[owner].count + n
  {
    var prefix := ops[..k];
    assert ops[..k + 1][..k] == prefix;
    CounterCountsCreates(s, prefix, owner);
    CounterCountsCreates(s, ops[..k + 1], owner);
  }
}
