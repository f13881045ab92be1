/**
 The decisions both checkpoint backends share, and the store they are both meant to implement:
 retained checkpoints by identity, and one committed status.
 */
module Transactions {
  import opened Wrappers
  import opened Checkpoints

  const MAX_BATCH_BYTES: nat := 64 * 1024 * 1024
  const MAX_BATCH_CHECKPOINTS: nat := 1024

  datatype Status = Status(sequence: U64, schema: U32, schemaSequence: U64)

  datatype StorageError =
    | Invalid
    | Conflict
    | Stale(expectedSequence: U64, actualSequence: U64)
    | SchemaMismatch(expectedSchema: U32, actualSchema: U32)
    | Corrupt
    | ChecksumMismatch(expectedChecksum: nat, actualChecksum: nat)
    | Database

  datatype AppendOutcome = Committed | Replayed

  datatype CompactionOutcome = CompactionOutcome(removed: nat, retained: nat, sequence: U64)

  // ---------------------------------------------------------------- batches

  ghost function PayloadBytes(batch: seq<Checkpoint>): nat {
    if batch == [] then 0 else PayloadBytes(batch[..|batch| - 1]) + |batch[|batch| - 1].payload|
  }

  /** The first `n` checkpoints are valid, increase from `expected`, and have distinct identities. */
  ghost predicate Increasing(expected: U64, batch: seq<Checkpoint>, n: nat)
    requires n <= |batch|
  {
    && (forall i | 0 <= i < n :: ValidCheckpoint(batch[i]) && expected < batch[i].sequence)
    && (forall i, j | 0 <= i < j < n :: batch[i].sequence < batch[j].sequence && batch[i].id != batch[j].id)
  }

  ghost predicate GoodBatch(expected: U64, batch: seq<Checkpoint>) {
    && 1 <= |batch| <= MAX_BATCH_CHECKPOINTS
    && Increasing(expected, batch, |batch|)
    && PayloadBytes(batch) <= MAX_BATCH_BYTES
  }

  ghost function Ids(batch: seq<Checkpoint>, n: nat): set<Bytes>
    requires n <= |batch|
  {
    set i | 0 <= i < n :: batch[i].id
  }

  ghost function Reached(expected: U64, batch: seq<Checkpoint>, n: nat): U64
    requires n <= |batch|
  {
    if n == 0 then expected else batch[n - 1].sequence
  }

  lemma IncreasingStep(expected: U64, batch: seq<Checkpoint>, n: nat)
    requires n < |batch| && Increasing(expected, batch, n)
    ensures Increasing(expected, batch, n + 1) <==>
            ValidCheckpoint(batch[n]) && Reached(expected, batch, n) < batch[n].sequence &&
                batch[n].id !in Ids(batch, n)
    ensures Ids(batch, n + 1) == Ids(batch, n) + {batch[n].id}
    ensures Increasing(expected, batch, |batch|) ==> Increasing(expected, batch, n + 1)
  {
    if Increasing(expected, batch, n + 1) && n > 0 {
      assert batch[n - 1].sequence < batch[n].sequence;
    }
  }

  lemma {:induction false} PayloadPrefix(batch: seq<Checkpoint>, n: nat)
    requires n <= |batch|
    ensures PayloadBytes(batch[..n]) <= PayloadBytes(batch)
    decreases |batch| - n
  {
    if n == |batch| {
      assert batch[..n] == batch;
    } else {
      PayloadPrefix(batch, n + 1);
      assert batch[..n + 1][..n] == batch[..n];
    }
  }

  /** `validate_batch`: limits, increasing sequences, distinct identities, total size. */
  method ValidateBatch(expected: U64, batch: seq<Checkpoint>) returns (ok: bool)
    ensures ok <==> GoodBatch(expected, batch)
  {
    if |batch| == 0 || |batch| > MAX_BATCH_CHECKPOINTS {
      return false;
    }
    var previous := expected;
    var ids: set<Bytes> := {};
    var bytes := 0;
    assert batch[..0] == [] && batch[..|batch|] == batch;
    assert Ids(batch, 0) == {} && Increasing(expected, batch, 0);
    for n := 0 to |batch|
      invariant Increasing(expected, batch, n) && previous == Reached(expected, batch, n) && ids == Ids(batch, n)
      invariant bytes == PayloadBytes(batch[..n]) <= MAX_BATCH_BYTES
    {
      var checkpoint := batch[n];
      IncreasingStep(expected, batch, n);
      hide Increasing, Ids, ValidCheckpoint;
      if !ValidCheckpoint(checkpoint) {
        return false;
      }
      if checkpoint.sequence <= previous || checkpoint.id in ids {
        return false;
      }
      previous := checkpoint.sequence;
      ids := ids + {checkpoint.id};
      bytes := bytes + |checkpoint.payload|;
      assert batch[..n + 1][..n] == batch[..n];
      if bytes > MAX_BATCH_BYTES {
        PayloadPrefix(batch, n + 1);
        return false;
      }
    }
    ok := true;
  }

  // ---------------------------------------------------------------- append decisions

  /** What a backend knows of a checkpoint: nothing, the same, or something else under its identity. */
  type Known = Result<Option<bool>, StorageError>

  /** The first error met while looking the batch up, a differing checkpoint being a conflict. */
  ghost function FirstRefusal(batch: seq<Checkpoint>, known: Checkpoint -> Known, i: nat): Option<StorageError>
    decreases |batch| - i
  {
    if i >= |batch| then None
    else match known(batch[i])
         case Failure(error) => Some(error)
         case Success(Some(false)) => Some(Conflict)
         case _ => FirstRefusal(batch, known, i + 1)
  }

  ghost function CountKnown(batch: seq<Checkpoint>, known: Checkpoint -> Known, n: nat): nat
    requires n <= |batch|
  {
    if n == 0 then 0
    else CountKnown(batch, known, n - 1) + if known(batch[n - 1]) == Success(Some(true)) then 1 else 0
  }

  ghost function FirstMismatch(batch: seq<Checkpoint>, schema: U32, i: nat): Option<StorageError>
    decreases |batch| - i
  {
    if i >= |batch| then None
    else if batch[i].schema != schema then Some(SchemaMismatch(batch[i].schema, schema))
    else FirstMismatch(batch, schema, i + 1)
  }

  /** Replay, conflict, compare-and-swap and schema, in this order. */
  ghost function Decision(status: Status, expected: U64, batch: seq<Checkpoint>, known: Checkpoint -> Known)
    : Result<AppendOutcome, StorageError>
  {
    var refusal, retained := FirstRefusal(batch, known, 0), CountKnown(batch, known, |batch|);
    var mismatch := FirstMismatch(batch, status.schema, 0);
    if refusal.Some? then Failure(refusal.value)
    else if retained == |batch| then Success(Replayed)
    else if retained != 0 then Failure(Conflict)
    else if status.sequence != expected then Failure(Stale(expected, status.sequence))
    else if mismatch.Some? then Failure(mismatch.value)
    else Success(Committed)
  }

  /** `validate_append`. */
  method ValidateAppend(status: Status, expected: U64, batch: seq<Checkpoint>, known: Checkpoint -> Known)
    returns (r: Result<AppendOutcome, StorageError>)
    ensures r == Decision(status, expected, batch, known)
  {
    var retained := 0;
    for i := 0 to |batch|
      invariant FirstRefusal(batch, known, 0) == FirstRefusal(batch, known, i)
      invariant retained == CountKnown(batch, known, i)
    {
      var found := known(batch[i]);
      match found {
        case Failure(error) => return Failure(error);
        case Success(None) =>
        case Success(Some(same)) =>
          if !same {
            return Failure(Conflict);
          }
          retained := retained + 1;
      }
    }
    if retained == |batch| {
      return Success(Replayed);
    }
    if retained != 0 {
      return Failure(Conflict);
    }
    if status.sequence != expected {
      return Failure(Stale(expected, status.sequence));
    }
    for i := 0 to |batch|
      invariant FirstMismatch(batch, status.schema, 0) == FirstMismatch(batch, status.schema, i)
    {
      if batch[i].schema != status.schema {
        return Failure(SchemaMismatch(batch[i].schema, status.schema));
      }
    }
    r := Success(Committed);
  }

  /** `validate_migration`: the versions must be nonzero and increase, and match the status. */
  function Migration(status: Status, expected: U32, next: U32): (r: Result<Status, StorageError>)
    ensures r.Success? <==> 0 < expected < next && status.schema == expected
    ensures r.Success? ==> r.value.schema == next && r.value.schemaSequence == r.value.sequence == status.sequence
    ensures r == Failure(Invalid) <==> expected == 0 || next <= expected
    ensures r.Failure? && r.error != Invalid ==> r.error == SchemaMismatch(expected, status.schema)
  {
    if expected == 0 || next <= expected then Failure(Invalid)
    else if status.schema != expected then Failure(SchemaMismatch(expected, status.schema))
    else Success(Status(status.sequence, next, status.sequence))
  }

  // ---------------------------------------------------------------- the store both backends implement

  type Retained = map<Bytes, Checkpoint>

  datatype Store = Store(checkpoints: Retained, status: Status)

  const EMPTY := Store(map[], Status(0, 1, 0))

  /** What every reachable store satisfies. */
  ghost predicate WellFormed(s: Store) {
    && (forall id | id in s.checkpoints ::
          s.checkpoints[id].id == id && ValidCheckpoint(s.checkpoints[id]) &&
          s.checkpoints[id].sequence <= s.status.sequence)
    && (forall a, b | a in s.checkpoints && b in s.checkpoints && a != b ::
          s.checkpoints[a].sequence != s.checkpoints[b].sequence)
    && s.status.sequence <= I64_MAX && s.status.schema != 0
    && s.status.schemaSequence <= s.status.sequence
  }

  function Knows(checkpoints: Retained): Checkpoint -> Known {
    (c: Checkpoint) => Success(if c.id in checkpoints then Some(checkpoints[c.id] == c) else None)
  }

  ghost function Inserted(checkpoints: Retained, batch: seq<Checkpoint>): Retained {
    if batch == [] then checkpoints
    else
      var last := batch[|batch| - 1];
      Inserted(checkpoints, batch[..|batch| - 1])[last.id := last]
  }

  ghost function KeptFrom(checkpoints: Retained, boundary: nat): Retained {
    map id | id in checkpoints && checkpoints[id].sequence >= boundary :: checkpoints[id]
  }

  /** A bound on retained bytes and checkpoints; the durable store has none. */
  datatype Limits = Limits(bytes: nat, checkpoints: nat)

  ghost function Weight(c: Checkpoint): nat {
    |c.id| + |c.payload|
  }

  ghost function BatchWeight(batch: seq<Checkpoint>): nat {
    if batch == [] then 0 else BatchWeight(batch[..|batch| - 1]) + Weight(batch[|batch| - 1])
  }

  /** Identity and payload bytes of everything retained. */
  ghost function Size(checkpoints: Retained): nat {
    if checkpoints.Keys == {} then 0
    else
      var id :| id in checkpoints;
      Weight(checkpoints[id]) + Size(checkpoints - {id})
  }

  lemma {:induction false} SizeWithout(checkpoints: Retained, id: Bytes)
    requires id in checkpoints
    ensures Size(checkpoints) == Weight(checkpoints[id]) + Size(checkpoints - {id})
    decreases |checkpoints|
  {
    var pick :| pick in checkpoints && Size(checkpoints) == Weight(checkpoints[pick]) + Size(checkpoints - {pick});
    if pick != id {
      SizeWithout(checkpoints - {pick}, id);
      SizeWithout(checkpoints - {id}, pick);
      assert checkpoints - {pick} - {id} == checkpoints - {id} - {pick};
    }
  }

  lemma SizeWith(checkpoints: Retained, c: Checkpoint)
    requires c.id !in checkpoints
    ensures Size(checkpoints[c.id := c]) == Size(checkpoints) + Weight(c)
  {
    SizeWithout(checkpoints[c.id := c], c.id);
    assert checkpoints[c.id := c] - {c.id} == checkpoints;
  }

  ghost predicate Fits(limits: Option<Limits>, checkpoints: Retained, batch: seq<Checkpoint>) {
    limits.Some? ==>
      Size(checkpoints) + BatchWeight(batch) <= limits.value.bytes &&
      |checkpoints| + |batch| <= limits.value.checkpoints
  }

  datatype Operation =
    | Append(expected: U64, batch: seq<Checkpoint>)
    | Migrate(current: U32, next: U32)
    | Compact(boundary: U64)

  datatype Outcome =
    | Appended(append: Result<AppendOutcome, StorageError>)
    | Migrated(status: Result<Status, StorageError>)
    | Compacted(compaction: Result<CompactionOutcome, StorageError>)

  ghost function AppendResult(limits: Option<Limits>, s: Store, expected: U64, batch: seq<Checkpoint>)
    : Result<AppendOutcome, StorageError>
  {
    if !GoodBatch(expected, batch) then Failure(Invalid)
    else
      var decision := Decision(s.status, expected, batch, Knows(s.checkpoints));
      if decision == Success(Committed) && !Fits(limits, s.checkpoints, batch) then Failure(Invalid) else decision
  }

  ghost function CommittedBatch(s: Store, batch: seq<Checkpoint>): Store
    requires batch != []
  {
    Store(Inserted(s.checkpoints, batch), s.status.(sequence := batch[|batch| - 1].sequence))
  }

  /** One operation: the next store and the answer. */
  ghost function Step(limits: Option<Limits>, s: Store, op: Operation): (Store, Outcome) {
    match op
    case Append(expected, batch) =>
      var r := AppendResult(limits, s, expected, batch);
      (if r == Success(Committed) && batch != [] then CommittedBatch(s, batch) else s, Appended(r))
    case Migrate(current, next) =>
      var r := Migration(s.status, current, next);
      (if r.Success? then s.(status := r.value) else s, Migrated(r))
    case Compact(boundary) =>
      if boundary > I64_MAX then (s, Compacted(Failure(Invalid)))
      else
        var kept := KeptFrom(s.checkpoints, boundary);
        (s.(checkpoints := kept),
         Compacted(Success(CompactionOutcome(|s.checkpoints.Keys - kept.Keys|, |kept|, s.status.sequence))))
  }
}
