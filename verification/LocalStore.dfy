/** The volatile checkpoint store: a map, a status and a byte count under two quotas. */
module LocalStore {
  import opened Wrappers
  import opened Checkpoints
  import opened Transactions
  import opened StoreLaws

  class LocalCheckpointStore {
    var checkpoints: Retained
    var status: Status
    var bytes: nat
    const maximumBytes: nat
    const maximumCheckpoints: nat

    /** The state as the abstract store. */
    ghost function Model(): Store
      reads this
    {
      Store(checkpoints, status)
    }

    ghost function Quota(): Option<Limits> {
      Some(Limits(maximumBytes, maximumCheckpoints))
    }

    ghost predicate Valid()
      reads this
    {
      && 1 <= maximumBytes <= MAX_BATCH_BYTES && 1 <= maximumCheckpoints <= MAX_BATCH_CHECKPOINTS
      && WellFormed(Model()) && WithinLimits(Quota(), Model())
      && bytes == Size(checkpoints)
    }

    constructor (maximumBytes: nat, maximumCheckpoints: nat)
      requires 1 <= maximumBytes <= MAX_BATCH_BYTES && 1 <= maximumCheckpoints <= MAX_BATCH_CHECKPOINTS
      ensures Valid() && Model() == EMPTY
      ensures this.maximumBytes == maximumBytes && this.maximumCheckpoints == maximumCheckpoints
    {
      this.checkpoints := map[];
      this.status := Status(0, 1, 0);
      this.bytes := 0;
      this.maximumBytes := maximumBytes;
      this.maximumCheckpoints := maximumCheckpoints;
    }

    /** `new`: refuses limits outside the supported range. */
    static method New(maximumBytes: nat, maximumCheckpoints: nat)
      returns (r: Result<LocalCheckpointStore, StorageError>)
      ensures r.Success? <==> 1 <= maximumBytes <= MAX_BATCH_BYTES && 1 <= maximumCheckpoints <= MAX_BATCH_CHECKPOINTS
      ensures r.Failure? ==> r.error == Invalid
      ensures r.Success? ==> fresh(r.value) && r.value.Valid() && r.value.Model() == EMPTY &&
                             r.value.Quota() == Some(Limits(maximumBytes, maximumCheckpoints))
    {
      if maximumBytes == 0 || maximumBytes > MAX_BATCH_BYTES ||
         maximumCheckpoints == 0 || maximumCheckpoints > MAX_BATCH_CHECKPOINTS {
        return Failure(Invalid);
      }
      var store := new LocalCheckpointStore(maximumBytes, maximumCheckpoints);
      r := Success(store);
    }

    /** The running total of the batch on top of the retained bytes. */
    method AddUp(batch: seq<Checkpoint>) returns (total: nat)
      ensures total == bytes + BatchWeight(batch)
    {
      total := bytes;
      assert batch[..0] == [] && batch[..|batch|] == batch;
      for i := 0 to |batch|
        invariant total == bytes + BatchWeight(batch[..i])
      {
        assert batch[..i + 1][..i] == batch[..i];
        total := total + |batch[i].payload| + |batch[i].id|;
      }
    }

    /** The insertion loop; nothing can fail once it has begun. */
    method InsertAll(batch: seq<Checkpoint>)
      modifies this`checkpoints
      ensures checkpoints == Inserted(old(checkpoints), batch)
    {
      assert batch[..0] == [] && batch[..|batch|] == batch;
      for i := 0 to |batch|
        invariant checkpoints == Inserted(old(checkpoints), batch[..i])
      {
        assert batch[..i + 1][..i] == batch[..i];
        checkpoints := checkpoints[batch[i].id := batch[i]];
      }
    }

    /** `append`: exactly the abstract step under this store's quota. */
    method Append(expected: U64, batch: seq<Checkpoint>) returns (r: Result<AppendOutcome, StorageError>)
      requires Valid()
      modifies this
      ensures Valid()
      ensures (Model(), Appended(r)) == Step(Quota(), old(Model()), Operation.Append(expected, batch))
    {
      StepWellFormed(Quota(), Model(), Operation.Append(expected, batch));
      StepWithinLimits(Quota(), Model(), Operation.Append(expected, batch));
      if AppendResult(Quota(), Model(), expected, batch) == Success(Committed) {
        CommitMeans(Quota(), Model(), expected, batch);
        GoodBatchFacts(expected, batch);
        InsertedSize(checkpoints, batch);
      }
      hide WellFormed, GoodBatch, Decision, Inserted, Size, BatchWeight;
      var good := ValidateBatch(expected, batch);
      if !good {
        return Failure(Invalid);
      }
      r := ValidateAppend(status, expected, batch, Knows(checkpoints));
      if r != Success(Committed) {
        return;
      }
      var total := AddUp(batch);
      if total > maximumBytes || |checkpoints| + |batch| > maximumCheckpoints {
        return Failure(Invalid);
      }
      Commit(batch, total);
    }

    /** The infallible part of an append. */
    method Commit(batch: seq<Checkpoint>, total: nat)
      requires batch != []
      modifies this
      ensures Model() == CommittedBatch(old(Model()), batch) && bytes == total
    {
      InsertAll(batch);
      bytes := total;
      status := status.(sequence := batch[|batch| - 1].sequence);
    }

    /** `load`: the retained checkpoint of that identity, if there is one. */
    function Load(id: Bytes): (r: Option<Checkpoint>)
      requires Valid()
      reads this
      ensures r.Some? ==> r.value.id == id && Holds(Model(), r.value)
      ensures r.None? ==> forall c | Holds(Model(), c) :: c.id != id
    {
      if id in checkpoints then Some(checkpoints[id]) else None
    }

    /** `migrate_schema`. */
    method MigrateSchema(current: U32, next: U32) returns (r: Result<Status, StorageError>)
      requires Valid()
      modifies this
      ensures Valid()
      ensures (Model(), Migrated(r)) == Step(Quota(), old(Model()), Migrate(current, next))
    {
      StepWellFormed(Quota(), Model(), Migrate(current, next));
      r := Migration(status, current, next);
      if r.Success? {
        status := r.value;
      }
    }

    /** The in-place retain: drops what lies below the boundary and gives its bytes back. */
    method RetainFrom(boundary: U64)
      requires bytes == Size(checkpoints)
      modifies this`checkpoints, this`bytes
      ensures checkpoints == KeptFrom(old(checkpoints), boundary)
      ensures bytes == Size(checkpoints)
    {
      var pending := checkpoints.Keys;
      while pending != {}
        invariant pending <= checkpoints.Keys <= old(checkpoints.Keys)
        invariant bytes == Size(checkpoints)
        invariant forall id | id in checkpoints :: checkpoints[id] == old(checkpoints)[id]
        invariant forall id | id in old(checkpoints) && id !in pending ::
                    id in checkpoints <==> old(checkpoints)[id].sequence >= boundary
      {
        var id :| id in pending;
        pending := pending - {id};
        if checkpoints[id].sequence < boundary {
          SizeWithout(checkpoints, id);
          bytes := bytes - (|checkpoints[id].id| + |checkpoints[id].payload|);
          checkpoints := checkpoints - {id};
        }
      }
    }

    /** `compact`: the byte count is given back entry by entry and never underflows. */
    method Compact(boundary: U64) returns (r: Result<CompactionOutcome, StorageError>)
      requires Valid()
      modifies this
      ensures Valid()
      ensures (Model(), Compacted(r)) == Step(Quota(), old(Model()), Operation.Compact(boundary))
    {
      CompactMeans(Quota(), Model(), boundary);
      hide WellFormed, WithinLimits, Step, KeptFrom, Size;
      if boundary > I64_MAX {
        return Failure(Invalid);
      }
      var before := |checkpoints|;
      RetainFrom(boundary);
      r := Success(CompactionOutcome(before - |checkpoints|, |checkpoints|, status.sequence));
    }
  }

  lemma GoodBatchFacts(expected: U64, batch: seq<Checkpoint>)
    requires GoodBatch(expected, batch)
    ensures batch != [] && DistinctIds(batch)
  {
  }
}
