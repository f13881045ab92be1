/** What one operation, and every run of operations, keeps of a checkpoint store. */
module StoreLaws {
  import opened Wrappers
  import opened Checkpoints
  import opened Transactions

  // ---------------------------------------------------------------- commits

  ghost predicate Holds(s: Store, c: Checkpoint) {
    c.id in s.checkpoints && s.checkpoints[c.id] == c
  }

  /** The identity of some checkpoint is retained with other contents. */
  ghost predicate Differs(s: Store, batch: seq<Checkpoint>) {
    exists k :: 0 <= k < |batch| && batch[k].id in s.checkpoints && s.checkpoints[batch[k].id] != batch[k]
  }

  ghost predicate AllHeld(s: Store, batch: seq<Checkpoint>) {
    forall k | 0 <= k < |batch| :: Holds(s, batch[k])
  }

  ghost predicate AllNew(s: Store, batch: seq<Checkpoint>) {
    forall k | 0 <= k < |batch| :: batch[k].id !in s.checkpoints
  }

  /** Identity of 1 to 1024 bytes without a zero byte, positive signed sequence, nonzero schema, at most 16 MiB. */
  ghost predicate InBounds(c: Checkpoint) {
    && 1 <= |c.id| <= 1024 && (forall i | 0 <= i < |c.id| :: c.id[i] != 0)
    && 1 <= c.sequence < 0x8000_0000_0000_0000 && c.schema > 0 && |c.payload| <= 16 * 1024 * 1024
  }

  /** The batch finds room: its identities and payloads in bytes, and its checkpoints in number. */
  ghost predicate HasRoom(limits: Option<Limits>, m: Retained, batch: seq<Checkpoint>) {
    limits == None
    || (Size(m) + BatchWeight(batch) <= limits.value.bytes && |m| + |batch| <= limits.value.checkpoints)
  }

  /** A batch within the limits, of valid checkpoints behind `expected`, ascending and with distinct identities. */
  ghost predicate Wellformed(expected: U64, batch: seq<Checkpoint>) {
    && 1 <= |batch| <= 1024 && PayloadBytes(batch) <= 64 * 1024 * 1024
    && (forall i | 0 <= i < |batch| :: InBounds(batch[i]) && batch[i].sequence > expected)
    && (forall i, j | 0 <= i < j < |batch| :: batch[i].sequence < batch[j].sequence && batch[i].id != batch[j].id)
  }

  /** The first checkpoint of another schema is the `k`-th. */
  ghost predicate FirstForeign(s: Store, batch: seq<Checkpoint>, k: nat) {
    k < |batch| && batch[k].schema != s.status.schema && forall i | 0 <= i < k :: batch[i].schema == s.status.schema
  }

  ghost predicate AllCurrent(s: Store, batch: seq<Checkpoint>) {
    forall k | 0 <= k < |batch| :: batch[k].schema == s.status.schema
  }

  /** When an append is answered with `r`, said about the store alone. */
  ghost predicate Answered(limits: Option<Limits>, s: Store, expected: U64, batch: seq<Checkpoint>,
                           r: Result<AppendOutcome, StorageError>)
  {
    var good, compared := Wellformed(expected, batch), AllNew(s, batch) && s.status.sequence == expected;
    match r
    case Success(Committed) => good && compared && AllCurrent(s, batch) && HasRoom(limits, s.checkpoints, batch)
    case Success(Replayed) => good && AllHeld(s, batch)
    case Failure(Invalid) => !good || (compared && AllCurrent(s, batch) && !HasRoom(limits, s.checkpoints, batch))
    case Failure(Conflict) => good && (Differs(s, batch) || (!AllNew(s, batch) && !AllHeld(s, batch)))
    case Failure(Stale(asked, actual)) =>
      good && AllNew(s, batch) && s.status.sequence != expected && asked == expected && actual == s.status.sequence
    case Failure(SchemaMismatch(foreign, current)) =>
      && good && compared && current == s.status.schema
      && exists k: nat :: FirstForeign(s, batch, k) && foreign == batch[k].schema
    case _ => false
  }

  lemma {:induction false} RefusesExactly(s: Store, batch: seq<Checkpoint>, i: nat)
    requires i <= |batch|
    ensures FirstRefusal(batch, Knows(s.checkpoints), i) ==
            if exists k :: i <= k < |batch| && batch[k].id in s.checkpoints && s.checkpoints[batch[k].id] != batch[k]
            then Some(Conflict) else None
    decreases |batch| - i
  {
    if i < |batch| {
      RefusesExactly(s, batch, i + 1);
    }
  }

  lemma {:induction false} CountsExactly(s: Store, batch: seq<Checkpoint>, n: nat)
    requires n <= |batch|
    ensures CountKnown(batch, Knows(s.checkpoints), n) <= n
    ensures CountKnown(batch, Knows(s.checkpoints), n) == n <==> forall k | 0 <= k < n :: Holds(s, batch[k])
    ensures CountKnown(batch, Knows(s.checkpoints), n) == 0 <==> forall k | 0 <= k < n :: !Holds(s, batch[k])
  {
    if n > 0 {
      CountsExactly(s, batch, n - 1);
    }
  }

  lemma {:induction false} MismatchesExactly(s: Store, batch: seq<Checkpoint>, i: nat)
    requires i <= |batch| && forall k | 0 <= k < i :: batch[k].schema == s.status.schema
    ensures FirstMismatch(batch, s.status.schema, i).None? <==> AllCurrent(s, batch)
    ensures forall k: nat | FirstForeign(s, batch, k) ::
              FirstMismatch(batch, s.status.schema, i) == Some(SchemaMismatch(batch[k].schema, s.status.schema))
    ensures FirstMismatch(batch, s.status.schema, i).Some? ==> exists k: nat :: FirstForeign(s, batch, k)
    decreases |batch| - i
  {
    if i < |batch| {
      if batch[i].schema == s.status.schema {
        MismatchesExactly(s, batch, i + 1);
      } else {
        assert FirstForeign(s, batch, i);
      }
    }
  }

  /** What the decision looks at, told by the store. */
  lemma DecisionLooks(s: Store, batch: seq<Checkpoint>)
    ensures FirstRefusal(batch, Knows(s.checkpoints), 0) == if Differs(s, batch) then Some(Conflict) else None
    ensures CountKnown(batch, Knows(s.checkpoints), |batch|) == |batch| <==> AllHeld(s, batch)
    ensures !Differs(s, batch) ==> (CountKnown(batch, Knows(s.checkpoints), |batch|) == 0 <==> AllNew(s, batch))
    ensures FirstMismatch(batch, s.status.schema, 0).None? <==> AllCurrent(s, batch)
    ensures FirstMismatch(batch, s.status.schema, 0).Some? ==>
              exists k: nat :: FirstForeign(s, batch, k) &&
                               FirstMismatch(batch, s.status.schema, 0) ==
                               Some(SchemaMismatch(batch[k].schema, s.status.schema))
  {
    RefusesExactly(s, batch, 0);
    CountsExactly(s, batch, |batch|);
    MismatchesExactly(s, batch, 0);
    hide FirstRefusal, CountKnown, FirstMismatch;
  }

  /** The conditions, one after the other. */
  lemma AppendCases(limits: Option<Limits>, s: Store, expected: U64, batch: seq<Checkpoint>)
    ensures
      var r := AppendResult(limits, s, expected, batch);
      if !GoodBatch(expected, batch) then r == Failure(Invalid)
      else if Differs(s, batch) then r == Failure(Conflict)
      else if AllHeld(s, batch) then r == Success(Replayed)
      else if !AllNew(s, batch) then r == Failure(Conflict)
      else if s.status.sequence != expected then r == Failure(Stale(expected, s.status.sequence))
      else if !AllCurrent(s, batch) then
        exists k: nat :: FirstForeign(s, batch, k) && r == Failure(SchemaMismatch(batch[k].schema, s.status.schema))
      else if Fits(limits, s.checkpoints, batch) then r == Success(Committed)
      else r == Failure(Invalid)
  {
    DecisionLooks(s, batch);
    hide FirstRefusal, CountKnown, FirstMismatch, Fits, GoodBatch, Differs, AllHeld, AllNew, AllCurrent, FirstForeign;
  }

  lemma Exclusive(s: Store, expected: U64, batch: seq<Checkpoint>)
    ensures Wellformed(expected, batch) <==> GoodBatch(expected, batch)
    ensures Wellformed(expected, batch) ==> batch != []
    ensures batch != [] && AllNew(s, batch) ==> !AllHeld(s, batch)
    ensures AllNew(s, batch) || AllHeld(s, batch) ==> !Differs(s, batch)
    ensures AllCurrent(s, batch) ==> forall k: nat :: !FirstForeign(s, batch, k)
    ensures forall j: nat, k: nat | FirstForeign(s, batch, j) && FirstForeign(s, batch, k) :: j == k
  {
    assert forall i | 0 <= i < |batch| :: InBounds(batch[i]) <==> ValidCheckpoint(batch[i]);
    hide ValidCheckpoint, InBounds;
    assert batch != [] && AllHeld(s, batch) ==> Holds(s, batch[0]);
  }

  /** Every append is answered exactly as the store says: the conditions exclude each other and leave nothing out. */
  lemma AppendAnswers(limits: Option<Limits>, s: Store, expected: U64, batch: seq<Checkpoint>,
                      r: Result<AppendOutcome, StorageError>)
    ensures AppendResult(limits, s, expected, batch) == r <==> Answered(limits, s, expected, batch, r)
  {
    AppendCases(limits, s, expected, batch);
    Exclusive(s, expected, batch);
    assert HasRoom(limits, s.checkpoints, batch) <==> Fits(limits, s.checkpoints, batch);
    hide AppendResult, Fits, HasRoom, GoodBatch, Wellformed, Differs, AllNew, AllHeld, AllCurrent, FirstForeign;
    ForeignWithin(s, batch);
  }

  lemma ForeignWithin(s: Store, batch: seq<Checkpoint>)
    ensures forall k: nat :: FirstForeign(s, batch, k) ==> k < |batch|
  {
  }

  /** An append commits exactly if the batch is good, continues from the store's sequence, is new, current and fits. */
  lemma CommitMeans(limits: Option<Limits>, s: Store, expected: U64, batch: seq<Checkpoint>)
    ensures AppendResult(limits, s, expected, batch) == Success(Committed) <==>
            && GoodBatch(expected, batch) && Fits(limits, s.checkpoints, batch) && s.status.sequence == expected
            && forall k | 0 <= k < |batch| :: batch[k].id !in s.checkpoints && batch[k].schema == s.status.schema
  {
    AppendAnswers(limits, s, expected, batch, Success(Committed));
    hide AppendResult;
  }

  ghost predicate DistinctIds(batch: seq<Checkpoint>) {
    forall i, j | 0 <= i < j < |batch| :: batch[i].id != batch[j].id
  }

  lemma {:induction false} InsertedContents(m: Retained, batch: seq<Checkpoint>)
    requires DistinctIds(batch)
    ensures Inserted(m, batch).Keys == m.Keys + Ids(batch, |batch|)
    ensures forall i | 0 <= i < |batch| ::
        batch[i].id in Inserted(m, batch) && Inserted(m, batch)[batch[i].id] == batch[i]
    ensures forall id | id in m && id !in Ids(batch, |batch|) :: Inserted(m, batch)[id] == m[id]
  {
    if batch != [] {
      var init, last := batch[..|batch| - 1], batch[|batch| - 1];
      InsertedContents(m, init);
      assert forall i | 0 <= i < |init| :: init[i] == batch[i];
      InsertedLast(m, batch);
      IdsLast(batch);
      assert last.id !in Ids(init, |init|);
      hide Inserted, Ids, DistinctIds;
      assert forall i | 0 <= i < |batch| :: i < |init| ==> batch[i].id != last.id;
    }
  }

  lemma InsertedLast(m: Retained, batch: seq<Checkpoint>)
    requires batch != []
    ensures Inserted(m, batch) == Inserted(m, batch[..|batch| - 1])[batch[|batch| - 1].id := batch[|batch| - 1]]
  {
  }

  lemma IdsLast(batch: seq<Checkpoint>)
    requires batch != []
    ensures Ids(batch, |batch|) == Ids(batch[..|batch| - 1], |batch| - 1) + {batch[|batch| - 1].id}
  {
    var init := batch[..|batch| - 1];
    assert forall i | 0 <= i < |init| :: init[i] == batch[i];
  }

  lemma {:induction false} InsertedSize(m: Retained, batch: seq<Checkpoint>)
    requires DistinctIds(batch) && forall i | 0 <= i < |batch| :: batch[i].id !in m
    ensures Size(Inserted(m, batch)) == Size(m) + BatchWeight(batch)
    ensures |Inserted(m, batch)| == |m| + |batch|
  {
    if batch != [] {
      var init, last := batch[..|batch| - 1], batch[|batch| - 1];
      assert forall i | 0 <= i < |init| :: init[i] == batch[i];
      InsertedSize(m, init);
      InsertedContents(m, init);
      SizeWith(Inserted(m, init), last);
    }
  }

  lemma RemovedCount(before: Retained, after: Retained)
    requires after.Keys <= before.Keys
    ensures |after| <= |before| && |before| - |after| == |before.Keys - after.Keys|
  {
    assert before.Keys == after.Keys + (before.Keys - after.Keys);
    assert |before.Keys| == |before| && |after.Keys| == |after|;
  }

  lemma {:induction false} KeptSize(m: Retained, boundary: nat)
    ensures Size(KeptFrom(m, boundary)) <= Size(m) && |KeptFrom(m, boundary)| <= |m|
    decreases |m|
  {
    RemovedCount(m, KeptFrom(m, boundary));
    if id :| id in m && m[id].sequence < boundary {
      KeptWithout(m, boundary, id);
      SizeWithout(m, id);
      hide KeptFrom, Size;
      KeptSize(m - {id}, boundary);
    } else {
      assert KeptFrom(m, boundary) == m;
    }
  }

  lemma KeptWithout(m: Retained, boundary: nat, id: Bytes)
    requires id in m && m[id].sequence < boundary
    ensures KeptFrom(m - {id}, boundary) == KeptFrom(m, boundary)
  {
  }

  // ---------------------------------------------------------------- one operation

  lemma InsertOneWellFormed(s: Store, c: Checkpoint)
    requires WellFormed(s) && ValidCheckpoint(c) && s.status.sequence < c.sequence && c.id !in s.checkpoints
    ensures WellFormed(Store(s.checkpoints[c.id := c], s.status.(sequence := c.sequence)))
  {
  }

  lemma {:induction false} InsertedWellFormed(s: Store, batch: seq<Checkpoint>)
    requires WellFormed(s) && batch != [] && Increasing(s.status.sequence, batch, |batch|)
    requires forall k | 0 <= k < |batch| :: batch[k].id !in s.checkpoints
    ensures WellFormed(CommittedBatch(s, batch))
  {
    var init, last := batch[..|batch| - 1], batch[|batch| - 1];
    if init == [] {
      assert Inserted(s.checkpoints, init) == s.checkpoints;
      InsertOneWellFormed(s, last);
    } else {
      assert forall k | 0 <= k < |init| :: init[k] == batch[k];
      InsertedWellFormed(s, init);
      InsertedContents(s.checkpoints, init);
      var before := CommittedBatch(s, init);
      assert last.id !in before.checkpoints;
      hide WellFormed;
      InsertOneWellFormed(before, last);
    }
  }

  lemma CommitWellFormed(limits: Option<Limits>, s: Store, expected: U64, batch: seq<Checkpoint>)
    requires WellFormed(s) && AppendResult(limits, s, expected, batch) == Success(Committed)
    ensures batch != [] && WellFormed(CommittedBatch(s, batch))
  {
    CommitMeans(limits, s, expected, batch);
    InsertedWellFormed(s, batch);
  }

  /** Every operation keeps a store well formed; sequence and schema never decrease. */
  lemma {:induction false} StepWellFormed(limits: Option<Limits>, s: Store, op: Operation)
    requires WellFormed(s)
    ensures
      var s' := Step(limits, s, op).0;
      WellFormed(s') && s.status.sequence <= s'.status.sequence && s.status.schema <= s'.status.schema
  {
    match op
    case Append(expected, batch) =>
      if AppendResult(limits, s, expected, batch) == Success(Committed) {
        CommitMeans(limits, s, expected, batch);
        CommitWellFormed(limits, s, expected, batch);
      }
    case Migrate(_, _) =>
    case Compact(_) =>
  }

  ghost predicate WithinLimits(limits: Option<Limits>, s: Store) {
    limits.Some? ==> Size(s.checkpoints) <= limits.value.bytes && |s.checkpoints| <= limits.value.checkpoints
  }

  lemma {:induction false} StepWithinLimits(limits: Option<Limits>, s: Store, op: Operation)
    requires WithinLimits(limits, s)
    ensures WithinLimits(limits, Step(limits, s, op).0)
  {
    match op
    case Append(expected, batch) =>
      if AppendResult(limits, s, expected, batch) == Success(Committed) {
        CommitMeans(limits, s, expected, batch);
        InsertedSize(s.checkpoints, batch);
      }
    case Migrate(_, _) =>
    case Compact(boundary) =>
      KeptSize(s.checkpoints, boundary);
  }

  /** What a quota counts: one checkpoint fits an empty store exactly if its identity and payload do, together. */
  lemma FirstFits(limits: Limits, c: Checkpoint)
    requires InBounds(c) && c.schema == 1
    ensures AppendResult(Some(limits), EMPTY, 0, [c]) == Success(Committed) <==>
            |c.id| + |c.payload| <= limits.bytes && limits.checkpoints >= 1
  {
    assert [c][..0] == [] && BatchWeight([c][..0]) == 0 && PayloadBytes([c][..0]) == 0;
    assert BatchWeight([c]) == |c.id| + |c.payload| && PayloadBytes([c]) == |c.payload|;
    assert Size(EMPTY.checkpoints) == 0;
    AppendAnswers(Some(limits), EMPTY, 0, [c], Success(Committed));
    hide AppendResult, Size, BatchWeight, PayloadBytes;
  }

  /** The store a compaction leaves. */
  ghost function CompactedStore(s: Store, boundary: U64): Store {
    if boundary > I64_MAX then s else s.(checkpoints := KeptFrom(s.checkpoints, boundary))
  }

  /** Its answer, with the removed checkpoints counted by subtraction. */
  ghost function CompactionAnswer(s: Store, boundary: U64): Result<CompactionOutcome, StorageError> {
    if boundary > I64_MAX then Failure(Invalid)
    else
      var kept := KeptFrom(s.checkpoints, boundary);
      RemovedCount(s.checkpoints, kept);
      Success(CompactionOutcome(|s.checkpoints| - |kept|, |kept|, s.status.sequence))
  }

  /** The two counts of a compaction: how many stood below the boundary, and how many did not. */
  lemma CompactionCounts(limits: Option<Limits>, s: Store, boundary: U64)
    ensures
      var below := set id | id in s.checkpoints && s.checkpoints[id].sequence < boundary;
      Step(limits, s, Operation.Compact(boundary)).1 ==
      Compacted(if boundary >= 0x8000_0000_0000_0000 then Failure(Invalid)
                else Success(CompactionOutcome(|below|, |s.checkpoints.Keys - below|, s.status.sequence)))
  {
    var kept := KeptFrom(s.checkpoints, boundary);
    var below := set id | id in s.checkpoints && s.checkpoints[id].sequence < boundary;
    assert s.checkpoints.Keys - kept.Keys == below && s.checkpoints.Keys - below == kept.Keys;
    assert |kept| == |kept.Keys|;
    RemovedCount(s.checkpoints, kept);
    hide AppendResult, CommittedBatch, Migration;
  }

  lemma CompactSteps(limits: Option<Limits>, s: Store, boundary: U64)
    ensures Step(limits, s, Operation.Compact(boundary)) ==
            (CompactedStore(s, boundary), Compacted(CompactionAnswer(s, boundary)))
    ensures |KeptFrom(s.checkpoints, boundary)| <= |s.checkpoints|
  {
    assert KeptFrom(s.checkpoints, boundary).Keys <= s.checkpoints.Keys;
    hide KeptFrom, AppendResult, CommittedBatch, Migration;
    RemovedCount(s.checkpoints, KeptFrom(s.checkpoints, boundary));
  }

  /** Subtracting the two counts, as both backends do, gives the number removed and never underflows. */
  lemma CompactMeans(limits: Option<Limits>, s: Store, boundary: U64)
    requires WellFormed(s) && WithinLimits(limits, s)
    ensures Step(limits, s, Operation.Compact(boundary)) ==
            (CompactedStore(s, boundary), Compacted(CompactionAnswer(s, boundary)))
    ensures WellFormed(CompactedStore(s, boundary)) && WithinLimits(limits, CompactedStore(s, boundary))
    ensures |KeptFrom(s.checkpoints, boundary)| <= |s.checkpoints|
  {
    hide WellFormed, WithinLimits, KeptFrom, Step, CompactedStore, CompactionAnswer;
    StepWellFormed(limits, s, Operation.Compact(boundary));
    StepWithinLimits(limits, s, Operation.Compact(boundary));
    CompactSteps(limits, s, boundary);
  }

  // ---------------------------------------------------------------- runs

  /** The store after a run of operations. */
  ghost function Run(limits: Option<Limits>, s: Store, ops: seq<Operation>): Store {
    if ops == [] then s else Step(limits, Run(limits, s, ops[..|ops| - 1]), ops[|ops| - 1]).0
  }

  /** The answers of a run. */
  ghost function Answers(limits: Option<Limits>, s: Store, ops: seq<Operation>): seq<Outcome> {
    if ops == [] then []
    else
      Answers(limits, s, ops[..|ops| - 1]) + [Step(limits, Run(limits, s, ops[..|ops| - 1]), ops[|ops| - 1]).1]
  }

  lemma {:induction false} RunWellFormed(limits: Option<Limits>, s: Store, ops: seq<Operation>)
    requires WellFormed(s) && WithinLimits(limits, s)
    ensures
      var s' := Run(limits, s, ops);
      && WellFormed(s') && WithinLimits(limits, s')
      && s.status.sequence <= s'.status.sequence && s.status.schema <= s'.status.schema
  {
    if ops != [] {
      var init, last := ops[..|ops| - 1], ops[|ops| - 1];
      RunWellFormed(limits, s, init);
      StepWellFormed(limits, Run(limits, s, init), last);
      StepWithinLimits(limits, Run(limits, s, init), last);
    }
  }

  /** Every store reached from the empty one keeps every invariant and both limits. */
  lemma ReachableIsWellFormed(limits: Option<Limits>, ops: seq<Operation>)
    ensures WellFormed(Run(limits, EMPTY, ops)) && WithinLimits(limits, Run(limits, EMPTY, ops))
  {
    RunWellFormed(limits, EMPTY, ops);
  }

  /** A checkpoint survives every operation but a compaction whose boundary is above it. */
  lemma {:induction false} StepRetains(limits: Option<Limits>, s: Store, op: Operation, c: Checkpoint)
    requires c.id in s.checkpoints && s.checkpoints[c.id] == c
    ensures
      var after := Step(limits, s, op).0.checkpoints;
      if op.Compact? && c.sequence < op.boundary <= I64_MAX then c.id !in after
      else c.id in after && after[c.id] == c
  {
    match op
    case Append(expected, batch) =>
      if AppendResult(limits, s, expected, batch) == Success(Committed) {
        CommitMeans(limits, s, expected, batch);
        InsertedContents(s.checkpoints, batch);
      }
    case Migrate(_, _) =>
    case Compact(_) =>
  }

  lemma {:induction false} IncreasingAbove(low: U64, batch: seq<Checkpoint>, n: nat, k: nat)
    requires k < n <= |batch| && Increasing(low, batch, n)
    ensures low < batch[k].sequence
  {
  }

  ghost predicate Reaches(op: Operation, c: Checkpoint) {
    op.Compact? && c.sequence < op.boundary <= I64_MAX
  }

  /** No compaction of the run reaches into the batch. */
  ghost predicate Spares(ops: seq<Operation>, batch: seq<Checkpoint>) {
    forall i, k | 0 <= i < |ops| && 0 <= k < |batch| :: !Reaches(ops[i], batch[k])
  }

  /** What is gone stays gone: only later sequences are ever committed. */
  lemma {:induction false} StepForgets(limits: Option<Limits>, s: Store, op: Operation, c: Checkpoint)
    requires WellFormed(s) && !Holds(s, c) && c.sequence <= s.status.sequence
    ensures !Holds(Step(limits, s, op).0, c)
  {
    match op
    case Append(expected, batch) =>
      if AppendResult(limits, s, expected, batch) == Success(Committed) {
        CommitMeans(limits, s, expected, batch);
        InsertedContents(s.checkpoints, batch);
        forall k: nat | k < |batch|
          ensures batch[k] != c
        {
          IncreasingAbove(expected, batch, |batch|, k);
        }
        hide WellFormed, Inserted, GoodBatch, Decision, Fits;
      }
    case Migrate(_, _) =>
    case Compact(_) =>
  }

  lemma StepHolds(limits: Option<Limits>, s: Store, op: Operation, c: Checkpoint)
    requires WellFormed(s) && c.sequence <= s.status.sequence
    ensures Holds(Step(limits, s, op).0, c) <==> Holds(s, c) && !Reaches(op, c)
  {
    hide WellFormed, Step;
    if Holds(s, c) {
      StepRetains(limits, s, op, c);
    } else {
      StepForgets(limits, s, op, c);
    }
  }

  lemma HeldIsOld(s: Store, c: Checkpoint)
    requires WellFormed(s) && Holds(s, c)
    ensures c.sequence <= s.status.sequence
  {
  }

  /** Over every run a retained checkpoint is kept if and only if no compaction reaches it. */
  lemma {:induction false} RunRetainsExactly(limits: Option<Limits>, s: Store, ops: seq<Operation>, c: Checkpoint)
    requires WellFormed(s) && WithinLimits(limits, s) && Holds(s, c)
    ensures Holds(Run(limits, s, ops), c) <==> forall i | 0 <= i < |ops| :: !Reaches(ops[i], c)
  {
    hide WellFormed, WithinLimits, Step, Holds, Reaches;
    if ops != [] {
      var init, last := ops[..|ops| - 1], ops[|ops| - 1];
      assert forall i | 0 <= i < |init| :: init[i] == ops[i];
      RunWellFormed(limits, s, init);
      RunRetainsExactly(limits, s, init, c);
      HeldIsOld(s, c);
      StepHolds(limits, Run(limits, s, init), last, c);
      assert (forall i | 0 <= i < |ops| :: !Reaches(ops[i], c)) <==>
             (forall i | 0 <= i < |init| :: !Reaches(init[i], c)) && !Reaches(last, c);
    }
  }

  /** The same for all checkpoints of a batch together. */
  lemma BatchRetainedExactly(limits: Option<Limits>, s: Store, ops: seq<Operation>, batch: seq<Checkpoint>)
    requires WellFormed(s) && WithinLimits(limits, s) && forall k | 0 <= k < |batch| :: Holds(s, batch[k])
    ensures (forall k | 0 <= k < |batch| :: Holds(Run(limits, s, ops), batch[k])) <==> Spares(ops, batch)
  {
    hide WellFormed, WithinLimits, Run, Holds;
    forall k | 0 <= k < |batch|
      ensures Holds(Run(limits, s, ops), batch[k]) <==> forall i | 0 <= i < |ops| :: !Reaches(ops[i], batch[k])
    {
      RunRetainsExactly(limits, s, ops, batch[k]);
    }
  }

  // ---------------------------------------------------------------- migrations

  /** Up to `boundary` only what was retained `before`; behind it only checkpoints of `schema` or a later one. */
  ghost predicate Separated(before: Retained, boundary: nat, schema: nat, s: Store) {
    && boundary <= s.status.sequence && schema <= s.status.schema && boundary <= s.status.schemaSequence
    && forall id | id in s.checkpoints ::
      if s.checkpoints[id].sequence <= boundary then id in before && before[id] == s.checkpoints[id]
      else schema <= s.checkpoints[id].schema
  }

  lemma SeparatedCommit(limits: Option<Limits>, s: Store, expected: U64, batch: seq<Checkpoint>,
                        before: Retained, boundary: nat, schema: nat)
    requires WellFormed(s) && Separated(before, boundary, schema, s)
    requires AppendResult(limits, s, expected, batch) == Success(Committed)
    ensures batch != [] && Separated(before, boundary, schema, CommittedBatch(s, batch))
  {
    CommitMeans(limits, s, expected, batch);
    CommitWellFormed(limits, s, expected, batch);
    InsertedContents(s.checkpoints, batch);
    var after := CommittedBatch(s, batch);
    forall id | id in after.checkpoints && id !in s.checkpoints
      ensures boundary < after.checkpoints[id].sequence && schema <= after.checkpoints[id].schema
    {
      var k :| 0 <= k < |batch| && batch[k].id == id;
      IncreasingAbove(expected, batch, |batch|, k);
    }
    IncreasingAbove(expected, batch, |batch|, |batch| - 1);
  }

  lemma {:induction false} StepSeparates(limits: Option<Limits>, s: Store, op: Operation,
                                         before: Retained, boundary: nat, schema: nat)
    requires WellFormed(s) && Separated(before, boundary, schema, s)
    ensures Separated(before, boundary, schema, Step(limits, s, op).0)
  {
    match op
    case Append(expected, batch) =>
      if AppendResult(limits, s, expected, batch) == Success(Committed) {
        SeparatedCommit(limits, s, expected, batch, before, boundary, schema);
      }
    case Migrate(_, _) =>
    case Compact(_) =>
  }

  lemma {:induction false} RunSeparates(limits: Option<Limits>, s: Store, ops: seq<Operation>,
                                        before: Retained, boundary: nat, schema: nat)
    requires WellFormed(s) && WithinLimits(limits, s) && Separated(before, boundary, schema, s)
    ensures Separated(before, boundary, schema, Run(limits, s, ops))
  {
    if ops != [] {
      var init, last := ops[..|ops| - 1], ops[|ops| - 1];
      RunWellFormed(limits, s, init);
      RunSeparates(limits, s, init, before, boundary, schema);
      StepSeparates(limits, Run(limits, s, init), last, before, boundary, schema);
      hide WellFormed, WithinLimits, Separated, Step;
    }
  }

  /**
   A migration divides the log for good: after any further run, everything retained up to the
   sequence at which it happened was already there, with its old tag, and everything behind it
   carries the new schema or a later one. No checkpoint of an older schema is committed again, and
   the migration does not succeed a second time.
   */
  lemma MigrationSeparates(limits: Option<Limits>, s: Store, current: U32, next: U32, ops: seq<Operation>,
                           expected: U64, batch: seq<Checkpoint>, again: U32)
    requires WellFormed(s) && WithinLimits(limits, s)
    requires Step(limits, s, Migrate(current, next)).1.status.Success?
    ensures
      var later := Run(limits, Step(limits, s, Migrate(current, next)).0, ops);
      && Separated(s.checkpoints, s.status.sequence, next, later)
      && ((exists k :: 0 <= k < |batch| && batch[k].schema < next) ==>
            AppendResult(limits, later, expected, batch) != Success(Committed))
      && Step(limits, later, Migrate(current, again)).1.status.Failure?
  {
    var migrated := Step(limits, s, Migrate(current, next)).0;
    StepWellFormed(limits, s, Migrate(current, next));
    StepWithinLimits(limits, s, Migrate(current, next));
    RunSeparates(limits, migrated, ops, s.checkpoints, s.status.sequence, next);
    var later := Run(limits, migrated, ops);
    hide Run, WithinLimits, Decision;
    if AppendResult(limits, later, expected, batch) == Success(Committed) {
      CommitMeans(limits, later, expected, batch);
    }
  }

  // ---------------------------------------------------------------- retries

  lemma {:induction false} AllKnown(batch: seq<Checkpoint>, known: Checkpoint -> Known, n: nat)
    requires n <= |batch| && forall k | 0 <= k < |batch| :: known(batch[k]) == Success(Some(true))
    ensures FirstRefusal(batch, known, n).None? && CountKnown(batch, known, n) == n
    decreases |batch| - n
  {
    CountAll(batch, known, n);
    if n < |batch| {
      AllKnown(batch, known, n + 1);
    }
  }

  lemma {:induction false} CountAll(batch: seq<Checkpoint>, known: Checkpoint -> Known, n: nat)
    requires n <= |batch| && forall k | 0 <= k < |batch| :: known(batch[k]) == Success(Some(true))
    ensures CountKnown(batch, known, n) == n
  {
    if n > 0 {
      CountAll(batch, known, n - 1);
    }
  }

  lemma {:induction false} LocalRefusals(batch: seq<Checkpoint>, m: Retained, i: nat)
    ensures FirstRefusal(batch, Knows(m), i).None? || FirstRefusal(batch, Knows(m), i) == Some(Conflict)
    decreases |batch| - i
  {
    if i < |batch| {
      LocalRefusals(batch, m, i + 1);
    }
  }

  /**
   Once a batch has committed, retrying it after any further run never commits it again: it is
   replayed, conflicting or stale, and the store stays as it is. It is replayed if
   and only if no compaction reached into the batch.
   */
  lemma {:induction false} RetryNeverCommits(limits: Option<Limits>, s: Store, expected: U64, batch: seq<Checkpoint>,
                                             ops: seq<Operation>)
    requires WellFormed(s) && WithinLimits(limits, s)
    requires AppendResult(limits, s, expected, batch) == Success(Committed)
    ensures
      var later := Run(limits, Step(limits, s, Append(expected, batch)).0, ops);
      var (after, outcome) := Step(limits, later, Append(expected, batch));
      && after == later
      && (outcome.append == Success(Replayed) || outcome.append == Failure(Conflict) ||
          outcome.append == Failure(Stale(expected, later.status.sequence)))
      && (outcome.append == Success(Replayed) <==> Spares(ops, batch))
  {
    var first := Step(limits, s, Append(expected, batch)).0;
    CommitMeans(limits, s, expected, batch);
    CommittedRetains(s, batch);
    StepWellFormed(limits, s, Append(expected, batch));
    StepWithinLimits(limits, s, Append(expected, batch));
    assert first.status.sequence == batch[|batch| - 1].sequence > expected;
    hide WellFormed, WithinLimits, Run, Fits, Decision;
    RunWellFormed(limits, first, ops);
    var later := Run(limits, first, ops);
    BatchRetainedExactly(limits, first, ops, batch);
    ReplaysExactly(limits, later, expected, batch);
    LaterRefuses(limits, later, expected, batch);
  }

  lemma CommittedRetains(s: Store, batch: seq<Checkpoint>)
    requires batch != [] && DistinctIds(batch)
    ensures forall k | 0 <= k < |batch| :: Holds(CommittedBatch(s, batch), batch[k])
  {
    InsertedContents(s.checkpoints, batch);
  }

  lemma {:induction false} CountFull(batch: seq<Checkpoint>, known: Checkpoint -> Known, n: nat, k: nat)
    requires k < n <= |batch| && CountKnown(batch, known, n) == n
    ensures known(batch[k]) == Success(Some(true))
  {
    CountAtMost(batch, known, n - 1);
    if k < n - 1 {
      CountFull(batch, known, n - 1, k);
    }
  }

  lemma {:induction false} CountAtMost(batch: seq<Checkpoint>, known: Checkpoint -> Known, n: nat)
    requires n <= |batch|
    ensures CountKnown(batch, known, n) <= n
  {
    if n > 0 {
      CountAtMost(batch, known, n - 1);
    }
  }

  /** A good batch is replayed if and only if all of it is retained. */
  lemma ReplaysExactly(limits: Option<Limits>, s: Store, expected: U64, batch: seq<Checkpoint>)
    requires GoodBatch(expected, batch)
    ensures AppendResult(limits, s, expected, batch) == Success(Replayed) <==>
            forall k | 0 <= k < |batch| :: Holds(s, batch[k])
  {
    hide GoodBatch;
    if forall k | 0 <= k < |batch| :: Holds(s, batch[k]) {
      AllKnown(batch, Knows(s.checkpoints), 0);
      CountAll(batch, Knows(s.checkpoints), |batch|);
    }
    if AppendResult(limits, s, expected, batch) == Success(Replayed) {
      forall k: nat | k < |batch|
        ensures Holds(s, batch[k])
      {
        CountFull(batch, Knows(s.checkpoints), |batch|, k);
      }
    }
  }

  lemma LaterRefuses(limits: Option<Limits>, s: Store, expected: U64, batch: seq<Checkpoint>)
    requires GoodBatch(expected, batch) && expected < s.status.sequence
    ensures
      var r := AppendResult(limits, s, expected, batch);
      r == Success(Replayed) || r == Failure(Conflict) || r == Failure(Stale(expected, s.status.sequence))
  {
    LocalRefusals(batch, s.checkpoints, 0);
  }

  /** The sequence numbers committed during a run, in order. */
  ghost function Log(limits: Option<Limits>, s: Store, ops: seq<Operation>): seq<U64> {
    if ops == [] then []
    else
      var init, last := ops[..|ops| - 1], ops[|ops| - 1];
      Log(limits, s, init) +
      if last.Append? && Step(limits, Run(limits, s, init), last).1.append == Success(Committed)
      then SequencesOf(last.batch) else []
  }

  ghost function SequencesOf(batch: seq<Checkpoint>): seq<U64> {
    seq(|batch|, i requires 0 <= i < |batch| => batch[i].sequence)
  }

  /** Strictly ascending numbers above `low` and up to `high`. */
  ghost predicate Ascends(log: seq<U64>, low: nat, high: nat) {
    && (forall i, j | 0 <= i < j < |log| :: log[i] < log[j])
    && (forall i | 0 <= i < |log| :: low < log[i] <= high)
  }

  lemma AscendsOn(a: seq<U64>, b: seq<U64>, low: nat, middle: nat, high: nat)
    requires low <= middle <= high && Ascends(a, low, middle) && Ascends(b, middle, high)
    ensures Ascends(a + b, low, high)
  {
  }

  /** No sequence number is ever committed twice: the log of every run strictly increases. */
  lemma {:induction false} LogIncreases(limits: Option<Limits>, s: Store, ops: seq<Operation>)
    requires WellFormed(s) && WithinLimits(limits, s)
    ensures s.status.sequence <= Run(limits, s, ops).status.sequence
    ensures Ascends(Log(limits, s, ops), s.status.sequence, Run(limits, s, ops).status.sequence)
  {
    if ops != [] {
      var init, last := ops[..|ops| - 1], ops[|ops| - 1];
      LogIncreases(limits, s, init);
      RunWellFormed(limits, s, init);
      var before := Run(limits, s, init);
      StepWellFormed(limits, before, last);
      hide WellFormed, WithinLimits, AppendResult, Ascends;
      var added: seq<U64> := [];
      if last.Append? && Step(limits, before, last).1.append == Success(Committed) {
        assert AppendResult(limits, before, last.expected, last.batch) == Success(Committed);
        LogStep(limits, before, last.expected, last.batch);
        added := SequencesOf(last.batch);
      } else {
        NothingAscends(before.status.sequence, Run(limits, s, ops).status.sequence);
      }
      AscendsOn(Log(limits, s, init), added, s.status.sequence, before.status.sequence,
          Run(limits, s, ops).status.sequence);
    }
  }

  lemma NothingAscends(low: nat, high: nat)
    ensures Ascends([], low, high)
  {
  }

  lemma LogStep(limits: Option<Limits>, s: Store, expected: U64, batch: seq<Checkpoint>)
    requires AppendResult(limits, s, expected, batch) == Success(Committed)
    ensures Ascends(SequencesOf(batch), s.status.sequence, Step(limits, s, Append(expected, batch)).0.status.sequence)
  {
    CommitMeans(limits, s, expected, batch);
    assert Increasing(s.status.sequence, batch, |batch|);
    assert forall i | 0 <= i < |batch| :: batch[i].sequence <= batch[|batch| - 1].sequence;
  }

  // ---------------------------------------------------------------- bounded and unbounded stores

  /** The limits do not stand in the way of an append that would otherwise commit. */
  ghost predicate RoomFor(limits: Limits, before: Store, op: Operation) {
    op.Append? && AppendResult(None, before, op.expected, op.batch) == Success(Committed) ==>
      Fits(Some(limits), before.checkpoints, op.batch)
  }

  /** No append of the run was refused for exceeding the limits. */
  ghost predicate NeverFull(limits: Limits, s: Store, ops: seq<Operation>) {
    forall n | 0 <= n < |ops| :: RoomFor(limits, Run(Some(limits), s, ops[..n]), ops[n])
  }

  lemma NeverFullStep(limits: Limits, s: Store, init: seq<Operation>, last: Operation)
    ensures NeverFull(limits, s, init + [last]) <==>
            NeverFull(limits, s, init) && RoomFor(limits, Run(Some(limits), s, init), last)
  {
    hide RoomFor, Run;
    var ops := init + [last];
    assert ops[..|init|] == init && ops[|init|] == last;
    forall n | 0 <= n < |init|
      ensures ops[..n] == init[..n] && ops[n] == init[n]
    {
    }
    if NeverFull(limits, s, ops) {
      forall n | 0 <= n < |init|
        ensures RoomFor(limits, Run(Some(limits), s, init[..n]), init[n])
      {
        assert RoomFor(limits, Run(Some(limits), s, ops[..n]), ops[n]);
      }
    }
  }

  /** One operation is answered alike by both stores exactly if there is room, and then leaves the same state. */
  lemma RoomDecides(limits: Limits, s: Store, op: Operation)
    ensures Step(Some(limits), s, op).1 == Step(None, s, op).1 <==> RoomFor(limits, s, op)
    ensures RoomFor(limits, s, op) ==> Step(Some(limits), s, op) == Step(None, s, op)
  {
    hide Decision, GoodBatch, Inserted, KeptFrom, Size;
  }

  /**
   A bounded and an unbounded store give the same answers over a run exactly if the limits never
   refuse an append of it, and then they hold the same checkpoints and status throughout.
   */
  lemma {:induction false} BoundedAgrees(limits: Limits, s: Store, ops: seq<Operation>)
    ensures Answers(Some(limits), s, ops) == Answers(None, s, ops) <==> NeverFull(limits, s, ops)
    ensures NeverFull(limits, s, ops) ==> Run(Some(limits), s, ops) == Run(None, s, ops)
  {
    hide RoomFor, Step, NeverFull;
    if ops == [] {
      assert NeverFull(limits, s, []) by {
        EmptyNeverFull(limits, s);
      }
    } else {
      var init, last := ops[..|ops| - 1], ops[|ops| - 1];
      assert ops == init + [last];
      BoundedAgrees(limits, s, init);
      NeverFullStep(limits, s, init, last);
      AnswersLength(Some(limits), s, init);
      AnswersLength(None, s, init);
      RoomDecides(limits, Run(Some(limits), s, init), last);
      SameEnds(Answers(Some(limits), s, init), Step(Some(limits), Run(Some(limits), s, init), last).1,
               Answers(None, s, init), Step(None, Run(None, s, init), last).1);
    }
  }

  lemma EmptyNeverFull(limits: Limits, s: Store)
    ensures NeverFull(limits, s, [])
  {
  }

  lemma {:induction false} AnswersLength(limits: Option<Limits>, s: Store, ops: seq<Operation>)
    ensures |Answers(limits, s, ops)| == |ops|
  {
    if ops != [] {
      AnswersLength(limits, s, ops[..|ops| - 1]);
    }
  }

  lemma SameEnds(a: seq<Outcome>, x: Outcome, b: seq<Outcome>, y: Outcome)
    requires |a| == |b|
    ensures a + [x] == b + [y] <==> a == b && x == y
  {
    assert (a + [x])[..|a|] == a && (b + [y])[..|b|] == b;
    assert (a + [x])[|a|] == x && (b + [y])[|b|] == y;
  }
}
