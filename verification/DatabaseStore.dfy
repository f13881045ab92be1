/**
 The durable checkpoint store: one table of rows, one metadata record, and atomic transactions
 over both. A transaction works on copies and installs them only when it commits.
 */
module DatabaseStore {
  import opened Wrappers
  import opened Checkpoints
  import opened Transactions
  import opened StoreLaws

  /** SQLite's signed 64-bit integers. */
  type I64 = x: int | -0x8000_0000_0000_0000 <= x <= I64_MAX

  datatype Row = Row(sequence: I64, schema: U32, payload: Bytes, digest: Bytes)

  datatype Meta = Meta(highest: I64, schema: I64, schemaSequence: I64)

  type Table = map<Bytes, Row>

  /** A Rust cast from unsigned to signed: the upper half wraps to negative numbers. */
  function AsI64(x: U64): I64 {
    if x <= I64_MAX then x else x - U64_LIMIT
  }

  lemma AsI64Lossless(x: U64)
    ensures AsI64(x) >= 0 <==> x <= I64_MAX
    ensures x <= I64_MAX ==> AsI64(x) == x
  {
  }

  /** `checked_status`: refuses negative or inconsistent metadata. */
  function CheckedStatus(meta: Meta): Result<Status, StorageError> {
    if meta.highest < 0 || !(0 <= meta.schema < U32_LIMIT) || meta.schemaSequence < 0 then Failure(Corrupt)
    else if meta.schema == 0 || meta.schemaSequence > meta.highest then Failure(Corrupt)
    else Success(Status(meta.highest, meta.schema, meta.schemaSequence))
  }

  /** `load_checkpoint`: rebuilds the checkpoint and compares the whole digest. */
  function LoadRow(hash: Bytes -> Hash, id: Bytes, row: Row): Result<Checkpoint, StorageError> {
    if |row.payload| > MAX_CHECKPOINT_BYTES then Failure(Database)
    else if row.sequence < 0 then Failure(Corrupt)
    else
      var c := Checkpoint(id, row.sequence, row.schema, row.payload);
      if !ValidCheckpoint(c) then Failure(Corrupt)
      else if |row.digest| != 32 then Failure(Corrupt)
      else if row.digest != hash(Preimage(c)) then
        Failure(ChecksumMismatch(DigestChecksum(row.digest), DigestChecksum(hash(Preimage(c)))))
      else Success(c)
  }

  function Lookup(hash: Bytes -> Hash, rows: Table): Checkpoint -> Known {
    (c: Checkpoint) =>
      if c.id !in rows then Success(None)
      else
        var loaded := LoadRow(hash, c.id, rows[c.id]);
        if loaded.Failure? then Failure(loaded.error) else Success(Some(loaded.value == c))
  }

  /** The row a checkpoint is stored as. */
  function Stored(hash: Bytes -> Hash, c: Checkpoint): Row {
    Row(AsI64(c.sequence), c.schema, c.payload, hash(Preimage(c)))
  }

  /** Storing and loading a valid checkpoint gives it back: the signed casts lose nothing. */
  lemma StoredLoads(hash: Bytes -> Hash, c: Checkpoint)
    requires ValidCheckpoint(c)
    ensures LoadRow(hash, c.id, Stored(hash, c)) == Success(c)
  {
    AsI64Lossless(c.sequence);
  }

  /** A row loads as `c` exactly if it says `c` without loss, `c` is valid and the whole digest is that of `c`. */
  lemma LoadsExactly(hash: Bytes -> Hash, id: Bytes, row: Row, c: Checkpoint)
    ensures LoadRow(hash, id, row) == Success(c) <==>
            && c.id == id && row.sequence == c.sequence && row.schema == c.schema && row.payload == c.payload
            && InBounds(c) && row.digest == hash(Preimage(c))
  {
    hide Preimage;
  }

  /** Otherwise: an overlong payload is refused unread, contents that are no checkpoint and digests of a wrong
      length are corrupt, and any other digest is told apart by both checksums. */
  lemma LoadRefuses(hash: Bytes -> Hash, id: Bytes, row: Row)
    ensures
      var r := LoadRow(hash, id, row);
      if |row.payload| > 16 * 1024 * 1024 then r == Failure(Database)
      else if row.sequence < 0 || !InBounds(Checkpoint(id, row.sequence, row.schema, row.payload)) || |row.digest| != 32
      then r == Failure(Corrupt)
      else
        var computed := hash(Preimage(Checkpoint(id, row.sequence, row.schema, row.payload)));
        row.digest != computed ==>
          r == Failure(ChecksumMismatch(FromBigEndian(row.digest[..4]), FromBigEndian(computed[..4])))
  {
    hide Preimage, FromBigEndian;
  }

  /** Metadata is a status exactly if all of it is in range and the schema boundary does not lie ahead. */
  lemma StatusExactly(meta: Meta, status: Status)
    ensures CheckedStatus(meta) == Success(status) <==>
            && meta.highest == status.sequence && meta.schema == status.schema
            && meta.schemaSequence == status.schemaSequence
            && status.schema > 0 && status.schemaSequence <= status.sequence
    ensures CheckedStatus(meta).Failure? ==> CheckedStatus(meta).error == Corrupt
  {
  }

  /**
   A row whose digest was computed for `c` loads as `c` or not at all, whatever else was changed
   in it or under whichever identity it is found, provided the hash keeps the two preimages apart.
   */
  lemma {:induction false} TamperingDetected(hash: Bytes -> Hash, c: Checkpoint, id: Bytes, row: Row)
    requires ValidCheckpoint(c) && row.digest == hash(Preimage(c))
    requires LoadRow(hash, id, row).Success?
    requires hash(Preimage(LoadRow(hash, id, row).value)) == hash(Preimage(c)) ==>
               Preimage(LoadRow(hash, id, row).value) == Preimage(c)
    ensures LoadRow(hash, id, row).value == c && id == c.id && row == Stored(hash, c)
  {
    PreimageInjective(LoadRow(hash, id, row).value, c);
    AsI64Lossless(c.sequence);
  }

  // ---------------------------------------------------------------- rows as a store

  ghost predicate RowsMatch(hash: Bytes -> Hash, rows: Table, checkpoints: Retained) {
    && rows.Keys == checkpoints.Keys
    && forall id | id in rows :: checkpoints[id].id == id && rows[id] == Stored(hash, checkpoints[id])
  }

  ghost predicate MetaMatches(meta: Meta, status: Status) {
    && meta.highest == status.sequence && meta.schema == status.schema
    && meta.schemaSequence == status.schemaSequence
  }

  lemma StatusLoads(meta: Meta, s: Store)
    requires WellFormed(s) && MetaMatches(meta, s.status)
    ensures CheckedStatus(meta) == Success(s.status)
  {
  }

  lemma LookupAgrees(hash: Bytes -> Hash, rows: Table, s: Store, c: Checkpoint)
    requires WellFormed(s) && RowsMatch(hash, rows, s.checkpoints)
    ensures Lookup(hash, rows)(c) == Knows(s.checkpoints)(c)
  {
    if c.id in rows {
      StoredLoads(hash, s.checkpoints[c.id]);
    }
  }

  lemma {:induction false} SameRefusal(batch: seq<Checkpoint>, a: Checkpoint -> Known, b: Checkpoint -> Known, i: nat)
    requires forall c :: a(c) == b(c)
    ensures FirstRefusal(batch, a, i) == FirstRefusal(batch, b, i)
    decreases |batch| - i
  {
    if i < |batch| {
      SameRefusal(batch, a, b, i + 1);
    }
  }

  lemma {:induction false} SameCount(batch: seq<Checkpoint>, a: Checkpoint -> Known, b: Checkpoint -> Known, n: nat)
    requires n <= |batch| && forall c :: a(c) == b(c)
    ensures CountKnown(batch, a, n) == CountKnown(batch, b, n)
  {
    if n > 0 {
      SameCount(batch, a, b, n - 1);
    }
  }

  lemma SameDecision(hash: Bytes -> Hash, rows: Table, s: Store, expected: U64, batch: seq<Checkpoint>)
    requires WellFormed(s) && RowsMatch(hash, rows, s.checkpoints)
    ensures Decision(s.status, expected, batch, Lookup(hash, rows)) ==
        Decision(s.status, expected, batch, Knows(s.checkpoints))
  {
    forall c {:trigger Lookup(hash, rows)(c)}
      ensures Lookup(hash, rows)(c) == Knows(s.checkpoints)(c)
    {
      LookupAgrees(hash, rows, s, c);
    }
    SameRefusal(batch, Lookup(hash, rows), Knows(s.checkpoints), 0);
    SameCount(batch, Lookup(hash, rows), Knows(s.checkpoints), |batch|);
  }

  // ---------------------------------------------------------------- SQL statements

  /** INSERT under the table's constraints: unique identity, unique positive sequence, schema, digest length. */
  method InsertRow(rows: Table, id: Bytes, row: Row) returns (r: Result<Table, StorageError>)
    ensures r.Success? <==>
            id !in rows && row.sequence > 0 && row.schema > 0 && |row.digest| == 32 &&
            forall k | k in rows :: rows[k].sequence != row.sequence
    ensures r.Success? ==> r.value == rows[id := row]
    ensures r.Failure? ==> r.error == Database
  {
    if id in rows || row.sequence <= 0 || row.schema == 0 || |row.digest| != 32 {
      return Failure(Database);
    }
    var pending := rows.Keys;
    while pending != {}
      invariant pending <= rows.Keys
      invariant forall k | k in rows && k !in pending :: rows[k].sequence != row.sequence
    {
      var k :| k in pending;
      if rows[k].sequence == row.sequence {
        return Failure(Database);
      }
      pending := pending - {k};
    }
    r := Success(rows[id := row]);
  }

  /** UPDATE of the metadata record under its constraints. */
  method UpdateMeta(meta: Meta) returns (r: Result<Meta, StorageError>)
    ensures r == if meta.highest >= 0 && 0 < meta.schema < U32_LIMIT && 0 <= meta.schemaSequence <= meta.highest
                 then Success(meta) else Failure(Database)
  {
    if meta.highest < 0 || meta.schema <= 0 || meta.schema >= U32_LIMIT ||
       meta.schemaSequence < 0 || meta.schemaSequence > meta.highest {
      return Failure(Database);
    }
    r := Success(meta);
  }

  ghost function AtOrAbove(rows: Table, boundary: I64): Table {
    map id | id in rows && rows[id].sequence >= boundary :: rows[id]
  }

  /** DELETE of every row below the boundary. */
  method DeleteBelow(rows: Table, boundary: I64) returns (kept: Table)
    ensures kept == AtOrAbove(rows, boundary)
  {
    kept := rows;
    var pending := rows.Keys;
    while pending != {}
      invariant pending <= kept.Keys <= rows.Keys
      invariant forall id | id in kept :: kept[id] == rows[id]
      invariant forall id | id in rows && id !in pending :: id in kept <==> rows[id].sequence >= boundary
    {
      var id :| id in pending;
      pending := pending - {id};
      if kept[id].sequence < boundary {
        kept := kept - {id};
      }
    }
  }

  /** The retained checkpoints neither name nor number any checkpoint of the batch from `i` on. */
  ghost predicate Awaits(checkpoints: Retained, batch: seq<Checkpoint>, i: nat) {
    && (forall k | i <= k < |batch| :: batch[k].id !in checkpoints)
    && (forall id, k | id in checkpoints && i <= k < |batch| :: checkpoints[id].sequence < batch[k].sequence)
    && forall id | id in checkpoints :: checkpoints[id].sequence <= I64_MAX
  }

  /** The next insertion of a valid batch meets every constraint of the table. */
  lemma InsertOne(hash: Bytes -> Hash, rows: Table, checkpoints: Retained, previous: U64, batch: seq<Checkpoint>,
        i: nat)
    requires RowsMatch(hash, rows, checkpoints) && Awaits(checkpoints, batch, i)
    requires i < |batch| && Increasing(previous, batch, |batch|)
    ensures var c, row := batch[i], Stored(hash, batch[i]);
      && c.id !in rows && row.sequence > 0 && row.schema > 0 && |row.digest| == 32
      && (forall k | k in rows :: rows[k].sequence != row.sequence)
      && RowsMatch(hash, rows[c.id := row], checkpoints[c.id := c])
      && Awaits(checkpoints[c.id := c], batch, i + 1)
  {
  }

  lemma InsertedNothing(checkpoints: Retained)
    ensures Inserted(checkpoints, []) == checkpoints
  {
  }

  lemma InsertedNext(checkpoints: Retained, batch: seq<Checkpoint>, i: nat)
    requires i < |batch|
    ensures Inserted(checkpoints, batch[..i + 1]) == Inserted(checkpoints, batch[..i])[batch[i].id := batch[i]]
  {
    assert batch[..i + 1][..i] == batch[..i];
  }

  // ---------------------------------------------------------------- the store

  class CheckpointStore {
    const hash: Bytes -> Hash
    var rows: Table
    var meta: Meta
    ghost var model: Store

    ghost predicate Valid()
      reads this
    {
      && WellFormed(model)
      && RowsMatch(hash, rows, model.checkpoints)
      && model.status.sequence <= I64_MAX
      && MetaMatches(meta, model.status)
    }

    constructor (hash: Bytes -> Hash)
      ensures Valid() && model == EMPTY && this.hash == hash
    {
      this.hash := hash;
      rows := map[];
      meta := Meta(0, 1, 0);
      model := EMPTY;
    }

    /** `status`: never corrupt in a reachable store. */
    method ReadStatus() returns (r: Result<Status, StorageError>)
      requires Valid()
      ensures r == Success(model.status)
    {
      StatusLoads(meta, model);
      r := CheckedStatus(meta);
    }

    /** `load`: a reachable store returns exactly what is retained, without any error. */
    method Load(id: Bytes) returns (r: Result<Option<Checkpoint>, StorageError>)
      requires Valid()
      ensures r == Success(if id in model.checkpoints then Some(model.checkpoints[id]) else None)
    {
      if id !in rows {
        return Success(None);
      }
      StoredLoads(hash, model.checkpoints[id]);
      var loaded := LoadRow(hash, id, rows[id]);
      r := match loaded case Success(c) => Success(Some(c)) case Failure(error) => Failure(error);
    }

    /** The insert loop of a transaction: in a reachable store no constraint ever fires. */
    method InsertBatch(batch: seq<Checkpoint>) returns (r: Result<Table, StorageError>)
      requires Valid() && Increasing(model.status.sequence, batch, |batch|)
      requires forall i | 0 <= i < |batch| :: batch[i].id !in model.checkpoints
      ensures r.Success? && RowsMatch(hash, r.value, Inserted(model.checkpoints, batch))
    {
      var table := rows;
      ghost var checkpoints := model.checkpoints;
      assert batch[..0] == [] && batch[..|batch|] == batch;
      assert Awaits(checkpoints, batch, 0);
      hide RowsMatch, Awaits, WellFormed, MetaMatches, Increasing, Inserted;
      InsertedNothing(model.checkpoints);
      for i := 0 to |batch|
        invariant checkpoints == Inserted(model.checkpoints, batch[..i])
        invariant RowsMatch(hash, table, checkpoints) && Awaits(checkpoints, batch, i)
      {
        var checkpoint := batch[i];
        InsertedNext(model.checkpoints, batch, i);
        InsertOne(hash, table, checkpoints, model.status.sequence, batch, i);
        var digest := Digest(checkpoint, hash);
        var inserted := InsertRow(table, checkpoint.id,
            Row(AsI64(checkpoint.sequence), checkpoint.schema, checkpoint.payload, digest));
        match inserted {
          case Success(grown) => table := grown;
          case Failure(error) => return Failure(error);
        }
        checkpoints := checkpoints[checkpoint.id := checkpoint];
      }
      r := Success(table);
    }

    /** `append`: exactly the abstract step without any quota. */
    method Append(expected: U64, batch: seq<Checkpoint>) returns (r: Result<AppendOutcome, StorageError>)
      requires Valid()
      modifies this
      ensures Valid()
      ensures (model, Appended(r)) == Step(None, old(model), Operation.Append(expected, batch))
    {
      StepWellFormed(None, model, Operation.Append(expected, batch));
      SameDecision(hash, rows, model, expected, batch);
      if AppendResult(None, model, expected, batch) == Success(Committed) {
        CommitMeans(None, model, expected, batch);
        BatchBounds(expected, batch);
      }
      hide WellFormed, RowsMatch, GoodBatch, Decision, Increasing;
      var good := ValidateBatch(expected, batch);
      if !good {
        return Failure(Invalid);
      }
      var read := ReadStatus();
      match read
      case Failure(error) => return Failure(error);
      case Success(status) =>
      r := ValidateAppend(status, expected, batch, Lookup(hash, rows));
      if r != Success(Committed) {
        return;
      }
      var inserted := InsertBatch(batch);
      match inserted
      case Failure(error) => return Failure(error);
      case Success(table) =>
      var written := UpdateMeta(meta.(highest := AsI64(batch[|batch| - 1].sequence)));
      match written
      case Failure(error) => return Failure(error);
      case Success(updated) =>
      rows, meta := table, updated;
      model := CommittedBatch(model, batch);
    }

    /** `migrate_schema`. */
    method MigrateSchema(current: U32, next: U32) returns (r: Result<Status, StorageError>)
      requires Valid()
      modifies this
      ensures Valid()
      ensures (model, Migrated(r)) == Step(None, old(model), Migrate(current, next))
    {
      StepWellFormed(None, model, Migrate(current, next));
      if current == 0 || next <= current {
        return Failure(Invalid);
      }
      var read := ReadStatus();
      match read
      case Failure(error) => return Failure(error);
      case Success(status) =>
      r := Migration(status, current, next);
      if r.Failure? {
        return;
      }
      var written := UpdateMeta(Meta(meta.highest, next, meta.highest));
      match written
      case Failure(error) => return Failure(error);
      case Success(updated) =>
      meta := updated;
      model := model.(status := r.value);
    }

    /** The rows a compaction leaves and its answer: nothing is touched above the signed range. */
    method CompactRows(boundary: U64) returns (kept: Table, r: Result<CompactionOutcome, StorageError>)
      requires Valid()
      ensures RowsMatch(hash, kept, CompactedStore(model, boundary).checkpoints)
      ensures r == CompactionAnswer(model, boundary)
    {
      if boundary > I64_MAX {
        return rows, Failure(Invalid);
      }
      kept := DeleteBelow(rows, boundary);
      KeptMatch(hash, rows, model, boundary, kept);
      hide RowsMatch, WellFormed, MetaMatches, AtOrAbove, KeptFrom;
      var read := ReadStatus();
      match read
      case Failure(error) => return kept, Failure(error);
      case Success(status) =>
      r := Success(CompactionOutcome(|rows| - |kept|, |kept|, status.sequence));
    }

    /** `compact`. */
    method Compact(boundary: U64) returns (r: Result<CompactionOutcome, StorageError>)
      requires Valid()
      modifies this
      ensures Valid()
      ensures (model, Compacted(r)) == Step(None, old(model), Operation.Compact(boundary))
    {
      var kept;
      kept, r := CompactRows(boundary);
      CompactMeans(None, model, boundary);
      hide WellFormed, RowsMatch, MetaMatches, KeptFrom, Step, WithinLimits, CompactionAnswer;
      rows := kept;
      model := CompactedStore(model, boundary);
    }
  }

  lemma BatchBounds(expected: U64, batch: seq<Checkpoint>)
    requires GoodBatch(expected, batch)
    ensures batch != [] && Increasing(expected, batch, |batch|)
    ensures expected < batch[|batch| - 1].sequence <= I64_MAX
  {
  }

  /** Deleting rows below the boundary is compacting the store they stand for. */
  lemma KeptMatch(hash: Bytes -> Hash, rows: Table, s: Store, boundary: U64, kept: Table)
    requires WellFormed(s) && RowsMatch(hash, rows, s.checkpoints) && boundary <= I64_MAX
    requires kept == AtOrAbove(rows, boundary)
    ensures RowsMatch(hash, kept, KeptFrom(s.checkpoints, boundary))
    ensures |rows| == |s.checkpoints| && |kept| == |KeptFrom(s.checkpoints, boundary)| <= |rows|
  {
    KeptRows(hash, rows, s, boundary);
    hide RowsMatch, WellFormed, AtOrAbove;
    RowCount(hash, rows, s.checkpoints);
    RowCount(hash, kept, KeptFrom(s.checkpoints, boundary));
    RemovedCount(s.checkpoints, KeptFrom(s.checkpoints, boundary));
  }

  lemma KeptRows(hash: Bytes -> Hash, rows: Table, s: Store, boundary: U64)
    requires WellFormed(s) && RowsMatch(hash, rows, s.checkpoints) && boundary <= I64_MAX
    ensures RowsMatch(hash, AtOrAbove(rows, boundary), KeptFrom(s.checkpoints, boundary))
  {
    var after, kept := AtOrAbove(rows, boundary), KeptFrom(s.checkpoints, boundary);
    forall id
      ensures id in after <==> id in kept
      ensures id in after ==> kept[id] == s.checkpoints[id] && after[id] == rows[id]
    {
      if id in rows {
        AsI64Lossless(s.checkpoints[id].sequence);
      }
    }
    assert after.Keys == kept.Keys;
  }

  lemma RowCount(hash: Bytes -> Hash, rows: Table, checkpoints: Retained)
    requires RowsMatch(hash, rows, checkpoints)
    ensures |rows| == |checkpoints|
  {
    assert |rows.Keys| == |rows| && |checkpoints.Keys| == |checkpoints|;
  }
}
