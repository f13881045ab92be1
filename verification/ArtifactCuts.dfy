/** Where a chunk boundary can be seen in a failed stream, and where it cannot. */
module ArtifactCuts {
  import opened Wrappers
  import opened ArtifactStream

  // ---------------------------------------------------------------- chunks that end with a record

  lemma LineEndShifts(front: Bytes, bytes: Bytes, i: nat)
    requires i <= |bytes|
    ensures LineEnd(front + bytes, |front| + i) == |front| + LineEnd(bytes, i)
    decreases |bytes| - i
  {
    if i < |bytes| && bytes[i] != NEWLINE {
      LineEndShifts(front, bytes, i + 1);
    }
  }

  lemma LineEndStays(bytes: Bytes, more: Bytes, i: nat)
    requires i <= |bytes|
    ensures LineEnd(bytes, i) < |bytes| ==> LineEnd(bytes + more, i) == LineEnd(bytes, i)
    decreases |bytes| - i
  {
    if i < |bytes| && bytes[i] != NEWLINE {
      LineEndStays(bytes, more, i + 1);
    }
  }

  /** Reading from behind a front is reading without it. */
  lemma {:induction false} ChunkShifts(e: Environment, core: Core, front: Bytes, bytes: Bytes, i: nat)
    requires i <= |bytes|
    ensures Chunk(e, core, front + bytes, |front| + i) == Chunk(e, core, bytes, i)
    decreases |bytes| - i
  {
    if i < |bytes| {
      var end := LineEnd(bytes, i);
      LineEndShifts(front, bytes, i);
      assert (front + bytes)[|front| + i..|front| + end] == bytes[i..end];
      ChunkUnfolds(e, core, bytes, i);
      ChunkUnfolds(e, core, front + bytes, |front| + i);
      hide Chunk, Recorded, LineEnd;
      var next := Recorded(e, core.(pending := []), core.pending + bytes[i..end]);
      if end < |bytes| && next.1 {
        ChunkShifts(e, next.0, front, bytes, end + 1);
      }
    }
  }

  /** Nothing, or bytes that end with a newline. */
  ghost predicate WholeLines(bytes: Bytes) {
    bytes != [] ==> bytes[|bytes| - 1] == NEWLINE
  }

  ghost function ChunkOn(e: Environment, read: (Core, bool), bytes: Bytes): (Core, bool) {
    if read.1 then Chunk(e, read.0, bytes, 0) else read
  }

  lemma WholeLinesEnd(lines: Bytes, i: nat)
    requires WholeLines(lines) && i < |lines|
    ensures LineEnd(lines, i) < |lines|
  {
    assert lines[i..][|lines| - 1 - i] == NEWLINE;
    assert NEWLINE in lines[i..];
  }

  /** A cut behind a newline is never seen. */
  lemma {:induction false} CutBetweenRecords(e: Environment, core: Core, lines: Bytes, bytes: Bytes, i: nat)
    requires WholeLines(lines) && i <= |lines|
    ensures Chunk(e, core, lines + bytes, i) == ChunkOn(e, Chunk(e, core, lines, i), bytes)
    decreases |lines| - i
  {
    if i == |lines| {
      ChunkShifts(e, core, lines, bytes, 0);
    } else {
      WholeLinesEnd(lines, i);
      LineEndStays(lines, bytes, i);
      var end := LineEnd(lines, i);
      assert (lines + bytes)[i..end] == lines[i..end];
      ChunkUnfolds(e, core, lines, i);
      ChunkUnfolds(e, core, lines + bytes, i);
      hide Chunk, Recorded, LineEnd;
      var next := Recorded(e, core.(pending := []), core.pending + lines[i..end]);
      if next.1 {
        CutBetweenRecords(e, next.0, lines, bytes, end + 1);
      }
    }
  }

  /** After accepted whole lines nothing is pending. */
  lemma {:induction false} NothingPending(e: Environment, core: Core, lines: Bytes, i: nat)
    requires WholeLines(lines) && i <= |lines| && (i == |lines| ==> core.pending == [])
    ensures Chunk(e, core, lines, i).1 ==> Chunk(e, core, lines, i).0.pending == []
    decreases |lines| - i
  {
    if i < |lines| {
      WholeLinesEnd(lines, i);
      ChunkUnfolds(e, core, lines, i);
      hide Chunk, Recorded;
      var end := LineEnd(lines, i);
      RecordedPending(e, core.(pending := []), core.pending + lines[i..end]);
      var next := Recorded(e, core.(pending := []), core.pending + lines[i..end]);
      if next.1 {
        NothingPending(e, next.0, lines, end + 1);
      }
    }
  }

  // ---------------------------------------------------------------- a cut inside a record

  lemma LineEndWithout(bytes: Bytes, i: nat)
    requires i <= |bytes| && NEWLINE !in bytes[i..]
    ensures LineEnd(bytes, i) == |bytes|
  {
    assert forall k | 0 <= k < |bytes| - i :: bytes[i..][k] == bytes[i + k];
  }

  lemma {:induction false} LineEndAfter(content: Bytes, bytes: Bytes)
    requires NEWLINE !in content
    ensures LineEnd(content + bytes, 0) == |content| + LineEnd(bytes, 0)
    decreases |content|
  {
    LineEndShifts(content, bytes, 0);
    LineEndSkips(content, bytes, 0);
  }

  lemma {:induction false} LineEndSkips(content: Bytes, bytes: Bytes, i: nat)
    requires NEWLINE !in content && i <= |content|
    ensures LineEnd(content + bytes, i) == LineEnd(content + bytes, |content|)
    decreases |content| - i
  {
    if i < |content| {
      assert (content + bytes)[i] == content[i] && content[i] in content;
      LineEndSkips(content, bytes, i + 1);
    }
  }

  /** The rest of the record the cut goes through does not fit any more. */
  ghost predicate Overflows(core: Core, tail: Bytes, bytes: Bytes) {
    tail != [] && LineEnd(bytes, 0) > MAX_RECORD_BYTES - |core.pending + tail|
  }

  lemma TailChunk(e: Environment, core: Core, tail: Bytes)
    requires NEWLINE !in tail && |core.pending| <= MAX_RECORD_BYTES
    ensures Chunk(e, core, tail, 0) ==
            if |tail| > MAX_RECORD_BYTES - |core.pending| then (core, false)
            else (core.(pending := core.pending + tail), true)
  {
    if tail == [] {
      assert core.pending + tail == core.pending;
    } else {
      assert tail[0..] == tail && tail[0..|tail|] == tail;
      LineEndWithout(tail, 0);
    }
  }

  /** Reading a whole record and reading it in two parts: the same, or overlong with different bytes kept. */
  lemma CutInRecord(e: Environment, core: Core, tail: Bytes, bytes: Bytes)
    requires NEWLINE !in tail && |core.pending| <= MAX_RECORD_BYTES
    ensures
      var whole, first := Chunk(e, core, tail + bytes, 0), Chunk(e, core, tail, 0);
      var parts := ChunkOn(e, first, bytes);
      if first.1 && Overflows(core, tail, bytes) then
        !whole.1 && !parts.1 && whole.0.pending == core.pending && parts.0.pending == core.pending + tail
      else whole == parts
  {
    TailChunk(e, core, tail);
    LineEndAfter(tail, bytes);
    var end := LineEnd(bytes, 0);
    if tail + bytes != [] {
      ChunkUnfolds(e, core, tail + bytes, 0);
    }
    if bytes != [] && |tail| <= MAX_RECORD_BYTES - |core.pending| {
      var filled := core.(pending := core.pending + tail);
      ChunkUnfolds(e, filled, bytes, 0);
      assert (tail + bytes)[0..|tail| + end] == tail + bytes[0..end];
      assert core.pending + (tail + bytes[0..end]) == filled.pending + bytes[0..end];
      assert filled.(pending := []) == core.(pending := []);
      hide Chunk, Recorded, LineEnd;
      var next := Recorded(e, core.(pending := []), filled.pending + bytes[0..end]);
      if end < |bytes| && next.1 {
        ChunkShifts(e, next.0, tail, bytes, end + 1);
      }
    } else if bytes == [] {
      assert tail + bytes == tail;
    }
  }

  // ---------------------------------------------------------------- the pending bytes

  lemma {:induction false} PrintedWhole(records: seq<Bytes>)
    ensures WholeLines(Printed(records))
    ensures Printed(records) == [] <==> records == []
  {
  }

  /** What is pending after accepted bytes: what follows their last newline, or everything if they have none. */
  ghost function PendingOnto(core: Core, bytes: Bytes): Bytes {
    var f := Framed(bytes);
    if f.records == [] then core.pending + bytes else f.rest
  }

  /** `a` is accepted but ends inside a record, and the rest of that record in `b` makes it overlong. */
  ghost predicate CutsOverlong(e: Environment, core: Core, a: Bytes, b: Bytes) {
    && Feed(e, core, a).1.Accepted? && Framed(a).rest != []
    && LineEnd(b, 0) > MAX_RECORD_BYTES - |PendingOnto(core, a)|
  }

  lemma FramedParts(bytes: Bytes)
    ensures var f := Framed(bytes);
      && bytes == Printed(f.records) + f.rest && NEWLINE !in f.rest && WholeLines(Printed(f.records))
      && (f.records == [] ==> bytes == f.rest)
  {
    FramedPrints(bytes);
    PrintedWhole(Framed(bytes).records);
  }

  /** One chunk or two: the same outcome, failures included, unless the cut goes through an overlong record. */
  lemma ChunkCut(e: Environment, core: Core, a: Bytes, b: Bytes)
    requires |core.pending| <= MAX_RECORD_BYTES
    ensures
      var whole, parts := Chunk(e, core, a + b, 0), ChunkOn(e, Chunk(e, core, a, 0), b);
      if CutsOverlong(e, core, a, b) then whole.0.pending != parts.0.pending && !whole.1 && !parts.1
      else whole == parts
    ensures Chunk(e, core, a, 0).1 ==> Chunk(e, core, a, 0).0.pending == PendingOnto(core, a)
  {
    var f := Framed(a);
    FramedParts(a);
    WholeChunk(e, core, a);
    var lines := Printed(f.records);
    assert a + b == lines + (f.rest + b);
    var before := Chunk(e, core, lines, 0);
    CutBetweenRecords(e, core, lines, f.rest + b, 0);
    CutBetweenRecords(e, core, lines, f.rest, 0);
    WholeChunk(e, core, lines);
    PrintedWhole(f.records);
    if lines != [] {
      NothingPending(e, core, lines, 0);
    } else {
      assert before == (core, true);
    }
    hide Chunk, Feed, LineEnd, Framed, Printed;
    if before.1 {
      CutInRecord(e, before.0, f.rest, b);
      TailChunk(e, before.0, f.rest);
      assert [] + f.rest == f.rest;
    }
  }

  /** Accepted or refused, what is pending after `a` is still what was pending before it. */
  ghost predicate StillPending(e: Environment, core: Core, a: Bytes) {
    match Feed(e, core, a).1
    case Accepted => PendingOnto(core, a) == core.pending
    case Rejected => core.pending == []
    case Overlong => core.pending == [] || LineEnd(a, 0) > MAX_RECORD_BYTES - |core.pending|
  }

  /** An overlong chunk keeps nothing of its own unless the overlong record is the first one. */
  lemma {:induction false} OverlongKeeps(e: Environment, core: Core, bytes: Bytes, i: nat)
    requires i <= |bytes| && |core.pending| <= MAX_RECORD_BYTES
    requires Feed(e, core, bytes[i..]).1.Overlong?
    ensures i < |bytes|
    ensures Chunk(e, core, bytes, i).0.pending ==
            if LineEnd(bytes, i) - i > MAX_RECORD_BYTES - |core.pending| then core.pending else []
    decreases |bytes| - i
  {
    FeedNothing(e, core);
    NothingAfterTheEnd(bytes, i);
    FragmentReads(e, core, bytes, i);
    ChunkUnfolds(e, core, bytes, i);
    var end := LineEnd(bytes, i);
    var content := bytes[i..end];
    var filled := core.(pending := core.pending + content);
    if |content| <= MAX_RECORD_BYTES - |core.pending| {
      FeedNothing(e, filled);
      NothingAfterTheEnd(bytes, end);
      ChunkRecords(e, filled, bytes, end);
      assert filled.(pending := []) == core.(pending := []);
      hide Chunk, Feed, Recorded, LineEnd;
      var next := Recorded(e, core.(pending := []), core.pending + content);
      OverlongKeeps(e, next.0, bytes, end + 1);
    }
  }

  lemma NothingAfterTheEnd(bytes: Bytes, i: nat)
    requires i <= |bytes|
    ensures i == |bytes| ==> bytes[i..] == []
  {
  }

  lemma PendingKept(e: Environment, core: Core, a: Bytes)
    requires |core.pending| <= MAX_RECORD_BYTES
    ensures Chunk(e, core, a, 0).0.pending == core.pending <==> StillPending(e, core, a)
  {
    WholeChunk(e, core, a);
    ChunkCut(e, core, a, []);
    assert a[0..] == a;
    if Feed(e, core, a).1.Overlong? {
      OverlongKeeps(e, core, a, 0);
    }
    hide Chunk, Feed, LineEnd, PendingOnto;
  }

  /**
   Exactly when a cut can be seen in the pending bytes. Within the stream budget: when `a` is
   accepted and ends inside a record that `b` makes overlong. Over it: when `a` fits and changes what
   is pending, since the whole is refused before anything is read.
   */
  lemma PendingAgreesExactly(e: Environment, s: Stream, a: Bytes, b: Bytes)
    requires Valid(s) && !s.failed
    ensures
      Observed(e, s, a + b).core.pending == Observed(e, Observed(e, s, a), b).core.pending <==>
      if Fits(s, a + b) then !CutsOverlong(e, s.core, a, b) else !Fits(s, a) || StillPending(e, s.core, a)
  {
    ChunkCut(e, s.core, a, b);
    PendingKept(e, s.core, a);
    CutAnywhere(e, s, a, b);
    hide Chunk, Feed, LineEnd, StillPending, CutsOverlong;
  }

  /** A record one byte too long, whole and in two parts: both fail, with different bytes pending. */
  lemma PendingShowsTheCut(e: Environment)
    ensures exists a, b ::
              var whole, parts := Observed(e, START, a + b), Observed(e, Observed(e, START, a), b);
              whole.failed && parts.failed && whole.core.pending != parts.core.pending
  {
    var a: Bytes, b: Bytes := [0], seq(MAX_RECORD_BYTES, _ => 0);
    assert NEWLINE !in b && Feed(e, FRESH, a[..0]) == (FRESH, Accepted);
    assert b[0..] == b;
    LineEndWithout(b, 0);
    assert Framed(a[..0]) == Framing([], []) && Framed(a).rest == a;
    assert PendingOnto(FRESH, a) == a;
    assert CutsOverlong(e, FRESH, a, b);
    PendingAgreesExactly(e, START, a, b);
    ChunkCut(e, FRESH, a, b);
    var whole, parts := Observed(e, START, a + b), Observed(e, Observed(e, START, a), b);
    CutAnywhere(e, START, a, b);
    hide Chunk, Feed, CutsOverlong, Framed;
    assert whole.failed && parts.failed && whole.core.pending != parts.core.pending;
  }

  // ---------------------------------------------------------------- harnesses and the finished flag

  /** The records completed by these bytes, the first one begun by what was pending. */
  ghost function Completed(core: Core, bytes: Bytes): seq<Bytes> {
    Framed(core.pending + bytes).records
  }

  /** Records admitted one after another, stopping at the first overlong or rejected one. */
  ghost function Processed(e: Environment, core: Core, records: seq<Bytes>): (Core, bool) {
    if records == [] then (core, true)
    else
      var before, last := Processed(e, core, records[..|records| - 1]), records[|records| - 1];
      if !before.1 || |last| > MAX_RECORD_BYTES then (before.0, false) else Recorded(e, before.0, last)
  }

  lemma ProcessedStep(e: Environment, core: Core, records: seq<Bytes>, record: Bytes)
    ensures Processed(e, core, records + [record]) ==
            var before := Processed(e, core, records);
            if !before.1 || |record| > MAX_RECORD_BYTES then (before.0, false) else Recorded(e, before.0, record)
  {
    assert (records + [record])[..|records|] == records;
  }

  /** What has been read is what processing the completed records left, with the bytes after them pending. */
  ghost predicate Follows(read: (Core, Verdict), done: (Core, bool), rest: Bytes) {
    && (read.1.Accepted? <==> done.1 && |rest| <= MAX_RECORD_BYTES)
    && (read.1.Accepted? ==> read.0 == done.0.(pending := rest))
    && Unpended(read.0) == done.0
  }

  lemma FollowsNewline(e: Environment, read: (Core, Verdict), done: (Core, bool), rest: Bytes)
    requires Follows(read, done, rest)
    ensures Follows(FeedOne(e, read, NEWLINE),
                    if !done.1 || |rest| > MAX_RECORD_BYTES then (done.0, false) else Recorded(e, done.0, rest), [])
  {
    RecordedPending(e, done.0, rest);
    assert done.0.(pending := rest).(pending := []) == done.0;
    hide Recorded;
  }

  lemma FollowsByte(e: Environment, read: (Core, Verdict), done: (Core, bool), rest: Bytes, last: Byte)
    requires Follows(read, done, rest) && last != NEWLINE
    ensures Follows(FeedOne(e, read, last), done, rest + [last])
  {
  }

  /** Accepted or not, reading leaves what processing the completed records leaves, up to pending bytes. */
  lemma {:induction false} FeedFollows(e: Environment, core: Core, bytes: Bytes)
    requires core.pending == []
    ensures Follows(Feed(e, core, bytes), Processed(e, core, Framed(bytes).records), Framed(bytes).rest)
  {
    if bytes != [] {
      var init, last := bytes[..|bytes| - 1], bytes[|bytes| - 1];
      FeedFollows(e, core, init);
      var f := Framed(init);
      assert bytes == init + [last];
      FramedStep(init, last);
      hide Follows, FeedOne, Recorded;
      if last == NEWLINE {
        FollowsNewline(e, Feed(e, core, init), Processed(e, core, f.records), f.rest);
        ProcessedStep(e, core, f.records, f.rest);
      } else {
        FollowsByte(e, Feed(e, core, init), Processed(e, core, f.records), f.rest, last);
      }
    }
  }

  /** The same for a chunk that continues a record already begun. */
  lemma ChunkFollows(e: Environment, core: Core, bytes: Bytes)
    requires |core.pending| <= MAX_RECORD_BYTES && NEWLINE !in core.pending
    ensures Unpended(Chunk(e, core, bytes, 0).0) == Processed(e, Unpended(core), Completed(core, bytes)).0
  {
    WholeChunk(e, core, bytes);
    FeedContent(e, Unpended(core), core.pending);
    FeedConcat(e, Unpended(core), core.pending, bytes);
    assert [] + core.pending == core.pending;
    assert Unpended(core).(pending := core.pending) == core;
    FeedFollows(e, Unpended(core), core.pending + bytes);
    hide Chunk, Feed, Processed, Framed;
  }

  /** The `k`-th record is reached, is short enough, and is an admitted selected artifact. */
  ghost predicate AdmitsAt(e: Environment, core: Core, records: seq<Bytes>, k: nat)
    requires k < |records|
  {
    var before := Processed(e, core, records[..k]);
    before.1 && |records[k]| <= MAX_RECORD_BYTES && Admits(e, before.0, records[k])
  }

  /** An admitted selected artifact: a new test target whose harness is admitted, current, new and notified. */
  ghost predicate Admits(e: Environment, core: Core, record: Bytes) {
    && !core.buildFinished && e.parse(record).Some?
    && var artifact := e.parse(record).value;
    && artifact.Artifact? && e.selected(artifact) && artifact.test
    && TargetOf(artifact).Some? && TargetOf(artifact).value !in core.targets && |core.harnesses| < MAX_HARNESSES
    && e.admit(core.manifests, artifact).Some?
    && var harness := e.admit(core.manifests, artifact).value;
    && (e.requireFreshMain && harness.package == "terlan" && harness.kind == "lib" ==> artifact.upToDate)
    && e.canonical(harness.executable).Some? && e.canonical(harness.executable).value !in core.executables
    && e.notified(harness)
  }

  /** Some completed record, all before it accepted, is an admitted selected artifact. */
  ghost predicate AdmitsSome(e: Environment, core: Core, records: seq<Bytes>) {
    exists k :: 0 <= k < |records| && AdmitsAt(e, core, records, k)
  }

  /** The `k`-th record is reached, is short enough, and reports the build finished. */
  ghost predicate FinishesAt(e: Environment, core: Core, records: seq<Bytes>, k: nat)
    requires k < |records|
  {
    var before := Processed(e, core, records[..k]);
    && before.1 && |records[k]| <= MAX_RECORD_BYTES && !before.0.buildFinished
    && e.parse(records[k]) == Some(BuildFinished(true))
  }

  ghost predicate FinishesSome(e: Environment, core: Core, records: seq<Bytes>) {
    exists k :: 0 <= k < |records| && FinishesAt(e, core, records, k)
  }

  lemma RecordedShows(e: Environment, core: Core, record: Bytes)
    ensures var next := Recorded(e, core, record).0;
      && (if Admits(e, core, record) then |next.harnesses| == |core.harnesses| + 1
          else next.harnesses == core.harnesses)
      && core.harnesses <= next.harnesses
      && (next.buildFinished <==>
            core.buildFinished || (!core.buildFinished && e.parse(record) == Some(BuildFinished(true))))
  {
  }

  /** Harnesses only accumulate, and change exactly when some completed record is admitted; so does the flag. */
  lemma {:induction false} ProcessedShows(e: Environment, core: Core, records: seq<Bytes>)
    ensures var after := Processed(e, core, records).0;
      && core.harnesses <= after.harnesses && (core.buildFinished ==> after.buildFinished)
      && (after.harnesses != core.harnesses <==> AdmitsSome(e, core, records))
      && (after.buildFinished != core.buildFinished <==> FinishesSome(e, core, records))
  {
    if records != [] {
      var init, last := records[..|records| - 1], records[|records| - 1];
      ProcessedShows(e, core, init);
      var before := Processed(e, core, init);
      RecordedShows(e, before.0, last);
      SomeStep(e, core, records);
      hide Recorded, Admits, AdmitsSome, FinishesSome;
    }
  }

  lemma SomeStep(e: Environment, core: Core, records: seq<Bytes>)
    requires records != []
    ensures var init := records[..|records| - 1];
      && (AdmitsSome(e, core, records) <==> AdmitsSome(e, core, init) || AdmitsAt(e, core, records, |init|))
      && (FinishesSome(e, core, records) <==> FinishesSome(e, core, init) || FinishesAt(e, core, records, |init|))
  {
    var init := records[..|records| - 1];
    hide Processed, Admits;
    forall k | 0 <= k < |init|
      ensures AdmitsAt(e, core, init, k) <==> AdmitsAt(e, core, records, k)
      ensures FinishesAt(e, core, init, k) <==> FinishesAt(e, core, records, k)
    {
      assert init[..k] == records[..k] && init[k] == records[k];
    }
    hide AdmitsAt, FinishesAt;
    if k :| 0 <= k < |records| && AdmitsAt(e, core, records, k) {
      assert k < |init| ==> AdmitsAt(e, core, init, k);
    }
    if k :| 0 <= k < |records| && FinishesAt(e, core, records, k) {
      assert k < |init| ==> FinishesAt(e, core, init, k);
    }
  }

  /**
   Exactly when a cut can be seen in the harnesses: the whole breaks the stream budget, its first part
   alone does not, and some record completed in that part is an admitted selected artifact.
   */
  lemma HarnessesAgreeExactly(e: Environment, s: Stream, a: Bytes, b: Bytes)
    requires Valid(s) && !s.failed
    ensures
      Observed(e, s, a + b).core.harnesses == Observed(e, Observed(e, s, a), b).core.harnesses <==>
      Fits(s, a + b) || !Fits(s, a) || !AdmitsSome(e, Unpended(s.core), Completed(s.core, a))
  {
    CutAnywhere(e, s, a, b);
    ChunkFollows(e, s.core, a);
    ProcessedShows(e, Unpended(s.core), Completed(s.core, a));
    hide Chunk, Processed, AdmitsSome, FinishesSome, Completed;
  }

  /** Exactly when a cut can be seen in the finished flag: likewise, for a record that reports the build finished. */
  lemma FlagAgreesExactly(e: Environment, s: Stream, a: Bytes, b: Bytes)
    requires Valid(s) && !s.failed
    ensures
      Observed(e, s, a + b).core.buildFinished == Observed(e, Observed(e, s, a), b).core.buildFinished <==>
      Fits(s, a + b) || !Fits(s, a) || !FinishesSome(e, Unpended(s.core), Completed(s.core, a))
  {
    CutAnywhere(e, s, a, b);
    ChunkFollows(e, s.core, a);
    ProcessedShows(e, Unpended(s.core), Completed(s.core, a));
    hide Chunk, Processed, AdmitsSome, FinishesSome, Completed;
  }

  /** One line read alone is one completed record, reached with nothing admitted before it. */
  lemma OneLine(e: Environment, record: Bytes)
    requires NEWLINE !in record && |record| <= MAX_RECORD_BYTES
    ensures Completed(START.core, record + [NEWLINE]) == [record] && Unpended(START.core) == FRESH
    ensures Admits(e, FRESH, record) ==> AdmitsSome(e, FRESH, [record])
    ensures e.parse(record) == Some(BuildFinished(true)) ==> FinishesSome(e, FRESH, [record])
  {
    var a := record + [NEWLINE];
    assert [record][..0] == [] && Printed([record][..0]) == [];
    assert a == Printed([record]) && START.core.pending + a == a;
    PrintedFrames([record]);
    assert Processed(e, FRESH, [record][..0]) == (FRESH, true);
    hide Admits, Printed, Framed;
    assert Admits(e, FRESH, record) ==> AdmitsAt(e, FRESH, [record], 0);
    assert e.parse(record) == Some(BuildFinished(true)) ==> FinishesAt(e, FRESH, [record], 0);
  }

  /**
   Any admitted artifact line, and then more than the stream may hold: both ways fail, and only the
   stream that was cut behind the line keeps the harness.
   */
  lemma HarnessesShowTheCut(e: Environment, record: Bytes, b: Bytes)
    requires NEWLINE !in record && |record| <= MAX_RECORD_BYTES && Admits(e, FRESH, record)
    requires |record| + 1 + |b| > MAX_STREAM_BYTES
    ensures
      var a := record + [NEWLINE];
      var whole, parts := Observed(e, START, a + b), Observed(e, Observed(e, START, a), b);
      whole.failed && parts.failed && whole.core.harnesses != parts.core.harnesses
  {
    var a := record + [NEWLINE];
    OneLine(e, record);
    assert Fits(START, a) && !Fits(START, a + b);
    HarnessesAgreeExactly(e, START, a, b);
    CutAnywhere(e, START, a, b);
    hide AdmitsSome, Admits, Completed, Chunk;
  }

  /** Likewise for any line that reports the build finished: only the stream cut behind it is finished. */
  lemma FlagShowsTheCut(e: Environment, record: Bytes, b: Bytes)
    requires NEWLINE !in record && |record| <= MAX_RECORD_BYTES && e.parse(record) == Some(BuildFinished(true))
    requires |record| + 1 + |b| > MAX_STREAM_BYTES
    ensures
      var a := record + [NEWLINE];
      var whole, parts := Observed(e, START, a + b), Observed(e, Observed(e, START, a), b);
      whole.failed && parts.failed && whole.core.buildFinished != parts.core.buildFinished
  {
    var a := record + [NEWLINE];
    OneLine(e, record);
    assert Fits(START, a) && !Fits(START, a + b);
    FlagAgreesExactly(e, START, a, b);
    CutAnywhere(e, START, a, b);
    hide FinishesSome, Completed, Chunk;
  }
}
