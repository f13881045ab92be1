/** Newline-framed build records observed in arbitrary chunks: budgets, admission and poisoning. */
module ArtifactStream {
  import opened Wrappers
  import Checkpoints

  type Byte = Checkpoints.Byte
  type Bytes = Checkpoints.Bytes

  const NEWLINE: Byte := 10
  const MAX_RECORD_BYTES := 1024 * 1024
  const MAX_STREAM_BYTES := 16 * 1024 * 1024
  const MAX_HARNESSES := 1024

  /** A record as far as the stream looks into it; an absent or empty package identity is `None`. */
  datatype Message =
    | BuildFinished(success: bool)
    | Chatter
    | Artifact(test: bool, package: Option<string>, name: string, kind: string, upToDate: bool, body: Bytes)
    | Unrecognized

  datatype Harness = Harness(package: string, kind: string, executable: string)

  type Target = (string, string, string)

  /**
   What the stream is built with. Admission may depend on everything admitted before; path
   resolution and the caller's notification are fixed functions.
   */
  datatype Environment = Environment(
    parse: Bytes -> Option<Message>,
    selected: Message -> bool,
    admit: (seq<Message>, Message) -> Option<Harness>,
    canonical: string -> Option<string>,
    notified: Harness -> bool,
    requireFreshMain: bool)

  /** What observing bytes changes. */
  datatype Core = Core(
    pending: Bytes,
    manifests: seq<Message>,
    targets: set<Target>,
    executables: set<string>,
    harnesses: seq<Harness>,
    buildFinished: bool)

  const FRESH := Core([], [], {}, {}, [], false)

  datatype StreamError = StreamFailed

  // ---------------------------------------------------------------- one record

  /** A selected test artifact, after the checks that come before admission. */
  function Enroll(e: Environment, core: Core, artifact: Message, target: Target, harness: Harness): (Core, bool) {
    var known := core.(manifests := core.manifests + [artifact]);
    if e.requireFreshMain && harness.package == "terlan" && harness.kind == "lib" && artifact.Artifact? &&
        !artifact.upToDate
    then (known, false)
    else
      match e.canonical(harness.executable)
      case None => (known, false)
      case Some(executable) =>
        if executable in core.executables then (known, false)
        else
          var enrolled := known.(executables := core.executables + {executable}, targets := core.targets + {target});
          if !e.notified(harness) then (enrolled, false)
          else (enrolled.(harnesses := core.harnesses + [harness]), true)
  }

  function Admit(e: Environment, core: Core, artifact: Message): (Core, bool)
    requires artifact.Artifact?
  {
    if !artifact.test || artifact.package.None? then (core, false)
    else
      var target := (artifact.package.value, artifact.name, artifact.kind);
      if |core.harnesses| >= MAX_HARNESSES || target in core.targets then (core, false)
      else
        match e.admit(core.manifests, artifact)
        case None => (core, false)
        case Some(harness) => Enroll(e, core, artifact, target, harness)
  }

  /** A complete record: the state it leaves, also when it is rejected, and whether it was accepted. */
  function Recorded(e: Environment, core: Core, bytes: Bytes): (Core, bool) {
    if core.buildFinished then (core, false)
    else
      match e.parse(bytes)
      case None => (core, false)
      case Some(Unrecognized) => (core, false)
      case Some(Chatter) => (core, true)
      case Some(BuildFinished(success)) => if success then (core.(buildFinished := true), true) else (core, false)
      case Some(artifact) => if e.selected(artifact) then Admit(e, core, artifact) else (core, true)
  }

  // ---------------------------------------------------------------- byte by byte

  datatype Verdict = Accepted | Rejected | Overlong

  /** The reference reading, one byte at a time, stopping at the first rejected or overlong record. */
  ghost function Feed(e: Environment, core: Core, bytes: Bytes): (Core, Verdict) {
    if bytes == [] then (core, Accepted)
    else FeedOne(e, Feed(e, core, bytes[..|bytes| - 1]), bytes[|bytes| - 1])
  }

  ghost function FeedOne(e: Environment, read: (Core, Verdict), byte: Byte): (Core, Verdict) {
    var (core, verdict) := read;
    if !verdict.Accepted? then read
    else if byte == NEWLINE then
      var (next, accepted) := Recorded(e, core.(pending := []), core.pending);
      (next, if accepted then Accepted else Rejected)
    else if |core.pending| >= MAX_RECORD_BYTES then (core, Overlong)
    else (core.(pending := core.pending + [byte]), Accepted)
  }

  /** Reading on from where reading stopped. */
  ghost function FeedOn(e: Environment, read: (Core, Verdict), bytes: Bytes): (Core, Verdict) {
    if read.1.Accepted? then Feed(e, read.0, bytes) else read
  }

  /** Reading does not depend on where the bytes are cut. */
  lemma {:induction false} FeedConcat(e: Environment, core: Core, a: Bytes, b: Bytes)
    ensures Feed(e, core, a + b) == FeedOn(e, Feed(e, core, a), b)
  {
    hide FeedOne;
    if b == [] {
      assert a + b == a;
    } else {
      var init, last := b[..|b| - 1], b[|b| - 1];
      assert (a + b)[..|a + b| - 1] == a + init && (a + b)[|a + b| - 1] == last;
      FeedConcat(e, core, a, init);
      FeedStops(e, Feed(e, core, a), last);
    }
  }

  lemma FeedStops(e: Environment, read: (Core, Verdict), byte: Byte)
    ensures !read.1.Accepted? ==> FeedOne(e, read, byte) == read
  {
  }

  /** Bytes of one record: they fit as a whole or the record is overlong. */
  lemma {:induction false} FeedContent(e: Environment, core: Core, content: Bytes)
    requires NEWLINE !in content && |core.pending| <= MAX_RECORD_BYTES
    ensures Feed(e, core, content) ==
            if |content| <= MAX_RECORD_BYTES - |core.pending| then (core.(pending := core.pending + content), Accepted)
            else (core.(pending := core.pending + content[..MAX_RECORD_BYTES - |core.pending|]), Overlong)
  {
    var room := MAX_RECORD_BYTES - |core.pending|;
    if content == [] {
      assert core.pending + content == core.pending;
    } else {
      var init, last := content[..|content| - 1], content[|content| - 1];
      assert content == init + [last];
      FeedContent(e, core, init);
      hide Recorded, Feed;
      if |content| <= room {
        assert core.pending + init + [last] == core.pending + content;
      } else if |init| == room {
        assert content[..room] == init;
      } else {
        assert init[..room] == content[..room];
      }
    }
  }

  // ---------------------------------------------------------------- fragment by fragment

  /** The first newline at or after `i`, or the end. */
  ghost function LineEnd(bytes: Bytes, i: nat): (end: nat)
    requires i <= |bytes|
    ensures i <= end <= |bytes| && NEWLINE !in bytes[i..end]
    ensures end < |bytes| ==> bytes[end] == NEWLINE
    decreases |bytes| - i
  {
    if i == |bytes| || bytes[i] == NEWLINE then i
    else
      var end := LineEnd(bytes, i + 1);
      assert bytes[i..end] == [bytes[i]] + bytes[i + 1..end];
      end
  }

  /** One chunk from `i` on, a whole fragment at a time: a fragment is refused before any of it is kept. */
  ghost function Chunk(e: Environment, core: Core, bytes: Bytes, i: nat): (Core, bool)
    requires i <= |bytes|
    decreases |bytes| - i
  {
    if i == |bytes| then (core, true)
    else
      var end := LineEnd(bytes, i);
      var content := bytes[i..end];
      if |content| > MAX_RECORD_BYTES - |core.pending| then (core, false)
      else if end == |bytes| then (core.(pending := core.pending + content), true)
      else
        var (next, accepted) := Recorded(e, core.(pending := []), core.pending + content);
        if !accepted then (next, false) else Chunk(e, next, bytes, end + 1)
  }

  function Unpended(core: Core): Core {
    core.(pending := [])
  }

  lemma RecordedPending(e: Environment, core: Core, bytes: Bytes)
    requires core.pending == []
    ensures Recorded(e, core, bytes).0.pending == []
  {
  }

  /** What a chunk's outcome has in common with reading its bytes one by one: all but an overlong fragment's bytes. */
  ghost predicate Agrees(chunk: (Core, bool), read: (Core, Verdict)) {
    && (chunk.1 <==> read.1.Accepted?) && Unpended(chunk.0) == Unpended(read.0)
    && (!read.1.Overlong? ==> chunk.0 == read.0)
    && (read.1.Rejected? ==> read.0.pending == [])
    && |chunk.0.pending| <= MAX_RECORD_BYTES
  }

  /** Reading up to the end of a fragment, whole or byte by byte. */
  lemma FragmentReads(e: Environment, core: Core, bytes: Bytes, i: nat)
    requires i < |bytes| && |core.pending| <= MAX_RECORD_BYTES
    ensures
      var end := LineEnd(bytes, i);
      var content := bytes[i..end];
      if |content| > MAX_RECORD_BYTES - |core.pending| then
        Agrees((core, false), Feed(e, core, bytes[i..]))
      else
        Feed(e, core, bytes[i..]) == Feed(e, core.(pending := core.pending + content), bytes[end..])
  {
    var end := LineEnd(bytes, i);
    var content := bytes[i..end];
    assert bytes[i..] == content + bytes[end..];
    hide LineEnd;
    FeedContent(e, core, content);
    FeedConcat(e, core, content, bytes[end..]);
    hide Feed;
  }

  lemma ChunkUnfolds(e: Environment, core: Core, bytes: Bytes, i: nat)
    requires i < |bytes|
    ensures
      var end := LineEnd(bytes, i);
      var content := bytes[i..end];
      Chunk(e, core, bytes, i) ==
      if |content| > MAX_RECORD_BYTES - |core.pending| then (core, false)
      else if end == |bytes| then (core.(pending := core.pending + content), true)
      else
        var next := Recorded(e, core.(pending := []), core.pending + content);
        if next.1 then Chunk(e, next.0, bytes, end + 1) else next
  {
    hide Recorded, LineEnd;
  }

  /** Fragment by fragment is as good as byte by byte. */
  lemma {:induction false} ChunkReads(e: Environment, core: Core, bytes: Bytes, i: nat)
    requires i <= |bytes| && |core.pending| <= MAX_RECORD_BYTES
    ensures Agrees(Chunk(e, core, bytes, i), Feed(e, core, bytes[i..]))
    decreases |bytes| - i
  {
    hide LineEnd, Recorded;
    if i == |bytes| {
      FeedNothing(e, core);
      assert bytes[i..] == [];
    } else {
      hide Chunk, Feed;
      FragmentReads(e, core, bytes, i);
      ChunkUnfolds(e, core, bytes, i);
      var end := LineEnd(bytes, i);
      var content := bytes[i..end];
      var filled := core.(pending := core.pending + content);
      if |content| <= MAX_RECORD_BYTES - |core.pending| {
        if end == |bytes| {
          assert bytes[end..] == [];
          FeedNothing(e, filled);
        } else {
          ChunkRecords(e, filled, bytes, end);
          var next := Recorded(e, core.(pending := []), core.pending + content);
          assert filled.(pending := []) == core.(pending := []);
          assert Agrees((next.0, false), (next.0, Rejected));
          hide Agrees;
          if next.1 {
            ChunkReads(e, next.0, bytes, end + 1);
          }
        }
      }
    }
  }

  lemma FeedNothing(e: Environment, core: Core)
    ensures Feed(e, core, []) == (core, Accepted)
  {
  }

  lemma ChunkRecords(e: Environment, core: Core, bytes: Bytes, end: nat)
    requires end < |bytes| && bytes[end] == NEWLINE
    ensures
      var next := Recorded(e, core.(pending := []), core.pending);
      && Feed(e, core, bytes[end..]) == FeedOn(e, (next.0, if next.1 then Accepted else Rejected), bytes[end + 1..])
      && next.0.pending == []
  {
    RecordedPending(e, core.(pending := []), core.pending);
    assert bytes[end..] == [NEWLINE] + bytes[end + 1..];
    FeedConcat(e, core, [NEWLINE], bytes[end + 1..]);
    assert [NEWLINE][..0] == [];
    hide Recorded;
  }

  // ---------------------------------------------------------------- the stream

  datatype Stream = Stream(core: Core, bytes: nat, failed: bool)

  const START := Stream(FRESH, 0, false)

  ghost predicate Valid(s: Stream) {
    s.bytes <= MAX_STREAM_BYTES && |s.core.pending| <= MAX_RECORD_BYTES && NEWLINE !in s.core.pending
  }

  /** `observe`. */
  ghost function Observed(e: Environment, s: Stream, bytes: Bytes): Stream {
    if s.failed then s
    else if |bytes| > MAX_STREAM_BYTES - s.bytes then s.(failed := true)
    else
      var (core, accepted) := Chunk(e, s.core, bytes, 0);
      Stream(core, s.bytes + |bytes|, !accepted)
  }

  lemma WholeChunk(e: Environment, core: Core, bytes: Bytes)
    requires |core.pending| <= MAX_RECORD_BYTES
    ensures Agrees(Chunk(e, core, bytes, 0), Feed(e, core, bytes))
  {
    ChunkReads(e, core, bytes, 0);
    assert bytes[0..] == bytes;
  }

  /** Pending bytes never hold a newline. */
  lemma {:induction false} ChunkOneLine(e: Environment, core: Core, bytes: Bytes, i: nat)
    requires i <= |bytes| && NEWLINE !in core.pending
    ensures NEWLINE !in Chunk(e, core, bytes, i).0.pending
    decreases |bytes| - i
  {
    if i < |bytes| {
      hide Chunk, Recorded;
      ChunkUnfolds(e, core, bytes, i);
      var end := LineEnd(bytes, i);
      var next := Recorded(e, core.(pending := []), core.pending + bytes[i..end]);
      RecordedPending(e, core.(pending := []), core.pending + bytes[i..end]);
      if end < |bytes| && next.1 {
        ChunkOneLine(e, next.0, bytes, end + 1);
      }
    }
  }

  lemma ObservedValid(e: Environment, s: Stream, bytes: Bytes)
    requires Valid(s)
    ensures Valid(Observed(e, s, bytes))
  {
    WholeChunk(e, s.core, bytes);
    ChunkOneLine(e, s.core, bytes, 0);
    hide Chunk;
  }

  ghost predicate Fits(s: Stream, bytes: Bytes) {
    |bytes| <= MAX_STREAM_BYTES - s.bytes
  }

  lemma ChunkSplits(e: Environment, core: Core, a: Bytes, b: Bytes)
    requires |core.pending| <= MAX_RECORD_BYTES
    ensures
      var whole, first := Chunk(e, core, a + b, 0), Chunk(e, core, a, 0);
      var parts := if first.1 then Chunk(e, first.0, b, 0) else first;
      && whole.1 == parts.1 && Unpended(whole.0) == Unpended(parts.0) && (whole.1 ==> whole == parts)
  {
    WholeChunk(e, core, a + b);
    WholeChunk(e, core, a);
    FeedConcat(e, core, a, b);
    if Chunk(e, core, a, 0).1 {
      WholeChunk(e, Chunk(e, core, a, 0).0, b);
    }
    hide Chunk, Feed;
  }

  /**
   Cutting the same bytes anywhere decides success alike, and a success leaves the same stream. After
   a failure the harnesses and the finished flag still agree, except that a stream over its byte
   budget keeps what it had before the chunk that broke it.
   */
  lemma CutAnywhere(e: Environment, s: Stream, a: Bytes, b: Bytes)
    requires Valid(s) && !s.failed
    ensures
      var whole, parts := Observed(e, s, a + b), Observed(e, Observed(e, s, a), b);
      && whole.failed == parts.failed && (!whole.failed ==> whole == parts)
      && (Fits(s, a + b) ==> Unpended(whole.core) == Unpended(parts.core))
      && (!Fits(s, a + b) ==> whole.core == s.core && parts.core == Observed(e, s, a).core)
  {
    ChunkSplits(e, s.core, a, b);
    hide Chunk;
  }

  ghost function Concat(chunks: seq<Bytes>): Bytes {
    if chunks == [] then [] else Concat(chunks[..|chunks| - 1]) + chunks[|chunks| - 1]
  }

  ghost function ObservedAll(e: Environment, s: Stream, chunks: seq<Bytes>): Stream {
    if chunks == [] then s else Observed(e, ObservedAll(e, s, chunks[..|chunks| - 1]), chunks[|chunks| - 1])
  }

  /** Any sequence of chunks is one observation of their concatenation. */
  lemma {:induction false} AnyChunks(e: Environment, s: Stream, chunks: seq<Bytes>)
    requires Valid(s) && !s.failed
    ensures Valid(ObservedAll(e, s, chunks))
    ensures ObservedAll(e, s, chunks).failed == Observed(e, s, Concat(chunks)).failed
    ensures !ObservedAll(e, s, chunks).failed ==> ObservedAll(e, s, chunks) == Observed(e, s, Concat(chunks))
  {
    if chunks != [] {
      var init, last := chunks[..|chunks| - 1], chunks[|chunks| - 1];
      AnyChunks(e, s, init);
      ObservedValid(e, ObservedAll(e, s, init), last);
      CutAnywhere(e, s, Concat(init), last);
      hide Observed;
      FailedStays(e, s, Concat(init), last);
    }
  }

  /** A failed stream never recovers. */
  lemma FailedStays(e: Environment, s: Stream, a: Bytes, b: Bytes)
    ensures Observed(e, s, a).failed ==> Observed(e, Observed(e, s, a), b).failed
  {
  }

  /** Once failed, whatever arrives changes nothing and the stream can never be finished. */
  lemma {:induction false} FailedForGood(e: Environment, s: Stream, chunks: seq<Bytes>)
    requires s.failed
    ensures ObservedAll(e, s, chunks) == s && Finish(ObservedAll(e, s, chunks)).Failure?
  {
    if chunks != [] {
      FailedForGood(e, s, chunks[..|chunks| - 1]);
    }
  }

  // ---------------------------------------------------------------- records and their end

  /** A byte stream as complete records and what follows the last newline. */
  datatype Framing = Framing(records: seq<Bytes>, rest: Bytes)

  ghost function Framed(bytes: Bytes): Framing {
    if bytes == [] then Framing([], [])
    else
      var f, last := Framed(bytes[..|bytes| - 1]), bytes[|bytes| - 1];
      if last == NEWLINE then Framing(f.records + [f.rest], []) else Framing(f.records, f.rest + [last])
  }

  ghost function Printed(records: seq<Bytes>): Bytes {
    if records == [] then [] else Printed(records[..|records| - 1]) + (records[|records| - 1] + [NEWLINE])
  }

  ghost predicate Unbroken(f: Framing) {
    NEWLINE !in f.rest && forall record | record in f.records :: NEWLINE !in record
  }

  /** Framing loses nothing: printing the records gives the stream back, and no record holds a newline. */
  lemma {:induction false} FramedPrints(bytes: Bytes)
    ensures Unbroken(Framed(bytes)) && bytes == Printed(Framed(bytes).records) + Framed(bytes).rest
  {
    if bytes != [] {
      var init, last := bytes[..|bytes| - 1], bytes[|bytes| - 1];
      var f := Framed(init);
      FramedPrints(init);
      assert bytes == init + [last];
      assert (f.records + [f.rest])[..|f.records|] == f.records;
      hide Framed, Printed;
      assert Printed(f.records) + f.rest + [last] == Printed(f.records) + (f.rest + [last]);
    }
  }

  /** Printing then framing gives the records back. */
  lemma {:induction false} PrintedFrames(records: seq<Bytes>)
    requires forall record | record in records :: NEWLINE !in record
    ensures Framed(Printed(records)) == Framing(records, [])
  {
    if records != [] {
      var init, last := records[..|records| - 1], records[|records| - 1];
      assert records == init + [last];
      PrintedFrames(init);
      FramedContent(Printed(init), last);
      FramedStep(Printed(init) + last, NEWLINE);
      assert Printed(records) == Printed(init) + (last + [NEWLINE]);
      hide Printed, Framed;
      assert Printed(init) + (last + [NEWLINE]) == Printed(init) + last + [NEWLINE];
      assert [] + last == last;
    }
  }

  lemma {:induction false} FramedContent(before: Bytes, content: Bytes)
    requires NEWLINE !in content
    ensures Framed(before + content) == Framing(Framed(before).records, Framed(before).rest + content)
  {
    if content == [] {
      assert before + content == before;
      assert Framed(before).rest + content == Framed(before).rest;
    } else {
      var init, last := content[..|content| - 1], content[|content| - 1];
      assert content == init + [last];
      assert (before + content)[..|before + content| - 1] == before + init;
      FramedContent(before, init);
      var rest := Framed(before).rest;
      assert rest + content == rest + init + [last];
    }
  }

  /** Records admitted one after another, stopping at the first rejection. */
  ghost function RecordedAll(e: Environment, core: Core, records: seq<Bytes>): (Core, bool) {
    if records == [] then (core, true)
    else
      var (before, accepted) := RecordedAll(e, core, records[..|records| - 1]);
      if accepted then Recorded(e, before, records[|records| - 1]) else (before, false)
  }

  ghost predicate Short(f: Framing) {
    |f.rest| <= MAX_RECORD_BYTES && forall record | record in f.records :: |record| <= MAX_RECORD_BYTES
  }

  /** What has been read is what admitting the records so far left, with the bytes after them pending. */
  ghost predicate Means(read: (Core, Verdict), all: (Core, bool), short: bool, rest: Bytes) {
    && (read.1.Accepted? <==> short && all.1)
    && (read.1.Accepted? ==> read.0 == all.0.(pending := rest))
    && all.0.pending == []
  }

  lemma NewlineMeans(e: Environment, read: (Core, Verdict), all: (Core, bool), short: bool, rest: Bytes)
    requires Means(read, all, short, rest)
    ensures Means(FeedOne(e, read, NEWLINE), if all.1 then Recorded(e, all.0, rest) else (all.0, false), short, [])
  {
    RecordedPending(e, all.0, rest);
    assert all.0.(pending := rest).(pending := []) == all.0;
    hide Recorded;
  }

  lemma ByteMeans(e: Environment, read: (Core, Verdict), all: (Core, bool), short: bool, rest: Bytes, last: Byte)
    requires Means(read, all, short, rest) && last != NEWLINE
    ensures Means(FeedOne(e, read, last), all, short && |rest| < MAX_RECORD_BYTES, rest + [last])
  {
  }

  /** Reading bytes is admitting their records: nothing else about the stream matters. */
  lemma {:induction false} FeedMeans(e: Environment, core: Core, bytes: Bytes)
    requires core.pending == []
    ensures Means(Feed(e, core, bytes), RecordedAll(e, core, Framed(bytes).records), Short(Framed(bytes)),
        Framed(bytes).rest)
  {
    if bytes != [] {
      var init, last := bytes[..|bytes| - 1], bytes[|bytes| - 1];
      FeedMeans(e, core, init);
      var f := Framed(init);
      var read, all := Feed(e, core, init), RecordedAll(e, core, f.records);
      assert bytes == init + [last];
      FramedStep(init, last);
      ShortStep(f.records, f.rest, last);
      hide Means, FeedOne, Short, Recorded;
      if last == NEWLINE {
        NewlineMeans(e, read, all, Short(f), f.rest);
        RecordedAllStep(e, core, f.records, f.rest);
      } else {
        ByteMeans(e, read, all, Short(f), f.rest, last);
      }
    }
  }

  lemma ShortStep(records: seq<Bytes>, rest: Bytes, last: Byte)
    ensures Short(Framing(records + [rest], [])) <==> Short(Framing(records, rest))
    ensures Short(Framing(records, rest + [last])) <==> Short(Framing(records, rest)) && |rest| < MAX_RECORD_BYTES
  {
    if Short(Framing(records + [rest], [])) {
      forall record | record in records || record == rest
        ensures |record| <= MAX_RECORD_BYTES
      {
        assert record in records + [rest];
      }
    }
  }

  lemma FramedStep(init: Bytes, last: Byte)
    ensures Framed(init + [last]) ==
            if last == NEWLINE then Framing(Framed(init).records + [Framed(init).rest], [])
            else Framing(Framed(init).records, Framed(init).rest + [last])
  {
    assert (init + [last])[..|init|] == init;
  }

  lemma RecordedAllStep(e: Environment, core: Core, records: seq<Bytes>, record: Bytes)
    ensures RecordedAll(e, core, records + [record]) ==
            if RecordedAll(e, core, records).1 then Recorded(e, RecordedAll(e, core, records).0, record)
            else (RecordedAll(e, core, records).0, false)
  {
    assert (records + [record])[..|records|] == records;
  }

  ghost predicate Finishes(e: Environment, record: Bytes) {
    e.parse(record).Some? && e.parse(record).value.BuildFinished?
  }

  /** The finished flag is up exactly after one successful build-finished record, the last of all. */
  lemma {:induction false} FinishedMeans(e: Environment, core: Core, records: seq<Bytes>)
    requires !core.buildFinished && RecordedAll(e, core, records).1
    ensures RecordedAll(e, core, records).0.buildFinished <==>
            records != [] && e.parse(records[|records| - 1]) == Some(BuildFinished(true))
    ensures forall i | 0 <= i < |records| - 1 :: !Finishes(e, records[i])
    ensures records != [] && Finishes(e, records[|records| - 1]) ==> RecordedAll(e, core, records).0.buildFinished
  {
    if records != [] {
      var init := records[..|records| - 1];
      FinishedMeans(e, core, init);
      RecordedFlag(e, RecordedAll(e, core, init).0, records[|records| - 1]);
      hide Recorded;
      forall i | 0 <= i < |records| - 1
        ensures !Finishes(e, records[i])
      {
        assert records[i] == init[i];
      }
    }
  }

  lemma RecordedFlag(e: Environment, core: Core, record: Bytes)
    requires Recorded(e, core, record).1
    ensures !core.buildFinished
    ensures Recorded(e, core, record).0.buildFinished <==> e.parse(record) == Some(BuildFinished(true))
    ensures Finishes(e, record) <==> e.parse(record) == Some(BuildFinished(true))
  {
  }

  // ---------------------------------------------------------------- finish

  /** `finish`. */
  function Finish(s: Stream): Result<seq<Harness>, StreamError> {
    if s.failed || s.core.pending != [] || !s.core.buildFinished then Failure(StreamFailed)
        else Success(s.core.harnesses)
  }

  /** The streams that may be finished, told by their records alone. */
  ghost predicate Complete(e: Environment, bytes: Bytes) {
    var f := Framed(bytes);
    && |bytes| <= MAX_STREAM_BYTES && f.rest == [] && Short(f)
    && RecordedAll(e, FRESH, f.records).1
    && f.records != [] && e.parse(f.records[|f.records| - 1]) == Some(BuildFinished(true))
  }

  /**
   However the bytes arrived, `finish` succeeds exactly on newline-terminated, accepted records of
   which the last, and only the last, is a successful build-finished; it returns the harnesses of
   those records.
   */
  lemma FinishExactly(e: Environment, chunks: seq<Bytes>)
    ensures
      var finished, f := Finish(ObservedAll(e, START, chunks)), Framed(Concat(chunks));
      && (finished.Success? <==> Complete(e, Concat(chunks)))
      && (finished.Success? ==>
            && finished.value == RecordedAll(e, FRESH, f.records).0.harnesses
            && forall i | 0 <= i < |f.records| - 1 :: !Finishes(e, f.records[i]))
  {
    var bytes := Concat(chunks);
    var f := Framed(bytes);
    AnyChunks(e, START, chunks);
    WholeChunk(e, FRESH, bytes);
    FeedMeans(e, FRESH, bytes);
    if RecordedAll(e, FRESH, f.records).1 {
      FinishedMeans(e, FRESH, f.records);
    }
    hide Chunk, Feed, RecordedAll, Framed, ObservedAll;
  }

  // ---------------------------------------------------------------- unique targets and executables

  function TargetOf(artifact: Message): Option<Target> {
    match artifact
    case Artifact(_, Some(package), name, kind, _, _) => Some((package, name, kind))
    case _ => None
  }

  /** Each harness was admitted from its own artifact, and no two share a target or an executable. */
  ghost predicate Unique(e: Environment, core: Core) {
    && |core.manifests| == |core.harnesses| <= MAX_HARNESSES
    && (forall i | 0 <= i < |core.harnesses| :: Enrolled(e, core, i))
    && (forall i, j | 0 <= i < j < |core.harnesses| ::
          TargetOf(core.manifests[i]) != TargetOf(core.manifests[j]) &&
          e.canonical(core.harnesses[i].executable) != e.canonical(core.harnesses[j].executable))
  }

  /** The `i`-th harness: its artifact was a selected test target, and its identities are on record. */
  ghost predicate Enrolled(e: Environment, core: Core, i: nat)
    requires i < |core.harnesses| == |core.manifests|
  {
    var artifact, harness := core.manifests[i], core.harnesses[i];
    && artifact.Artifact? && artifact.test && e.selected(artifact)
    && e.admit(core.manifests[..i], artifact) == Some(harness) && e.notified(harness)
    && TargetOf(artifact).Some? && TargetOf(artifact).value in core.targets
    && e.canonical(harness.executable).Some? && e.canonical(harness.executable).value in core.executables
    && (e.requireFreshMain && harness.package == "terlan" && harness.kind == "lib" ==> artifact.upToDate)
  }

  lemma RecordedUnique(e: Environment, core: Core, record: Bytes)
    requires Unique(e, core) && Recorded(e, core, record).1
    ensures Unique(e, Recorded(e, core, record).0)
  {
    var next := Recorded(e, core, record).0;
    if next.harnesses != core.harnesses {
      var artifact := e.parse(record).value;
      var harness := e.admit(core.manifests, artifact).value;
      assert next == core.(manifests := core.manifests + [artifact], harnesses := core.harnesses + [harness],
                           targets := next.targets, executables := next.executables);
      forall i | 0 <= i < |next.harnesses|
        ensures Enrolled(e, next, i)
      {
        assert next.manifests[..i] == core.manifests[..i];
        if i < |core.harnesses| {
          assert Enrolled(e, core, i);
        }
      }
      forall i, j | 0 <= i < j < |next.harnesses|
        ensures TargetOf(next.manifests[i]) != TargetOf(next.manifests[j])
        ensures e.canonical(next.harnesses[i].executable) != e.canonical(next.harnesses[j].executable)
      {
        assert Enrolled(e, core, i);
      }
    } else {
      assert next == core || next == core.(buildFinished := true);
      forall i | 0 <= i < |core.harnesses|
        ensures Enrolled(e, next, i)
      {
        assert Enrolled(e, core, i);
      }
    }
  }

  /** Every finished stream returns at most 1024 harnesses of pairwise distinct targets and executables. */
  lemma {:induction false} AllUnique(e: Environment, records: seq<Bytes>)
    requires RecordedAll(e, FRESH, records).1
    ensures Unique(e, RecordedAll(e, FRESH, records).0)
  {
    if records != [] {
      AllUnique(e, records[..|records| - 1]);
      RecordedUnique(e, RecordedAll(e, FRESH, records[..|records| - 1]).0, records[|records| - 1]);
      hide Recorded, Unique;
    }
  }

  // ---------------------------------------------------------------- the stream object

  method FindNewline(bytes: Bytes, start: nat) returns (end: nat)
    requires start <= |bytes|
    ensures end == LineEnd(bytes, start)
  {
    end := start;
    while end < |bytes| && bytes[end] != NEWLINE
      invariant start <= end <= |bytes| && LineEnd(bytes, start) == LineEnd(bytes, end)
    {
      end := end + 1;
    }
  }

  class CargoArtifactStream {
    const e: Environment
    var pending: Bytes
    var bytes: nat
    var manifests: seq<Message>
    var targets: set<Target>
    var executables: set<string>
    var harnesses: seq<Harness>
    var buildFinished: bool
    var captureStarted: bool
    var failed: bool

    ghost function State(): Core
      reads this
    {
      Core(pending, manifests, targets, executables, harnesses, buildFinished)
    }

    ghost function Model(): Stream
      reads this
    {
      Stream(State(), bytes, failed)
    }

    constructor (e: Environment)
      ensures Model() == START && !captureStarted && this.e == e
    {
      this.e := e;
      pending, bytes, manifests, targets, executables, harnesses := [], 0, [], {}, {}, [];
      buildFinished, captureStarted, failed := false, false, false;
    }

    /** The selected-artifact branch of `record`. */
    method AdmitArtifact(artifact: Message) returns (accepted: bool)
      requires artifact.Artifact?
      modifies this`manifests, this`targets, this`executables, this`harnesses
      ensures (State(), accepted) == Admit(e, old(State()), artifact)
    {
      if !artifact.test || artifact.package.None? {
        return false;
      }
      var target := (artifact.package.value, artifact.name, artifact.kind);
      if |harnesses| >= MAX_HARNESSES || target in targets {
        return false;
      }
      var admitted := e.admit(manifests, artifact);
      if admitted.None? {
        return false;
      }
      var harness := admitted.value;
      manifests := manifests + [artifact];
      if e.requireFreshMain && harness.package == "terlan" && harness.kind == "lib" && !artifact.upToDate {
        return false;
      }
      var executable := e.canonical(harness.executable);
      if executable.None? || executable.value in executables {
        return false;
      }
      executables := executables + {executable.value};
      targets := targets + {target};
      if !e.notified(harness) {
        return false;
      }
      harnesses := harnesses + [harness];
      accepted := true;
    }

    /** `record`. */
    method Record(record: Bytes) returns (accepted: bool)
      modifies this`manifests, this`targets, this`executables, this`harnesses, this`buildFinished
      ensures (State(), accepted) == Recorded(e, old(State()), record)
    {
      if buildFinished {
        return false;
      }
      var parsed := e.parse(record);
      match parsed
      case None => return false;
      case Some(message) =>
      match message
      case Unrecognized => accepted := false;
      case Chatter => accepted := true;
      case BuildFinished(success) =>
        if success {
          buildFinished := true;
        }
        accepted := success;
      case Artifact(_, _, _, _, _, _) =>
        if e.selected(message) {
          hide Admit;
          accepted := AdmitArtifact(message);
        } else {
          accepted := true;
        }
    }

    /** The fragment loop of `observe_chunk`. */
    method ReadFragments(chunk: Bytes) returns (accepted: bool)
      requires |pending| <= MAX_RECORD_BYTES
      modifies this`pending, this`manifests, this`targets, this`executables, this`harnesses, this`buildFinished
      ensures (State(), accepted) == Chunk(e, old(State()), chunk, 0)
      ensures |pending| <= MAX_RECORD_BYTES
    {
      var start := 0;
      hide Recorded, LineEnd;
      while start < |chunk|
        invariant start <= |chunk| && |pending| <= MAX_RECORD_BYTES
        invariant Chunk(e, old(State()), chunk, 0) == Chunk(e, State(), chunk, start)
        decreases |chunk| - start
      {
        var end := FindNewline(chunk, start);
        var content := chunk[start..end];
        if |content| > MAX_RECORD_BYTES - |pending| {
          return false;
        }
        pending := pending + content;
        if end == |chunk| {
          return true;
        }
        var record := pending;
        pending := [];
        var kept := Record(record);
        if !kept {
          return false;
        }
        start := end + 1;
      }
      accepted := true;
    }

    /** `observe`: poisoned while it works, and for good once anything is refused. */
    method Observe(chunk: Bytes) returns (accepted: bool)
      requires Valid(Model())
      modifies this
      ensures Valid(Model()) && Model() == Observed(e, old(Model()), chunk)
      ensures accepted <==> !failed
      ensures captureStarted == old(captureStarted)
    {
      hide Chunk;
      ObservedValid(e, Model(), chunk);
      if failed {
        return false;
      }
      failed := true;
      if |chunk| > MAX_STREAM_BYTES - bytes {
        return false;
      }
      bytes := bytes + |chunk|;
      accepted := ReadFragments(chunk);
      failed := !accepted;
    }

    /**
     `capture`: only an untouched stream may capture, once; it succeeds exactly if every chunk is
     accepted and the process succeeds, and a failure of either is final.
     */
    method Capture(chunks: seq<Bytes>, processSucceeds: bool) returns (captured: bool)
      requires Valid(Model())
      modifies this
      ensures Valid(Model()) && (captured <==> !failed)
      ensures var untouched := !old(failed) && !old(captureStarted) && old(bytes) == 0 && !old(buildFinished);
        captured <==> untouched && processSucceeds && !ObservedAll(e, old(Model()), chunks).failed
      ensures captured ==> captureStarted && Model() == ObservedAll(e, old(Model()), chunks)
    {
      if failed || captureStarted || bytes != 0 || buildFinished {
        failed := true;
        return false;
      }
      captureStarted := true;
      ghost var start := Model();
      assert chunks[..0] == [] && chunks[..|chunks|] == chunks;
      hide Observed;
      for i := 0 to |chunks|
        invariant Valid(Model()) && !failed && captureStarted
        invariant Model() == ObservedAll(e, start, chunks[..i])
      {
        assert chunks[..i + 1][..i] == chunks[..i];
        var accepted := Observe(chunks[i]);
        if !accepted {
          ObservedAllFails(e, start, chunks, i + 1);
          return false;
        }
      }
      failed := !processSucceeds;
      captured := processSucceeds;
    }
  }

  lemma {:induction false} ObservedAllFails(e: Environment, s: Stream, chunks: seq<Bytes>, i: nat)
    requires i <= |chunks| && ObservedAll(e, s, chunks[..i]).failed
    ensures ObservedAll(e, s, chunks).failed
  {
    if i == |chunks| {
      assert chunks[..i] == chunks;
    } else {
      var init := chunks[..|chunks| - 1];
      assert init[..i] == chunks[..i];
      ObservedAllFails(e, s, init, i);
    }
  }
}
