/**
 What an accepted test report looks like, said about its lines alone: blocks of lines, records
 with interrupted names joined to their results, distinct names, and warnings that are settled
 by a later result. The inspector's running state is proved to accept exactly these texts.
 */
module DoctestReports {
  import Sequences
  import opened Wrappers
  import opened Text
  import opened DoctestOutput

  // ---------------------------------------------------------------- records

  /** The test a slow-test warning speaks of. */
  ghost function Slow(record: string): Option<string> {
    match RSplitOnce(record, RUNNING)
    case None => None
    case Some((names, _)) =>
      match SplitOnce(names, AWAITING)
      case None => Some(names)
      case Some((_, name)) => Some(name)
  }

  /** The name that a warning in serial output was printed behind, still waiting for its result. */
  ghost function Awaiting(record: string): Option<string> {
    match RSplitOnce(record, RUNNING)
    case None => None
    case Some((names, _)) =>
      match SplitOnce(names, AWAITING)
      case None => None
      case Some((display, _)) => Some(display)
  }

  /** The test that a record ends, and whether it passed. */
  ghost function Terminal(record: string): Option<(string, bool)> {
    if RSplitOnce(record, RUNNING).Some? then None
    else
      match RSplitOnce(record, RESULT)
      case None => None
      case Some((name, status)) =>
        if status == "ok" then Some((name, true)) else if status == "ignored" then Some((name, false)) else None
  }

  ghost predicate GoodName(name: string) {
    name != "" && !HasControl(name)
  }

  /** A terminal record of a named test, or a warning that speaks of the test it interrupts. */
  ghost predicate Readable(record: string) {
    if Terminal(record).Some? then GoodName(Terminal(record).value.0)
    else
      && Slow(record).Some? && GoodName(Slow(record).value)
      && Seconds(RSplitOnce(record, RUNNING).value.1).Some?
      && (Awaiting(record).Some? ==> BareName(Awaiting(record).value) == Slow(record).value)
  }

  /** A line behind an interrupted name continues that name; any other line is a record of its own. */
  ghost function Join(pending: Option<string>, line: string): string {
    match pending
    case Some(name) => name + RESULT + line
    case None => match StripPrefix(line, "test ") case Some(record) => record case None => line
  }

  /** The name that is still waiting for its result behind these records. */
  ghost function Awaited(records: seq<string>): Option<string> {
    if records == [] then None else Awaiting(records[|records| - 1])
  }

  /** The records of a harness: its lines, each joined to the name it continues. */
  ghost function Records(body: seq<string>): (records: seq<string>)
    ensures |records| == |body|
  {
    if body == [] then []
    else
      var init := Records(body[..|body| - 1]);
      init + [Join(Awaited(init), body[|body| - 1])]
  }

  /** A line that continues no name says that it is a record, and not the summary. */
  ghost predicate Begins(pending: Option<string>, line: string) {
    pending.None? ==> StripPrefix(line, "test ").Some? && StripPrefix(line, "test result: ok. ").None?
  }

  ghost predicate AllBegin(body: seq<string>) {
    forall k | 0 <= k < |body| :: Begins(Awaited(Records(body[..k])), body[k])
  }

  // ---------------------------------------------------------------- harnesses

  /** `m` is the map of the terminal records: all of them, and nothing else. */
  ghost predicate Tabulates(m: map<string, bool>, records: seq<string>) {
    && (forall k | 0 <= k < |records| && Terminal(records[k]).Some? ::
          var (name, passed) := Terminal(records[k]).value; name in m && m[name] == passed)
    && forall name | name in m :: exists k :: 0 <= k < |records| && Terminal(records[k]) == Some((name, m[name]))
  }

  /** No test ends twice. */
  ghost predicate Distinct(records: seq<string>) {
    forall i, j | 0 <= i < j < |records| && Terminal(records[i]).Some? && Terminal(records[j]).Some? ::
      Terminal(records[i]).value.0 != Terminal(records[j]).value.0
  }

  /** The record ends the test that a warning called `name`. */
  ghost predicate Ends(record: string, name: string) {
    Terminal(record).Some? && BareName(Terminal(record).value.0) == name
  }

  /** Some record from `i` up to `j` ends the test that a warning called `name`. */
  ghost predicate EndsBetween(records: seq<string>, name: string, i: int, j: int) {
    exists k | 0 <= i <= k < j <= |records| :: Ends(records[k], name)
  }

  /** No test is warned about again before it ends. */
  ghost predicate Apart(records: seq<string>) {
    forall i, j | 0 <= i < j < |records| && Slow(records[i]).Some? && Slow(records[i]) == Slow(records[j]) ::
      EndsBetween(records, Slow(records[i]).value, i, j)
  }

  /** Every test that was warned about ends after the warning. */
  ghost predicate Settled(records: seq<string>) {
    forall i | 0 <= i < |records| && Slow(records[i]).Some? ::
      EndsBetween(records, Slow(records[i]).value, i, |records|)
  }

  ghost predicate AllReadable(records: seq<string>) {
    forall k | 0 <= k < |records| :: Readable(records[k])
  }

  /** The lines of one harness, and the timing lines of merged runs behind it. */
  datatype Block = Block(start: string, body: seq<string>, summary: string, times: seq<string>)

  ghost predicate Timing(finite: Finite, line: string) {
    var times := StripPrefix(line, "all doctests ran in ");
    times.Some? && TimesFit(finite, times.value)
  }

  /**
   `o` is the outcome of this block: as many distinct tests as its start line declares end in it,
   `o` records exactly them, no name is left waiting, every warning is settled, and the summary
   counts what was recorded.
   */
  ghost predicate Explains(finite: Finite, b: Block, o: Outcome) {
    var records := Records(b.body);
    var summary := StripPrefix(b.summary, "test result: ok. ");
    && DeclaredBy(b.start) == [|o.records|]
    && AllBegin(b.body) && AllReadable(records)
    && Tabulates(o.records, records) && Distinct(records)
    && Awaited(records).None? && Apart(records) && Settled(records)
    && summary.Some? && SummaryFits(finite, summary.value, o.passed, o.ignored) && Reconciled(o)
    && forall k | 0 <= k < |b.times| :: Timing(finite, b.times[k])
  }

  ghost function BlockLines(b: Block): seq<string> {
    [b.start] + b.body + [b.summary] + b.times
  }

  ghost function Flat(blocks: seq<Block>): seq<string> {
    if blocks == [] then [] else Flat(blocks[..|blocks| - 1]) + BlockLines(blocks[|blocks| - 1])
  }

  ghost predicate AllExplain(finite: Finite, blocks: seq<Block>, outcomes: seq<Outcome>) {
    |blocks| == |outcomes| && forall i | 0 <= i < |blocks| :: Explains(finite, blocks[i], outcomes[i])
  }

  /** A report of these outcomes: one block after the other, within both budgets. */
  ghost predicate Report(finite: Finite, blocks: seq<Block>, outcomes: seq<Outcome>) {
    && AllExplain(finite, blocks, outcomes)
    && 1 <= |outcomes| <= 1024
    && Sum(Sizes(outcomes)) <= 100000
  }

  // ---------------------------------------------------------------- one more record

  lemma RecordsAppend(body: seq<string>, line: string)
    ensures Records(body + [line]) == Records(body) + [Join(Awaited(Records(body)), line)]
  {
    assert (body + [line])[..|body|] == body;
  }

  lemma AllBeginAppend(body: seq<string>, line: string)
    ensures AllBegin(body + [line]) <==> AllBegin(body) && Begins(Awaited(Records(body)), line)
  {
    hide Begins, Records, Awaited;
    var more := body + [line];
    assert more[..|body|] == body && more[|body|] == line;
    forall k | 0 <= k < |body|
      ensures more[..k] == body[..k] && more[k] == body[k]
    {
    }
    if AllBegin(more) {
      forall k | 0 <= k < |body|
        ensures Begins(Awaited(Records(body[..k])), body[k])
      {
        assert Begins(Awaited(Records(more[..k])), more[k]);
      }
      assert Begins(Awaited(Records(more[..|body|])), more[|body|]);
    }
  }

  /** `name` was warned about and has not ended since. */
  ghost predicate Outstanding(records: seq<string>, name: string) {
    exists i :: 0 <= i < |records| && Slow(records[i]) == Some(name) && !EndsBetween(records, name, i, |records|)
  }

  lemma EndsBetweenAppend(records: seq<string>, record: string, name: string, i: nat)
    requires i <= |records|
    ensures EndsBetween(records + [record], name, i, |records| + 1) <==>
            EndsBetween(records, name, i, |records|) || Ends(record, name)
  {
    hide Ends;
    var more := records + [record];
    forall k | 0 <= k < |records|
      ensures more[k] == records[k]
    {
    }
    assert more[|records|] == record;
    if EndsBetween(records, name, i, |records|) {
      var k :| i <= k < |records| && Ends(records[k], name);
      assert Ends(more[k], name);
    }
    if Ends(record, name) {
      assert Ends(more[|records|], name);
    }
  }

  lemma EndsBetweenWithin(records: seq<string>, record: string, name: string, i: nat, j: nat)
    requires i <= j <= |records|
    ensures EndsBetween(records + [record], name, i, j) <==> EndsBetween(records, name, i, j)
  {
    hide Ends;
    var more := records + [record];
    forall k | 0 <= k < |records|
      ensures more[k] == records[k]
    {
    }
    if EndsBetween(records, name, i, j) {
      var k :| i <= k < j && Ends(records[k], name);
      assert Ends(more[k], name);
    }
  }

  lemma OutstandingAppend(records: seq<string>, record: string, name: string)
    ensures Outstanding(records + [record], name) <==>
            if Ends(record, name) then false else Outstanding(records, name) || Slow(record) == Some(name)
  {
    hide Slow, Ends, EndsBetween;
    var more := records + [record];
    forall i: nat | i < |records|
      ensures more[i] == records[i]
      ensures EndsBetween(more, name, i, |more|) <==> EndsBetween(records, name, i, |records|) || Ends(record, name)
    {
      EndsBetweenAppend(records, record, name, i);
    }
    EndsBetweenAppend(records, record, name, |records|);
    NothingBetween(records, name);
    if Outstanding(records, name) && !Ends(record, name) {
      var i :| 0 <= i < |records| && Slow(records[i]) == Some(name) && !EndsBetween(records, name, i, |records|);
      assert Slow(more[i]) == Some(name);
    }
    if Slow(record) == Some(name) {
      assert Slow(more[|records|]) == Some(name);
    }
  }

  lemma NothingBetween(records: seq<string>, name: string)
    ensures !EndsBetween(records, name, |records|, |records|)
  {
  }

  /** A warning may be added exactly if no earlier one with its name is still outstanding. */
  lemma ApartAppend(records: seq<string>, record: string)
    ensures Apart(records + [record]) <==>
            Apart(records) && (Slow(record).Some? ==> !Outstanding(records, Slow(record).value))
  {
    hide Slow, EndsBetween;
    var more := records + [record];
    assert more[|records|] == record;
    forall i: nat | i < |records|
      ensures more[i] == records[i]
    {
    }
    forall i: nat, j: nat, name | i < j <= |records|
      ensures EndsBetween(more, name, i, j) <==> EndsBetween(records, name, i, j)
    {
      EndsBetweenWithin(records, record, name, i, j);
    }
    if Apart(more) {
      forall i, j | 0 <= i < j < |records| && Slow(records[i]).Some? && Slow(records[i]) == Slow(records[j])
        ensures EndsBetween(records, Slow(records[i]).value, i, j)
      {
        assert Slow(more[i]) == Slow(more[j]);
      }
    }
  }

  lemma DistinctAppend(records: seq<string>, record: string, m: map<string, bool>)
    requires Tabulates(m, records)
    ensures Distinct(records + [record]) <==>
            Distinct(records) && (Terminal(record).Some? ==> Terminal(record).value.0 !in m)
  {
    hide Terminal;
    var more := records + [record];
    assert more[|records|] == record;
    forall i: nat | i < |records|
      ensures more[i] == records[i]
    {
    }
    if Distinct(more) {
      forall i, j | 0 <= i < j < |records| && Terminal(records[i]).Some? && Terminal(records[j]).Some?
        ensures Terminal(records[i]).value.0 != Terminal(records[j]).value.0
      {
        assert Terminal(more[i]).value.0 != Terminal(more[j]).value.0;
      }
    }
  }

  ghost function Entered(m: map<string, bool>, record: string): map<string, bool> {
    if Terminal(record).Some? then m[Terminal(record).value.0 := Terminal(record).value.1] else m
  }

  lemma TabulatesAppend(m: map<string, bool>, records: seq<string>, record: string)
    requires Tabulates(m, records) && (Terminal(record).Some? ==> Terminal(record).value.0 !in m)
    ensures Tabulates(Entered(m, record), records + [record])
  {
    hide Terminal;
    var more, m' := records + [record], Entered(m, record);
    assert more[|records|] == record;
    forall i: nat | i < |records|
      ensures more[i] == records[i]
    {
    }
    forall name | name in m'
      ensures exists k :: 0 <= k < |more| && Terminal(more[k]) == Some((name, m'[name]))
    {
      if name in m {
        var k :| 0 <= k < |records| && Terminal(records[k]) == Some((name, m[name]));
        assert Terminal(more[k]) == Some((name, m'[name]));
      } else {
        assert Terminal(more[|records|]) == Some((name, m'[name]));
      }
    }
  }

  lemma TabulatesOnce(m: map<string, bool>, m': map<string, bool>, records: seq<string>)
    requires Tabulates(m, records) && Tabulates(m', records)
    ensures m == m'
  {
    hide Terminal;
    assert forall name | name in m :: name in m' && m'[name] == m[name];
    assert forall name | name in m' :: name in m;
  }

  // ---------------------------------------------------------------- the running state of a harness

  ghost predicate Remembers(warnings: set<string>, records: seq<string>) {
    forall name :: name in warnings <==> Outstanding(records, name)
  }

  /** What the running state of a harness says about the lines read so far. */
  ghost predicate Follows(h: Tests, body: seq<string>) {
    var records := Records(body);
    && AllBegin(body) && AllReadable(records) && Distinct(records) && Apart(records)
    && Tabulates(h.records, records) && Remembers(h.warnings, records)
    && h.pending == Awaited(records) && |h.records| <= h.declared
  }

  /** The effect of one readable record on the running state. */
  lemma RecordedIs(h: Tests, record: string)
    requires h.pending.None?
    ensures Recorded(h, record).Some? <==>
            && Readable(record)
            && (Terminal(record).Some? ==> |h.records| < h.declared && Terminal(record).value.0 !in h.records)
            && (Slow(record).Some? ==> |h.warnings| < h.declared && Slow(record).value !in h.warnings)
    ensures Recorded(h, record).Some? ==>
              var next := Recorded(h, record).value;
              && next.declared == h.declared && next.records == Entered(h.records, record)
              && next.pending == Awaiting(record)
              && (forall name :: name in next.warnings <==>
                    !Ends(record, name) && (name in h.warnings || Slow(record) == Some(name)))
    ensures Terminal(record).Some? ==> Slow(record).None? && Awaiting(record).None?
  {
    hide RSplitOnce, SplitOnce, BareName, HasControl, Seconds;
  }

  lemma FollowsStart(declared: nat)
    ensures Follows(Tests(declared, map[], None, {}), [])
  {
  }

  lemma AllReadableAppend(records: seq<string>, record: string)
    ensures AllReadable(records + [record]) <==> AllReadable(records) && Readable(record)
  {
    hide Readable;
    var more := records + [record];
    assert more[|records|] == record;
    assert forall k | 0 <= k < |records| :: more[k] == records[k];
  }

  lemma RemembersAppend(warnings: set<string>, next: set<string>, records: seq<string>, record: string)
    requires Remembers(warnings, records)
    requires forall name :: name in next <==>
                      !Ends(record, name) && (name in warnings || Slow(record) == Some(name))
    ensures Remembers(next, records + [record])
  {
    hide Slow, Ends, Outstanding;
    forall name
      ensures name in next <==> Outstanding(records + [record], name)
    {
      OutstandingAppend(records, record, name);
    }
  }

  /** An accepted record is one more readable, new record behind the lines read so far. */
  lemma FollowsStep(h: Tests, body: seq<string>, line: string)
    requires Follows(h, body) && Begins(h.pending, line)
    requires Recorded(h.(pending := None), Join(h.pending, line)).Some?
    ensures Follows(Recorded(h.(pending := None), Join(h.pending, line)).value, body + [line])
    ensures Recorded(h.(pending := None), Join(h.pending, line)).value.declared == h.declared
  {
    var records, record := Records(body), Join(h.pending, line);
    var next := Recorded(h.(pending := None), record).value;
    RecordsAppend(body, line);
    AllBeginAppend(body, line);
    RecordedIs(h.(pending := None), record);
    hide Recorded, Records, Join, Readable, Terminal, Slow, Awaiting, Begins, AllBegin, Outstanding, Ends, AllReadable,
         Distinct, Apart, Tabulates, Remembers;
    AllReadableAppend(records, record);
    DistinctAppend(records, record, h.records);
    ApartAppend(records, record);
    assert Slow(record).Some? ==> !Outstanding(records, Slow(record).value) by {
      RememberedIs(h.warnings, records);
    }
    TabulatesAppend(h.records, records, record);
    RemembersAppend(h.warnings, next.warnings, records, record);
    EnteredSize(h.records, record);
    assert (records + [record])[|records|] == record;
  }

  lemma RememberedIs(warnings: set<string>, records: seq<string>)
    requires Remembers(warnings, records)
    ensures forall name :: name in warnings <==> Outstanding(records, name)
  {
  }

  lemma EnteredSize(m: map<string, bool>, record: string)
    ensures |Entered(m, record)| <= |m| + if Terminal(record).Some? then 1 else 0
  {
    hide Terminal;
    if Terminal(record).Some? {
      var name := Terminal(record).value.0;
      assert Entered(m, record).Keys == m.Keys + {name};
      assert |Entered(m, record)| == |m.Keys + {name}|;
    }
  }

  // ---------------------------------------------------------------- from the running state to blocks

  lemma RemembersNothing(warnings: set<string>, records: seq<string>)
    requires Remembers(warnings, records)
    ensures warnings == {} <==> Settled(records)
  {
    hide Slow, EndsBetween;
    forall name
      ensures name in warnings <==> Outstanding(records, name)
    {
    }
    if Settled(records) {
      assert forall name :: !Outstanding(records, name);
    } else {
      var i :| 0 <= i < |records| && Slow(records[i]).Some? &&
               !EndsBetween(records, Slow(records[i]).value, i, |records|);
      assert Outstanding(records, Slow(records[i]).value);
    }
  }

  lemma ConcludedIs(finite: Finite, h: Tests, summary: string)
    requires Concluded(finite, h, summary).Some?
    ensures var o := Concluded(finite, h, summary).value;
      && o.records == h.records && |o.records| == h.declared && h.pending.None? && h.warnings == {}
      && SummaryFits(finite, summary, o.passed, o.ignored) && Reconciled(o)
  {
    ConcludedReconciles(finite, h, summary);
    hide SummaryFits, Passing, Reconciled;
  }

  /** A finished harness and its lines are a block with its outcome. */
  lemma ConcludedExplains(finite: Finite, h: Tests, start: string, body: seq<string>, line: string)
    requires Follows(h, body) && DeclaredBy(start) == [h.declared]
    requires StripPrefix(line, "test result: ok. ").Some?
    requires Concluded(finite, h, StripPrefix(line, "test result: ok. ").value).Some?
    ensures Explains(finite, Block(start, body, line, []),
                     Concluded(finite, h, StripPrefix(line, "test result: ok. ").value).value)
  {
    hide Records, AllBegin, AllReadable, Distinct, Apart, Tabulates, Remembers, Settled, SummaryFits, Passing,
         Reconciled, DeclaredBy, StripPrefix, Concluded, Awaited;
    ConcludedIs(finite, h, StripPrefix(line, "test result: ok. ").value);
    RemembersNothing(h.warnings, Records(body));
  }

  /** The blocks read so far and the lines of the harness that is still open. */
  datatype Reading = Reading(blocks: seq<Block>, open: Option<(string, seq<string>)>)

  ghost function OpenLines(open: Option<(string, seq<string>)>): seq<string> {
    match open
    case None => []
    case Some((start, body)) => [start] + body
  }

  ghost function ReadLines(r: Reading): seq<string> {
    Flat(r.blocks) + OpenLines(r.open)
  }

  ghost predicate FollowsOpen(active: Option<Tests>, open: Option<(string, seq<string>)>) {
    && (active.Some? <==> open.Some?)
    && (active.Some? ==> DeclaredBy(open.value.0) == [active.value.declared] && Follows(active.value, open.value.1))
  }

  ghost predicate Reads(finite: Finite, p: Progress, r: Reading) {
    AllExplain(finite, r.blocks, p.finished) && FollowsOpen(p.active, r.open)
  }

  lemma FlatAppend(blocks: seq<Block>, b: Block)
    ensures Flat(blocks + [b]) == Flat(blocks) + BlockLines(b)
  {
    assert (blocks + [b])[..|blocks|] == blocks;
  }

  lemma AllExplainAppend(finite: Finite, blocks: seq<Block>, outcomes: seq<Outcome>, b: Block, o: Outcome)
    ensures |blocks| == |outcomes| ==>
              (AllExplain(finite, blocks + [b], outcomes + [o]) <==>
               AllExplain(finite, blocks, outcomes) && Explains(finite, b, o))
  {
    hide Explains;
    if |blocks| == |outcomes| {
      var blocks', outcomes' := blocks + [b], outcomes + [o];
      assert blocks'[|blocks|] == b && outcomes'[|blocks|] == o;
      assert forall i | 0 <= i < |blocks| :: blocks'[i] == blocks[i] && outcomes'[i] == outcomes[i];
      assert AllExplain(finite, blocks', outcomes') ==> forall i | 0 <= i < |blocks| ::
          Explains(finite, blocks'[i], outcomes'[i]);
    }
  }

  lemma OneMoreTime(finite: Finite, b: Block, o: Outcome, line: string)
    ensures Explains(finite, b.(times := b.times + [line]), o) <==> Explains(finite, b, o) && Timing(finite, line)
    ensures BlockLines(b.(times := b.times + [line])) == BlockLines(b) + [line]
  {
    hide Timing, Records, AllBegin, AllReadable, Distinct, Apart, Tabulates, Settled, SummaryFits, Reconciled,
         DeclaredBy, Awaited;
    var times := b.times + [line];
    assert times[|b.times|] == line;
    assert forall k | 0 <= k < |b.times| :: times[k] == b.times[k];
    if forall k | 0 <= k < |times| :: Timing(finite, times[k]) {
      assert forall k | 0 <= k < |b.times| :: Timing(finite, times[k]);
    }
  }

  lemma TimedReads(finite: Finite, p: Progress, r: Reading, line: string) returns (r': Reading)
    requires Reads(finite, p, r) && p.active.None? && p.finished != [] && Timing(finite, line)
    ensures Reads(finite, p, r') && ReadLines(r') == ReadLines(r) + [line]
  {
    hide Timing, Explains, BlockLines;
    var n := |r.blocks| - 1;
    var init, last := r.blocks[..n], r.blocks[n];
    var last' := last.(times := last.times + [line]);
    OneMoreTime(finite, last, p.finished[n], line);
    FlatAppend(init, last');
    r' := Reading(init + [last'], None);
    assert Explains(finite, last, p.finished[n]);
    assert forall i | 0 <= i < n :: init[i] == r.blocks[i];
  }

  lemma EndedReads(finite: Finite, p: Progress, r: Reading, line: string) returns (r': Reading)
    requires Reads(finite, p, r) && StripPrefix(line, "test result: ok. ").Some?
    requires Ended(finite, p, StripPrefix(line, "test result: ok. ").value).Some?
    ensures Reads(finite, Ended(finite, p, StripPrefix(line, "test result: ok. ").value).value, r')
    ensures ReadLines(r') == ReadLines(r) + [line]
  {
    hide Explains, Follows, Concluded, DeclaredBy, AllExplain, StripPrefix, Flat;
    var (start, body) := r.open.value;
    var summary := StripPrefix(line, "test result: ok. ").value;
    ConcludedExplains(finite, p.active.value, start, body, line);
    var b := Block(start, body, line, []);
    AllExplainAppend(finite, r.blocks, p.finished, b, Concluded(finite, p.active.value, summary).value);
    assert |r.blocks| == |p.finished| by { ExplainLengths(finite, r.blocks, p.finished); }
    FlatAppend(r.blocks, b);
    r' := Reading(r.blocks + [b], None);
    assert Flat(r.blocks) + BlockLines(b) == Flat(r.blocks) + ([start] + body) + [line];
  }

  lemma ExplainLengths(finite: Finite, blocks: seq<Block>, outcomes: seq<Outcome>)
    requires AllExplain(finite, blocks, outcomes)
    ensures |blocks| == |outcomes|
  {
  }

  lemma ToldReads(finite: Finite, p: Progress, r: Reading, line: string) returns (r': Reading)
    requires Reads(finite, p, r) && p.active.Some? && Begins(p.active.value.pending, line)
    requires Told(p, p.active.value.(pending := None), Join(p.active.value.pending, line)).Some?
    ensures Reads(finite, Told(p, p.active.value.(pending := None), Join(p.active.value.pending, line)).value, r')
    ensures ReadLines(r') == ReadLines(r) + [line]
  {
    hide Follows, Recorded, Join, Begins, DeclaredBy, AllExplain, Flat;
    var (start, body) := r.open.value;
    FollowsStep(p.active.value, body, line);
    r' := r.(open := Some((start, body + [line])));
    assert Flat(r.blocks) + ([start] + body) + [line] == Flat(r.blocks) + ([start] + (body + [line]));
  }

  lemma StartedIs(p: Progress, line: string) returns (count: nat)
    requires StripPrefix(line, "running ").Some? && Started(p, StripPrefix(line, "running ").value).Some?
    ensures p.active.None? && DeclaredBy(line) == [count]
    ensures Started(p, StripPrefix(line, "running ").value) ==
            Some(Progress(Some(Tests(count, map[], None, {})), p.finished, p.total + count))
  {
    hide Declaration;
    count := Declaration(StripPrefix(line, "running ").value).value;
  }

  lemma StartedReads(finite: Finite, p: Progress, r: Reading, line: string) returns (r': Reading)
    requires Reads(finite, p, r) && StripPrefix(line, "running ").Some?
    requires Started(p, StripPrefix(line, "running ").value).Some?
    ensures Reads(finite, Started(p, StripPrefix(line, "running ").value).value, r')
    ensures ReadLines(r') == ReadLines(r) + [line]
  {
    hide Follows, Started, StripPrefix, DeclaredBy, AllExplain, Flat;
    var count := StartedIs(p, line);
    FollowsStart(count);
    r' := r.(open := Some((line, [])));
    assert Flat(r.blocks) + [] == Flat(r.blocks);
  }

  /** Every accepted line continues the report read so far. */
  lemma LineReads(finite: Finite, p: Progress, r: Reading, line: string) returns (r': Reading)
    requires Reads(finite, p, r) && Line(finite, p, line).Some?
    ensures Reads(finite, Line(finite, p, line).value, r')
    ensures ReadLines(r') == ReadLines(r) + [line]
  {
    hide Reads, ReadLines, Told, Started, Ended, TimesFit;
    if p.active.Some? && p.active.value.pending.Some? {
      r' := ToldReads(finite, p, r, line);
    } else if StripPrefix(line, "running ").Some? {
      r' := StartedReads(finite, p, r, line);
    } else if StripPrefix(line, "test result: ok. ").Some? {
      r' := EndedReads(finite, p, r, line);
    } else if StripPrefix(line, "test ").Some? {
      assert p.active.value.(pending := None) == p.active.value;
      r' := ToldReads(finite, p, r, line);
    } else {
      r' := TimedReads(finite, p, r, line);
    }
  }

  lemma {:induction false} ScanReads(finite: Finite, p: Progress, r: Reading, lines: seq<string>)
    returns (r': Reading)
    requires Reads(finite, p, r) && Scan(finite, p, lines).Some?
    ensures Reads(finite, Scan(finite, p, lines).value, r')
    ensures ReadLines(r') == ReadLines(r) + lines
    decreases |lines|
  {
    hide Reads, ReadLines, Line;
    if lines == [] {
      r' := r;
    } else {
      r' := LineReads(finite, p, r, lines[0]);
      r' := ScanReads(finite, Line(finite, p, lines[0]).value, r', lines[1..]);
      assert ReadLines(r) + [lines[0]] + lines[1..] == ReadLines(r) + lines;
    }
  }

  /** Every accepted report is one block after the other, each explaining its outcome. */
  lemma AcceptedReads(finite: Finite, text: string) returns (blocks: seq<Block>)
    requires Inspected(finite, text).Some?
    ensures Lines(text) == Flat(blocks) && Report(finite, blocks, Inspected(finite, text).value)
  {
    AcceptedMeans(finite, text);
    ReadsNothing(finite);
    hide Reads, Lines, Scan, Explains, Declared;
    var r := ScanReads(finite, START, Reading([], None), Lines(text));
    blocks := r.blocks;
    assert Reads(finite, Scan(finite, START, Lines(text)).value, r);
    ReadsDone(finite, Scan(finite, START, Lines(text)).value, r);
    assert [] + Lines(text) == Lines(text);
  }

  lemma ReadsNothing(finite: Finite)
    ensures Reads(finite, START, Reading([], None)) && ReadLines(Reading([], None)) == []
  {
  }

  lemma ReadsDone(finite: Finite, p: Progress, r: Reading)
    requires Reads(finite, p, r) && p.active.None?
    ensures AllExplain(finite, r.blocks, p.finished) && ReadLines(r) == Flat(r.blocks)
  {
    assert Flat(r.blocks) + [] == Flat(r.blocks);
  }

  // ---------------------------------------------------------------- from blocks to the running state

  lemma {:induction false} RecordsPrefix(body: seq<string>, k: nat)
    requires k <= |body|
    ensures Records(body[..k]) == Records(body)[..k]
    decreases |body|
  {
    hide Join, Awaited;
    if k < |body| {
      var init := body[..|body| - 1];
      RecordsPrefix(init, k);
      assert init[..k] == body[..k];
    } else {
      assert body[..k] == body;
    }
  }

  lemma RecordsUpTo(body: seq<string>, k: nat)
    requires k < |body|
    ensures Records(body[..k + 1]) == Records(body[..k]) + [Join(Awaited(Records(body[..k])), body[k])]
  {
    hide Join, Awaited, Records;
    RecordsAppend(body[..k], body[k]);
    assert body[..k] + [body[k]] == body[..k + 1];
  }

  lemma RecordAt(body: seq<string>, k: nat)
    requires k < |body|
    ensures Records(body)[k] == Join(Awaited(Records(body[..k])), body[k])
  {
    hide Join, Awaited, Records;
    RecordsPrefix(body, k + 1);
    RecordsUpTo(body, k);
    LastOfPrefix(Records(body), Records(body[..k]), Join(Awaited(Records(body[..k])), body[k]));
  }

  lemma LastOfPrefix(all: seq<string>, before: seq<string>, last: string)
    requires |before| < |all| && all[..|before| + 1] == before + [last]
    ensures all[|before|] == last
  {
    assert (before + [last])[|before|] == last;
  }

  ghost function BareNames(names: set<string>): set<string> {
    set name | name in names :: BareName(name)
  }

  lemma {:induction false} FewerBareNames(names: set<string>)
    ensures |BareNames(names)| <= |names|
    decreases |names|
  {
    hide BareName;
    if names != {} {
      var name :| name in names;
      FewerBareNames(names - {name});
      assert BareNames(names) == BareNames(names - {name}) + {BareName(name)};
    } else {
      assert BareNames(names) == {};
    }
  }

  /** A settled warning carries the bare name of some recorded test. */
  lemma SettledName(m: map<string, bool>, records: seq<string>, i: nat, name: string)
    requires Tabulates(m, records) && Settled(records)
    requires i < |records| && Slow(records[i]) == Some(name)
    ensures name in BareNames(m.Keys)
  {
    hide Terminal, Slow, BareName;
    var k :| i <= k < |records| && Ends(records[k], name);
    assert Terminal(records[k]).value.0 in m;
  }

  lemma RoomForName(m: map<string, bool>, records: seq<string>, h: Tests, k: nat)
    requires Tabulates(m, records) && Distinct(records)
    requires k < |records| && Terminal(records[k]).Some? && Tabulates(h.records, records[..k])
    ensures Terminal(records[k]).value.0 !in h.records && |h.records| < |m|
  {
    hide Terminal;
    var name := Terminal(records[k]).value.0;
    forall other | other in h.records
      ensures other in m && other != name
    {
      var j :| 0 <= j < k && Terminal(records[..k][j]) == Some((other, h.records[other]));
      assert records[..k][j] == records[j];
    }
    assert |h.records.Keys + {name}| == |h.records| + 1;
    Sequences.SubsetSize(h.records.Keys + {name}, m.Keys);
  }

  lemma RoomForWarning(m: map<string, bool>, records: seq<string>, warnings: set<string>, k: nat)
    requires Tabulates(m, records) && Apart(records) && Settled(records)
    requires k < |records| && Slow(records[k]).Some? && Remembers(warnings, records[..k])
    ensures Slow(records[k]).value !in warnings && |warnings| < |m|
  {
    hide Slow, Tabulates, Settled, BareNames, EndsBetween, Apart;
    var name := Slow(records[k]).value;
    forall other | other in warnings
      ensures other in BareNames(m.Keys) && other != name
    {
      var i :| 0 <= i < k && Slow(records[..k][i]) == Some(other) && !EndsBetween(records[..k], other, i, k);
      assert records[..k][i] == records[i];
      SettledName(m, records, i, other);
      ApartBefore(records, i, k, other);
    }
    SettledName(m, records, k, name);
    FewerBareNames(m.Keys);
    assert |warnings + {name}| == |warnings| + 1;
    Sequences.SubsetSize(warnings + {name}, BareNames(m.Keys));
  }

  lemma BetweenPrefix(records: seq<string>, name: string, i: nat, k: nat)
    requires i <= k <= |records|
    ensures EndsBetween(records[..k], name, i, k) <==> EndsBetween(records, name, i, k)
  {
    hide Ends;
    forall j | 0 <= j < k
      ensures records[..k][j] == records[j]
    {
    }
    if EndsBetween(records, name, i, k) {
      var j :| i <= j < k && Ends(records[j], name);
      assert Ends(records[..k][j], name);
    }
  }

  lemma ApartBefore(records: seq<string>, i: nat, k: nat, name: string)
    requires i < k < |records| && Apart(records) && Slow(records[i]) == Some(name)
    requires !EndsBetween(records[..k], name, i, k)
    ensures Slow(records[k]) != Some(name)
  {
    hide Slow, EndsBetween;
    BetweenPrefix(records, name, i, k);
  }

  /** A record of a block is accepted in the state that its earlier lines lead to. */
  lemma NextRecorded(finite: Finite, b: Block, o: Outcome, h: Tests, k: nat)
    requires Explains(finite, b, o) && k < |b.body|
    requires Follows(h, b.body[..k]) && h.declared == |o.records|
    ensures Begins(h.pending, b.body[k])
    ensures Recorded(h.(pending := None), Join(h.pending, b.body[k])).Some?
  {
    var records := Records(b.body);
    RecordsPrefix(b.body, k);
    RecordAt(b.body, k);
    RecordedIs(h.(pending := None), records[k]);
    hide Recorded, Records, Join, Readable, Terminal, Slow, Awaiting, Begins, Distinct, Apart, Tabulates, Remembers,
         Settled, SummaryFits, Reconciled, Timing, DeclaredBy, StripPrefix;
    if Terminal(records[k]).Some? {
      RoomForName(o.records, records, h, k);
    }
    if Slow(records[k]).Some? {
      RoomForWarning(o.records, records, h.warnings, k);
    }
  }

  lemma LineTold(finite: Finite, p: Progress, line: string)
    requires p.active.Some? && Begins(p.active.value.pending, line)
    ensures Line(finite, p, line) == Told(p, p.active.value.(pending := None), Join(p.active.value.pending, line))
  {
    hide Told, Started, Ended, TimesFit;
    if p.active.value.pending.None? {
      assert p.active.value.(pending := None) == p.active.value;
      assert line[0] == 't';
    }
  }

  ghost predicate InBlock(p: Progress, q: Progress, b: Block, o: Outcome, k: nat) {
    && k <= |b.body|
    && q.active.Some? && q.finished == p.finished && q.total == p.total
    && Follows(q.active.value, b.body[..k]) && q.active.value.declared == |o.records|
  }

  lemma LineInBlock(finite: Finite, p: Progress, q: Progress, b: Block, o: Outcome, k: nat)
    requires Explains(finite, b, o) && InBlock(p, q, b, o, k) && k < |b.body|
    ensures Line(finite, q, b.body[k]).Some? && InBlock(p, Line(finite, q, b.body[k]).value, b, o, k + 1)
  {
    hide Explains, Follows, Recorded, Join, Begins, Line;
    NextRecorded(finite, b, o, q.active.value, k);
    FollowsStep(q.active.value, b.body[..k], b.body[k]);
    LineTold(finite, q, b.body[k]);
    assert b.body[..k] + [b.body[k]] == b.body[..k + 1];
  }

  lemma {:induction false} BodyScans(finite: Finite, p: Progress, q: Progress, b: Block, o: Outcome, k: nat)
    requires Explains(finite, b, o) && InBlock(p, q, b, o, k)
    ensures Scan(finite, q, b.body[k..]).Some? && InBlock(p, Scan(finite, q, b.body[k..]).value, b, o, |b.body|)
    decreases |b.body| - k
  {
    hide Explains, InBlock, Line;
    assert k <= |b.body| by { InBlockBounds(p, q, b, o, k); }
    if k < |b.body| {
      LineInBlock(finite, p, q, b, o, k);
      BodyScans(finite, p, Line(finite, q, b.body[k]).value, b, o, k + 1);
      assert b.body[k..][0] == b.body[k] && b.body[k..][1..] == b.body[k + 1..];
    }
  }

  lemma InBlockBounds(p: Progress, q: Progress, b: Block, o: Outcome, k: nat)
    requires InBlock(p, q, b, o, k)
    ensures k <= |b.body|
  {
  }

  lemma LineStarts(finite: Finite, p: Progress, line: string, count: nat)
    requires p.active.None? && DeclaredBy(line) == [count]
    requires |p.finished| < MAX_HARNESSES && p.total + count <= MAX_TESTS
    ensures Line(finite, p, line) ==
            Some(Progress(Some(Tests(count, map[], None, {})), p.finished, p.total + count))
  {
    hide Declaration;
  }

  lemma LineEnds(finite: Finite, p: Progress, line: string)
    requires p.active.Some? && p.active.value.pending.None? && StripPrefix(line, "test result: ok. ").Some?
    ensures Line(finite, p, line) == Ended(finite, p, StripPrefix(line, "test result: ok. ").value)
  {
    hide Ended, Started, Told;
    assert line[0] == 't';
  }

  lemma ExplainsEnds(finite: Finite, b: Block, o: Outcome)
    requires Explains(finite, b, o)
    ensures DeclaredBy(b.start) == [|o.records|]
    ensures Tabulates(o.records, Records(b.body)) && Awaited(Records(b.body)).None? && Settled(Records(b.body))
    ensures StripPrefix(b.summary, "test result: ok. ").Some?
    ensures SummaryFits(finite, StripPrefix(b.summary, "test result: ok. ").value, o.passed, o.ignored)
    ensures Reconciled(o)
    ensures forall k | 0 <= k < |b.times| :: Timing(finite, b.times[k])
  {
    hide Declaration, Records, AllBegin, AllReadable, Distinct, Apart, Tabulates, Settled, SummaryFits, Reconciled,
         Awaited, Timing, StripPrefix, DeclaredBy;
  }

  /** The start line of a block opens a harness, if the budgets allow it. */
  lemma StartScans(finite: Finite, p: Progress, b: Block, o: Outcome)
    requires Explains(finite, b, o) && p.active.None?
    requires |p.finished| < MAX_HARNESSES && p.total + |o.records| <= MAX_TESTS
    ensures Line(finite, p, b.start).Some?
    ensures InBlock(p.(total := p.total + |o.records|), Line(finite, p, b.start).value, b, o, 0)
  {
    hide Explains, Line, DeclaredBy, Follows, Records, Tabulates, Settled, SummaryFits, StripPrefix, Timing,
         Reconciled, Awaited;
    ExplainsEnds(finite, b, o);
    LineStarts(finite, p, b.start, |o.records|);
    FollowsStart(|o.records|);
    assert b.body[..0] == [];
  }

  lemma FollowsMeans(h: Tests, body: seq<string>)
    requires Follows(h, body)
    ensures Tabulates(h.records, Records(body)) && Remembers(h.warnings, Records(body))
    ensures h.pending == Awaited(Records(body))
  {
    hide Records, AllBegin, AllReadable, Distinct, Apart, Tabulates, Remembers, Awaited;
  }

  lemma Concludes(finite: Finite, h: Tests, summary: string, o: Outcome)
    requires h.records == o.records && |o.records| == h.declared && h.pending.None? && h.warnings == {}
    requires SummaryFits(finite, summary, o.passed, o.ignored) && Reconciled(o)
    ensures Concluded(finite, h, summary) == Some(o)
  {
    hide SummaryFits, Passing;
  }

  /** The summary line of a block closes the harness with the block's outcome. */
  lemma SummaryScans(finite: Finite, p: Progress, q: Progress, b: Block, o: Outcome)
    requires Explains(finite, b, o) && InBlock(p, q, b, o, |b.body|)
    ensures Line(finite, q, b.summary) == Some(Progress(None, p.finished + [o], p.total))
  {
    hide Explains, Line, DeclaredBy, Follows, Concluded, StripPrefix, Records, Awaited, Settled, Tabulates, Remembers,
         SummaryFits, Reconciled;
    var h := q.active.value;
    assert b.body[..|b.body|] == b.body;
    ExplainsEnds(finite, b, o);
    FollowsMeans(h, b.body);
    TabulatesOnce(h.records, o.records, Records(b.body));
    RemembersNothing(h.warnings, Records(b.body));
    Concludes(finite, h, StripPrefix(b.summary, "test result: ok. ").value, o);
    LineEnds(finite, q, b.summary);
  }

  lemma {:induction false} TimesScan(finite: Finite, p: Progress, times: seq<string>)
    requires p.active.None? && p.finished != []
    requires forall k | 0 <= k < |times| :: Timing(finite, times[k])
    ensures Scan(finite, p, times) == Some(p)
    decreases |times|
  {
    hide Timing, Line;
    if times != [] {
      assert Timing(finite, times[0]);
      TimeScans(finite, p, times[0]);
      forall k | 0 <= k < |times[1..]|
        ensures Timing(finite, times[1..][k])
      {
        assert times[1..][k] == times[k + 1];
      }
      TimesScan(finite, p, times[1..]);
    }
  }

  lemma TimeScans(finite: Finite, p: Progress, line: string)
    requires p.active.None? && p.finished != [] && Timing(finite, line)
    ensures Line(finite, p, line) == Some(p)
  {
    hide TimesFit, Started, Told, Ended;
    assert line[0] == 'a';
  }

  /** A block is accepted as a whole and adds its outcome. */
  lemma BlockScans(finite: Finite, p: Progress, b: Block, o: Outcome)
    requires Explains(finite, b, o) && p.active.None?
    requires |p.finished| < MAX_HARNESSES && p.total + |o.records| <= MAX_TESTS
    ensures Scan(finite, p, BlockLines(b)) == Some(Progress(None, p.finished + [o], p.total + |o.records|))
  {
    hide Explains, InBlock, Line, Scan, Timing, SummaryFits, StripPrefix, DeclaredBy, Tabulates, Awaited, Settled,
         Reconciled, Records;
    var base := p.(total := p.total + |o.records|);
    var front, closed := [b.start] + b.body, [b.start] + b.body + [b.summary];
    StartScans(finite, p, b, o);
    ScanOne(finite, p, b.start);
    var q := Line(finite, p, b.start).value;
    assert b.body[0..] == b.body;
    BodyScans(finite, base, q, b, o, 0);
    ScanConcat(finite, p, [b.start], b.body);
    var q' := Scan(finite, q, b.body).value;
    SummaryScans(finite, base, q', b, o);
    ScanOne(finite, q', b.summary);
    ScanConcat(finite, p, front, [b.summary]);
    ExplainsEnds(finite, b, o);
    TimesScan(finite, Progress(None, p.finished + [o], base.total), b.times);
    ScanConcat(finite, p, closed, b.times);
  }

  lemma SumSizesAppend(outcomes: seq<Outcome>, o: Outcome)
    ensures Sum(Sizes(outcomes + [o])) == Sum(Sizes(outcomes)) + |o.records|
  {
    SizesAppend(outcomes, o);
    SumAppend(Sizes(outcomes), |o.records|);
  }

  lemma ScansNothing(finite: Finite)
    ensures Scan(finite, START, []) == Some(START) && Sum(Sizes([])) == 0
  {
  }

  lemma {:induction false} BlocksScan(finite: Finite, blocks: seq<Block>, outcomes: seq<Outcome>)
    requires AllExplain(finite, blocks, outcomes)
    requires |outcomes| <= MAX_HARNESSES && Sum(Sizes(outcomes)) <= MAX_TESTS
    ensures Scan(finite, START, Flat(blocks)) == Some(Progress(None, outcomes, Sum(Sizes(outcomes))))
    decreases |blocks|
  {
    hide Explains, Scan, BlockLines, Sum, Sizes;
    ScansNothing(finite);
    if blocks != [] {
      var n := |blocks| - 1;
      var b, o, blocks', outcomes' := blocks[n], outcomes[n], blocks[..n], outcomes[..n];
      assert outcomes == outcomes' + [o];
      assert Explains(finite, b, o);
      assert AllExplain(finite, blocks', outcomes');
      SumSizesAppend(outcomes', o);
      BlocksScan(finite, blocks', outcomes');
      BlockScans(finite, Progress(None, outcomes', Sum(Sizes(outcomes'))), b, o);
      ScanConcat(finite, START, Flat(blocks'), BlockLines(b));
    } else {
      assert outcomes == [];
    }
  }

  // ---------------------------------------------------------------- the theorem

  ghost predicate EndsALine(text: string) {
    text != "" && text[|text| - 1] == '\n'
  }

  /**
   The inspector accepts exactly the texts that are reports, and answers with their outcomes:
   in every block the recorded names are exactly those of its terminal records, interrupted
   names joined; they are distinct and as many as declared; every warning is followed by the
   end of the test it names; nothing is left waiting; and the summary counts the records.
   */
  lemma AcceptedExactly(finite: Finite, text: string, outcomes: seq<Outcome>)
    ensures Inspected(finite, text) == Some(outcomes) <==>
            EndsALine(text) && exists blocks :: Lines(text) == Flat(blocks) && Report(finite, blocks, outcomes)
  {
    hide Scan, Lines, Explains, Flat;
    if Inspected(finite, text) == Some(outcomes) {
      var blocks := AcceptedReads(finite, text);
    }
    if EndsALine(text) {
      forall blocks | Lines(text) == Flat(blocks) && Report(finite, blocks, outcomes)
        ensures Inspected(finite, text) == Some(outcomes)
      {
        BlocksScan(finite, blocks, outcomes);
      }
    }
  }
}
