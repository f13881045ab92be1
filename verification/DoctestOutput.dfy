/** Reconciling a line-oriented test report: every declared test ends once, and the counts agree. */
module DoctestOutput {
  import opened Wrappers
  import opened Text

  const MAX_HARNESSES := 1024
  const MAX_TESTS := 100000
  const U64_MAX := 0xFFFF_FFFF_FFFF_FFFF

  const RUNNING := " has been running for over "
  const RESULT := " ... "
  const AWAITING := " ... test "

  /** Which texts parse as a finite, nonnegative floating-point number. */
  type Finite = string -> bool

  /** Unicode category Cc. */
  predicate Control(c: char) {
    c < ' ' || 0x7F <= c as int <= 0x9F
  }

  predicate HasControl(s: string) {
    exists i | 0 <= i < |s| :: Control(s[i])
  }

  datatype Tests = Tests(declared: nat, records: map<string, bool>, pending: Option<string>, warnings: set<string>)

  /** A completed harness: how many passed and were ignored, and the records its identity is taken over. */
  datatype Outcome = Outcome(passed: nat, ignored: nat, records: map<string, bool>)

  datatype Progress = Progress(active: Option<Tests>, finished: seq<Outcome>, total: nat)

  datatype ReportError = Rejected

  // ---------------------------------------------------------------- one harness

  /** `bare_name`: the warning's name lacks the execution mode. */
  function BareName(display: string): string {
    var fails := StripSuffix(display, " - compile fail");
    var compiles := StripSuffix(display, " - compile");
    var panics := StripSuffix(display, " - should panic");
    if fails.Some? then fails.value
    else if compiles.Some? then compiles.value
    else if panics.Some? then panics.value
    else display
  }

  function Seconds(duration: string): Option<nat> {
    match StripSuffix(duration, " seconds")
    case None => None
    case Some(value) =>
      match ParseNat(value, U64_MAX)
      case None => None
      case Some(seconds) => if seconds > 0 then Some(seconds) else None
  }

  /** `Harness::warning`. */
  function Warned(h: Tests, names: string, duration: string): Option<Tests> {
    if Seconds(duration).None? then None
    else
      match SplitOnce(names, AWAITING)
      case Some((display, name)) =>
        if BareName(display) != name then None else Noted(h.(pending := Some(display)), name)
      case None => Noted(h, names)
  }

  function Noted(h: Tests, name: string): Option<Tests> {
    if name == "" || HasControl(name) || |h.warnings| >= h.declared || name in h.warnings then None
    else Some(h.(warnings := h.warnings + {name}))
  }

  /** `Harness::record`: a slow-test warning or one unique terminal record. */
  function Recorded(h: Tests, record: string): Option<Tests> {
    match RSplitOnce(record, RUNNING)
    case Some((names, duration)) => Warned(h, names, duration)
    case None =>
      match RSplitOnce(record, RESULT)
      case None => None
      case Some((name, status)) =>
        if status != "ok" && status != "ignored" then None
        else if name == "" || HasControl(name) || |h.records| >= h.declared || name in h.records then None
        else Some(h.(records := h.records[name := status == "ok"], warnings := h.warnings - {BareName(name)}))
  }

  function Duration(finite: Finite, value: string): bool {
    match StripSuffix(value, "s")
    case None => false
    case Some(number) => finite(number)
  }

  function Passing(records: map<string, bool>): set<string> {
    set name | name in records && records[name]
  }

  function Counted(field: string, suffix: string, count: nat): bool {
    match StripSuffix(field, suffix)
    case None => false
    case Some(digits) => ParseNat(digits, U64_MAX) == Some(count)
  }

  /** The six fields of a summary, in order, for these counts and a readable duration. */
  predicate SummaryFits(finite: Finite, summary: string, passed: nat, ignored: nat) {
    var fields := Split(summary, "; ");
    && |fields| == 6
    && Counted(fields[0], " passed", passed) && Counted(fields[1], " failed", 0)
    && Counted(fields[2], " ignored", ignored) && Counted(fields[3], " measured", 0)
    && Counted(fields[4], " filtered out", 0)
    && StripPrefix(fields[5], "finished in ").Some?
    && Duration(finite, StripPrefix(fields[5], "finished in ").value)
  }

  /** `Harness::finish`: the summary agrees with the individual records, and nothing is outstanding. */
  function Concluded(finite: Finite, h: Tests, summary: string): Option<Outcome> {
    var passed := |Passing(h.records)|;
    PassingWithin(h.records);
    var ignored := |h.records| - passed;
    if SummaryFits(finite, summary, passed, ignored) && |h.records| == h.declared && h.pending.None? && h.warnings == {}
    then Some(Outcome(passed, ignored, h.records)) else None
  }

  lemma PassingWithin(records: map<string, bool>)
    ensures |Passing(records)| <= |records|
  {
    assert records.Keys == Passing(records) + (records.Keys - Passing(records));
    assert |records.Keys| == |records|;
  }

  // ---------------------------------------------------------------- one line

  /** The count a `running N tests` line declares. */
  function Declaration(declared: string): Option<nat> {
    match SplitOnce(declared, " ")
    case None => None
    case Some((digits, noun)) =>
      match ParseNat(digits, U64_MAX)
      case None => None
      case Some(count) => if noun == (if count == 1 then "test" else "tests") then Some(count) else None
  }

  function Started(p: Progress, declared: string): Option<Progress> {
    if p.active.Some? || |p.finished| == MAX_HARNESSES then None
    else
      match Declaration(declared)
      case None => None
      case Some(count) =>
        if count > MAX_TESTS - p.total then None
        else Some(Progress(Some(Tests(count, map[], None, {})), p.finished, p.total + count))
  }

  function Ended(finite: Finite, p: Progress, summary: string): Option<Progress> {
    if p.active.None? then None
    else
      match Concluded(finite, p.active.value, summary)
      case None => None
      case Some(outcome) => Some(p.(active := None, finished := p.finished + [outcome]))
  }

  function Told(p: Progress, h: Tests, record: string): Option<Progress> {
    match Recorded(h, record)
    case None => None
    case Some(next) => Some(p.(active := Some(next)))
  }

  predicate TimesFit(finite: Finite, times: string) {
    match SplitOnce(times, "; merged doctests compilation took ")
    case None => false
    case Some((elapsed, compilation)) => Duration(finite, elapsed) && Duration(finite, compilation)
  }

  predicate Timed(finite: Finite, p: Progress, times: string) {
    TimesFit(finite, times) && p.active.None? && p.finished != []
  }

  /** One nonempty line of the report. */
  function Line(finite: Finite, p: Progress, line: string): Option<Progress> {
    if p.active.Some? && p.active.value.pending.Some? then
      Told(p, p.active.value.(pending := None), p.active.value.pending.value + RESULT + line)
    else if StripPrefix(line, "running ").Some? then Started(p, StripPrefix(line, "running ").value)
    else if StripPrefix(line, "test result: ok. ").Some? then
      Ended(finite, p, StripPrefix(line, "test result: ok. ").value)
    else if StripPrefix(line, "test ").Some? then
      if p.active.None? then None else Told(p, p.active.value, StripPrefix(line, "test ").value)
    else if StripPrefix(line, "all doctests ran in ").Some? then
      if Timed(finite, p, StripPrefix(line, "all doctests ran in ").value) then Some(p) else None
    else None
  }

  ghost function Scan(finite: Finite, p: Progress, lines: seq<string>): Option<Progress>
    decreases |lines|
  {
    if lines == [] then Some(p)
    else
      match Line(finite, p, lines[0])
      case None => None
      case Some(next) => Scan(finite, next, lines[1..])
  }

  lemma {:induction false} ScanConcat(finite: Finite, p: Progress, a: seq<string>, b: seq<string>)
    ensures Scan(finite, p, a + b) ==
            match Scan(finite, p, a) { case None => None case Some(q) => Scan(finite, q, b) }
    decreases |a|
  {
    hide Line;
    if a == [] {
      assert a + b == b;
    } else {
      assert (a + b)[0] == a[0] && (a + b)[1..] == a[1..] + b;
      if Line(finite, p, a[0]).Some? {
        ScanConcat(finite, Line(finite, p, a[0]).value, a[1..], b);
      }
    }
  }

  lemma ScanOne(finite: Finite, p: Progress, line: string)
    ensures Scan(finite, p, [line]) == Line(finite, p, line)
  {
    hide Line;
    assert [line][1..] == [];
  }

  const START := Progress(None, [], 0)

  /** What the whole report yields, if it is accepted. */
  ghost function Inspected(finite: Finite, text: string): Option<seq<Outcome>> {
    if text == "" || text[|text| - 1] != '\n' then None
    else
      match Scan(finite, START, Lines(text))
      case None => None
      case Some(p) => if p.active.Some? || p.finished == [] then None else Some(p.finished)
  }

  // ---------------------------------------------------------------- what acceptance means

  /** What a line declares, if it starts a harness. */
  ghost function DeclaredBy(line: string): seq<nat> {
    var started := StripPrefix(line, "running ");
    var count := if started.Some? then Declaration(started.value) else None;
    if count.Some? then [count.value] else []
  }

  /** The counts declared by the lines that start a harness, in order. */
  ghost function Declared(lines: seq<string>): seq<nat> {
    if lines == [] then [] else DeclaredBy(lines[0]) + Declared(lines[1..])
  }

  ghost function Sizes(finished: seq<Outcome>): seq<nat> {
    if finished == [] then [] else Sizes(finished[..|finished| - 1]) + [|finished[|finished| - 1].records|]
  }

  ghost function Sum(counts: seq<nat>): nat {
    if counts == [] then 0 else Sum(counts[..|counts| - 1]) + counts[|counts| - 1]
  }

  ghost predicate Reconciled(o: Outcome) {
    o.passed == |Passing(o.records)| && o.passed + o.ignored == |o.records|
  }

  /** The counts declared so far: one record per declared test in every finished harness, then the active one. */
  ghost function Expected(p: Progress): seq<nat> {
    Sizes(p.finished) + if p.active.Some? then [p.active.value.declared] else []
  }

  ghost predicate Consistent(p: Progress) {
    && (forall o | o in p.finished :: Reconciled(o))
    && |p.finished| + (if p.active.Some? then 1 else 0) <= MAX_HARNESSES
    && p.total == Sum(Expected(p)) <= MAX_TESTS
    && (p.active.Some? ==> |p.active.value.records| <= p.active.value.declared)
  }

  lemma SumAppend(counts: seq<nat>, count: nat)
    ensures Sum(counts + [count]) == Sum(counts) + count
  {
    assert (counts + [count])[..|counts|] == counts;
  }

  lemma WarnedKeeps(h: Tests, names: string, duration: string)
    requires Warned(h, names, duration).Some?
    ensures Warned(h, names, duration).value.declared == h.declared
    ensures Warned(h, names, duration).value.records == h.records
    ensures StripSuffix(duration, " seconds").Some?
  {
    hide Contains, BareName;
  }

  predicate EndsWith(s: string, a: char, b: char) {
    |s| >= 2 && s[|s| - 2] == a && s[|s| - 1] == b
  }

  lemma EndsLike(front: string, back: string, a: char, b: char)
    requires EndsWith(back, a, b)
    ensures EndsWith(front + back, a, b)
  {
  }

  lemma WarnedEnds(front: string, h: Tests, names: string, duration: string)
    requires Warned(h, names, duration).Some?
    ensures EndsWith(front + duration, 'd', 's')
  {
    hide Warned;
    WarnedKeeps(h, names, duration);
    assert EndsWith(" seconds", 'd', 's');
    assert duration == duration[..|duration| - 8] + " seconds";
    EndsLike(duration[..|duration| - 8], " seconds", 'd', 's');
    EndsLike(front, duration, 'd', 's');
  }

  lemma StatusEnds(front: string, status: string)
    requires status == "ok" || status == "ignored"
    ensures EndsWith(front + status, 'o', 'k') || EndsWith(front + status, 'e', 'd')
  {
    assert EndsWith("ok", 'o', 'k') && EndsWith("ignored", 'e', 'd');
    if status == "ok" {
      EndsLike(front, status, 'o', 'k');
    } else {
      EndsLike(front, status, 'e', 'd');
    }
  }

  lemma RecordedKeeps(h: Tests, record: string)
    requires Recorded(h, record).Some? && |h.records| <= h.declared
    ensures Recorded(h, record).value.declared == h.declared && |Recorded(h, record).value.records| <= h.declared
    ensures EndsWith(record, 'o', 'k') || EndsWith(record, 'e', 'd') || EndsWith(record, 'd', 's')
  {
    match RSplitOnce(record, RUNNING)
    case Some((names, duration)) =>
      WarnedKeeps(h, names, duration);
      WarnedEnds(names + RUNNING, h, names, duration);
      hide Warned, RSplitOnce, EndsWith;
    case None =>
      var (name, status) := RSplitOnce(record, RESULT).value;
      StatusEnds(name + RESULT, status);
      hide RSplitOnce, EndsWith, BareName;
  }

  lemma DeclarationNoun(declared: string) returns (front: string, noun: string)
    requires Declaration(declared).Some?
    ensures declared == front + noun && (noun == "test" || noun == "tests")
  {
    hide ParseNat, Contains;
    front, noun := SplitOnce(declared, " ").value.0 + " ", SplitOnce(declared, " ").value.1;
  }

  lemma NounEnds()
    ensures EndsWith("test", 's', 't') && EndsWith("tests", 't', 's')
  {
  }

  lemma DeclarationEnds(line: string)
    requires StripPrefix(line, "running ").Some? && Declaration(StripPrefix(line, "running ").value).Some?
    ensures EndsWith(line, 's', 't') || EndsWith(line, 't', 's')
  {
    hide Declaration, EndsWith;
    var declared := StripPrefix(line, "running ").value;
    assert line == "running " + declared;
    hide StripPrefix;
    var front, noun := DeclarationNoun(declared);
    assert "running " + (front + noun) == "running " + front + noun;
    NounEnds();
    if noun == "test" {
      EndsLike("running " + front, noun, 's', 't');
    } else {
      EndsLike("running " + front, noun, 't', 's');
    }
  }

  lemma RecordIsNoStart(front: string, line: string, h: Tests)
    requires Recorded(h, front + line).Some? && |h.records| <= h.declared
    requires StripPrefix(line, "running ").Some?
    ensures Declaration(StripPrefix(line, "running ").value).None?
  {
    hide Recorded, Declaration;
    if Declaration(StripPrefix(line, "running ").value).Some? {
      DeclarationEnds(line);
      RecordedKeeps(h, front + line);
      assert false;
    }
  }

  lemma ConcludedReconciles(finite: Finite, h: Tests, summary: string)
    requires Concluded(finite, h, summary).Some?
    ensures Reconciled(Concluded(finite, h, summary).value)
    ensures |Concluded(finite, h, summary).value.records| == h.declared
    ensures h.pending.None? && h.warnings == {}
  {
    PassingWithin(h.records);
  }

  lemma SizesAppend(finished: seq<Outcome>, o: Outcome)
    ensures Sizes(finished + [o]) == Sizes(finished) + [|o.records|]
  {
    assert (finished + [o])[..|finished|] == finished;
  }

  lemma ToldConsistent(p: Progress, h: Tests, record: string)
    requires Consistent(p) && p.active.Some?
    requires h.declared == p.active.value.declared && h.records == p.active.value.records
    requires Told(p, h, record).Some?
    ensures Consistent(Told(p, h, record).value) && Expected(Told(p, h, record).value) == Expected(p)
  {
    RecordedKeeps(h, record);
    hide Recorded;
  }

  lemma StartedConsistent(p: Progress, declared: string)
    requires Consistent(p) && Started(p, declared).Some?
    ensures Consistent(Started(p, declared).value)
    ensures Declaration(declared).Some?
    ensures Expected(Started(p, declared).value) == Expected(p) + [Declaration(declared).value]
  {
    hide Declaration;
    SumAppend(Sizes(p.finished), Declaration(declared).value);
    assert Sizes(p.finished) + [] == Sizes(p.finished);
  }

  lemma EndedConsistent(finite: Finite, p: Progress, summary: string)
    requires Consistent(p) && Ended(finite, p, summary).Some?
    ensures Consistent(Ended(finite, p, summary).value) && Expected(Ended(finite, p, summary).value) == Expected(p)
  {
    hide Concluded, Reconciled;
    ConcludedReconciles(finite, p.active.value, summary);
    var outcome := Concluded(finite, p.active.value, summary).value;
    SizesAppend(p.finished, outcome);
    assert Sizes(p.finished + [outcome]) + [] == Sizes(p.finished) + [p.active.value.declared];
  }

  /** One accepted line adds to the expected counts exactly what it declares. */
  lemma LineConsistent(finite: Finite, p: Progress, line: string)
    requires Consistent(p) && Line(finite, p, line).Some?
    ensures Consistent(Line(finite, p, line).value)
    ensures Expected(Line(finite, p, line).value) == Expected(p) + DeclaredBy(line)
  {
    if p.active.Some? && p.active.value.pending.Some? {
      var h := p.active.value.(pending := None);
      ToldConsistent(p, h, p.active.value.pending.value + RESULT + line);
      if StripPrefix(line, "running ").Some? {
        RecordIsNoStart(p.active.value.pending.value + RESULT, line, h);
      }
      assert DeclaredBy(line) == [];
    } else if StripPrefix(line, "running ").Some? {
      StartedConsistent(p, StripPrefix(line, "running ").value);
    } else {
      assert DeclaredBy(line) == [];
      if StripPrefix(line, "test result: ok. ").Some? {
        EndedConsistent(finite, p, StripPrefix(line, "test result: ok. ").value);
      } else if StripPrefix(line, "test ").Some? {
        ToldConsistent(p, p.active.value, StripPrefix(line, "test ").value);
      }
    }
    hide Consistent, Told, Started, Ended, Declaration, Timed;
    assert Expected(p) + [] == Expected(p);
  }

  lemma {:induction false} ScanConsistent(finite: Finite, p: Progress, lines: seq<string>)
    requires Consistent(p) && Scan(finite, p, lines).Some?
    ensures Consistent(Scan(finite, p, lines).value)
    ensures Expected(Scan(finite, p, lines).value) == Expected(p) + Declared(lines)
    decreases |lines|
  {
    hide Line, Consistent, Declaration;
    if lines == [] {
      assert Expected(p) + Declared(lines) == Expected(p);
    } else {
      LineConsistent(finite, p, lines[0]);
      ScanConsistent(finite, Line(finite, p, lines[0]).value, lines[1..]);
      assert Expected(p) + DeclaredBy(lines[0]) + Declared(lines[1..])
          == Expected(p) + (DeclaredBy(lines[0]) + Declared(lines[1..]));
    }
  }

  /**
   The harnesses of an accepted report are exactly the start lines anywhere in its text, in order,
   each with as many records as that line declares. `DoctestReports` says which records.
   */
  lemma AcceptedMeans(finite: Finite, text: string)
    requires Inspected(finite, text).Some?
    ensures var outcomes := Inspected(finite, text).value;
      && Sizes(outcomes) == Declared(Lines(text))
      && (forall o | o in outcomes :: Reconciled(o))
      && 1 <= |outcomes| <= MAX_HARNESSES && Sum(Declared(Lines(text))) <= MAX_TESTS
  {
    assert Consistent(START) && Expected(START) == [];
    ScanConsistent(finite, START, Lines(text));
    hide Scan, Declared, Lines, Reconciled;
    var p := Scan(finite, START, Lines(text)).value;
    assert Sizes(p.finished) + [] == Sizes(p.finished);
    assert [] + Declared(Lines(text)) == Declared(Lines(text));
  }

  // ---------------------------------------------------------------- the inspector

  class Harness {
    const declared: nat
    var records: map<string, bool>
    var pending: Option<string>
    var warnings: set<string>

    ghost function Model(): Tests
      reads this
    {
      Tests(declared, records, pending, warnings)
    }

    constructor (declared: nat)
      ensures Model() == Tests(declared, map[], None, {})
    {
      this.declared, records, pending, warnings := declared, map[], None, {};
    }

    /** `warning`: a slow test, in serial output still waiting for its result. */
    method Warning(names: string, duration: string) returns (accepted: bool)
      modifies this`pending, this`warnings
      ensures var next := Warned(old(Model()), names, duration);
        (accepted <==> next.Some?) && (accepted ==> Model() == next.value)
    {
      if Seconds(duration).None? {
        return false;
      }
      var name := names;
      var split := SplitOnce(names, AWAITING);
      hide Seconds, SplitOnce, BareName, HasControl;
      match split {
        case None =>
        case Some((display, after)) =>
          if BareName(display) != after {
            return false;
          }
          pending := Some(display);
          name := after;
      }
      if name == "" || HasControl(name) || |warnings| >= declared || name in warnings {
        return false;
      }
      warnings := warnings + {name};
      accepted := true;
    }

    /** `record`. */
    method Record(record: string) returns (accepted: bool)
      modifies this`records, this`pending, this`warnings
      ensures var next := Recorded(old(Model()), record);
        (accepted <==> next.Some?) && (accepted ==> Model() == next.value)
    {
      var slow := RSplitOnce(record, RUNNING);
      var result := RSplitOnce(record, RESULT);
      hide RSplitOnce, Warned, BareName, HasControl;
      match slow {
        case Some((names, duration)) =>
          accepted := Warning(names, duration);
          return;
        case None =>
      }
      match result
      case None => return false;
      case Some((name, status)) =>
      if status != "ok" && status != "ignored" {
        return false;
      }
      if name == "" || HasControl(name) || |records| >= declared || name in records {
        return false;
      }
      records := records[name := status == "ok"];
      warnings := warnings - {BareName(name)};
      accepted := true;
    }

    /** `finish`. */
    method Finish(finite: Finite, summary: string) returns (r: Option<Outcome>)
      ensures r == Concluded(finite, Model(), summary)
    {
      hide Split, Counted, Passing, Duration, StripPrefix;
      var fields := Split(summary, "; ");
      PassingWithin(records);
      var passed := |Passing(records)|;
      var ignored := |records| - passed;
      if |fields| != 6 {
        return None;
      }
      if !Counted(fields[0], " passed", passed) || !Counted(fields[1], " failed", 0) ||
         !Counted(fields[2], " ignored", ignored) || !Counted(fields[3], " measured", 0) ||
         !Counted(fields[4], " filtered out", 0) {
        return None;
      }
      var finished := StripPrefix(fields[5], "finished in ");
      if finished.None? || !Duration(finite, finished.value) {
        return None;
      }
      if |records| != declared || pending.Some? || warnings != {} {
        return None;
      }
      r := Some(Outcome(passed, ignored, records));
    }
  }

  ghost function Reached(active: Harness?, finished: seq<Outcome>, total: nat): Progress
    reads active
  {
    Progress(if active == null then None else Some(active.Model()), finished, total)
  }

  /** A line that starts a harness. */
  method Start(active: Harness?, finished: seq<Outcome>, total: nat, declared: string)
    returns (started: Harness?, total': nat)
    ensures var next := Started(Reached(active, finished, total), declared);
      && (started != null <==> next.Some?)
      && (started != null ==> fresh(started) && Reached(started, finished, total') == next.value)
  {
    total' := total;
    if active != null || |finished| == MAX_HARNESSES {
      return null, total;
    }
    hide Declaration;
    match Declaration(declared)
    case None => return null, total;
    case Some(count) =>
    if count > MAX_TESTS - total {
      return null, total;
    }
    started := new Harness(count);
    total' := total + count;
  }

  /** One line of the loop in `inspect`. */
  method ReadLine(finite: Finite, active: Harness?, finished: seq<Outcome>, total: nat, line: string)
    returns (accepted: bool, active': Harness?, finished': seq<Outcome>, total': nat)
    modifies active
    ensures var next := Line(finite, old(Reached(active, finished, total)), line);
      && (accepted <==> next.Some?)
      && (accepted ==> Reached(active', finished', total') == next.value)
    ensures active' == null || active' == active || fresh(active')
  {
    accepted, active', finished', total' := false, active, finished, total;
    hide Recorded, Concluded, Declaration, Started, StripPrefix, Timed;
    if active != null && active.pending.Some? {
      var name := active.pending.value;
      active.pending := None;
      accepted := active.Record(name + RESULT + line);
    } else if StripPrefix(line, "running ").Some? {
      active', total' := Start(active, finished, total, StripPrefix(line, "running ").value);
      accepted := active' != null;
    } else if StripPrefix(line, "test result: ok. ").Some? {
      if active != null {
        var outcome := active.Finish(finite, StripPrefix(line, "test result: ok. ").value);
        if outcome.Some? {
          accepted, active', finished' := true, null, finished + [outcome.value];
        }
      }
    } else if StripPrefix(line, "test ").Some? {
      if active != null {
        accepted := active.Record(StripPrefix(line, "test ").value);
      }
    } else if StripPrefix(line, "all doctests ran in ").Some? {
      var times := StripPrefix(line, "all doctests ran in ").value;
      var timed := ReadTiming(finite, times, active == null, finished);
      assert timed <==> Timed(finite, Reached(active, finished, total), times);
      accepted := timed;
    }
  }

  /** The closing line of merged runs. */
  method ReadTiming(finite: Finite, times: string, idle: bool, finished: seq<Outcome>) returns (accepted: bool)
    ensures forall p: Progress | p.active.None? == idle && p.finished == finished :: accepted == Timed(finite, p, times)
  {
    hide Duration;
    match SplitOnce(times, "; merged doctests compilation took ")
    case None => return false;
    case Some((elapsed, compilation)) =>
      accepted := Duration(finite, elapsed) && Duration(finite, compilation) && idle && finished != [];
  }

  /** `inspect`: line by line, and accepted only with every harness finished. */
  method Inspect(finite: Finite, text: string) returns (r: Result<seq<Outcome>, ReportError>)
    ensures r == match Inspected(finite, text) { case None => Failure(Rejected) case Some(v) => Success(v) }
  {
    if text == "" || text[|text| - 1] != '\n' {
      return Failure(Rejected);
    }
    var lines := Lines(text);
    var active: Harness? := null;
    var finished: seq<Outcome> := [];
    var total := 0;
    hide Line, Lines;
    assert lines[0..] == lines;
    for i := 0 to |lines|
      invariant active == null || fresh(active)
      invariant Scan(finite, START, lines) == Scan(finite, Reached(active, finished, total), lines[i..])
    {
      assert lines[i..][0] == lines[i] && lines[i..][1..] == lines[i + 1..];
      var accepted;
      accepted, active, finished, total := ReadLine(finite, active, finished, total, lines[i]);
      if !accepted {
        return Failure(Rejected);
      }
    }
    assert lines[|lines|..] == [];
    if active != null || finished == [] {
      return Failure(Rejected);
    }
    r := Success(finished);
  }
}
