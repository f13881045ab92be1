/** Printing test runs and inspecting what was printed: exactly which runs survive. */
module DoctestPrinting {
  import opened Wrappers
  import opened Text
  import opened DoctestOutput

  /** A test as a serial run prints it, with the seconds after which it was reported slow, if it was. */
  datatype Test = Test(display: string, passed: bool, slow: Option<nat>)

  datatype Run = Run(tests: seq<Test>, elapsed: string)

  function Status(passed: bool): string {
    if passed then "ok" else "ignored"
  }

  function TestLines(t: Test): seq<string> {
    match t.slow
    case None => ["test " + (t.display + RESULT + Status(t.passed))]
    case Some(seconds) =>
      ["test " + (t.display + AWAITING + BareName(t.display) + RUNNING + (Decimal(seconds) + " seconds")),
       Status(t.passed)]
  }

  /** The names whose printed line reads back as that name. */
  ghost predicate GoodName(display: string) {
    && display != "" && !HasControl(display)
    && !Contains(display + " ", RUNNING)
    && !SummaryLike(display)
  }

  /** The name makes its line begin like a summary. */
  predicate SummaryLike(display: string) {
    "result: ok. " <= display + " "
  }

  ghost predicate GoodTest(t: Test) {
    && GoodName(t.display)
    && (t.slow.Some? ==>
          && BareName(t.display) != "" && 0 < t.slow.value <= U64_MAX
          && !Contains(t.display + AWAITING[..|AWAITING| - 1], AWAITING))
  }

  /** Finite numbers are written with digits, signs, a point and an exponent. */
  ghost predicate Plausible(finite: Finite) {
    forall text | finite(text) :: text != "" && forall i | 0 <= i < |text| :: text[i] in "0123456789+-.eE"
  }

  // ---------------------------------------------------------------- terminal records

  /** A warning text can only hide inside the name and the blank after it. */
  lemma WarningInName(display: string, status: string)
    requires status == "ok" || status == "ignored"
    ensures Contains(display + RESULT + status, RUNNING) <==> Contains(display + " ", RUNNING)
  {
    var record, name := display + RESULT + status, display + " ";
    assert record == name + ("... " + status);
    forall i: nat
      ensures At(record, RUNNING, i) <==> At(name, RUNNING, i)
    {
      if i + |RUNNING| <= |name| {
        AtPrefix(name, "... " + status, RUNNING, i);
      } else if i <= |display| {
        var k := |name| - i;
        assert record[|name|] == '.';
        assert forall k: nat | k < |RUNNING| :: RUNNING[k] != '.';
        NotAt(record, RUNNING, i, k);
      }
    }
  }

  /** A terminal record is accepted exactly for a good, new name within the declared count. */
  lemma TerminalRecord(h: Tests, display: string, passed: bool)
    ensures Recorded(h, display + RESULT + Status(passed)) ==
            if && !Contains(display + " ", RUNNING) && display != "" && !HasControl(display)
               && |h.records| < h.declared && display !in h.records
            then Some(h.(records := h.records[display := passed], warnings := h.warnings - {BareName(display)}))
            else None
  {
    var status := Status(passed);
    var record := display + RESULT + status;
    WarningInName(display, status);
    assert RESULT[3] == '.' && RESULT[4] == ' ' && '.' !in status;
    RSplitJoins(display, RESULT, status, 3);
    StatusEnds(display + RESULT, status);
    match RSplitOnce(record, RUNNING)
    case None =>
    case Some((names, duration)) =>
      assert record == names + RUNNING + duration;
      if Warned(h, names, duration).Some? {
        WarnedEnds(names + RUNNING, h, names, duration);
        assert false;
      }
  }

  // ---------------------------------------------------------------- slow-test warnings

  lemma BareLength(display: string)
    ensures var removed := |display| - |BareName(display)|;
      && removed in {0, 10, 15} && BareName(display) == display[..|display| - removed]
      && (removed == 10 ==> display[|display| - 5] == 'm')
  {
    assert |" - compile fail"| == 15 && |" - compile"| == 10 && |" - should panic"| == 15;
    if StripSuffix(display, " - compile").Some? {
      AtChar(display, " - compile", |display| - 10, 5);
      assert " - compile"[5] == 'm';
    }
  }

  lemma EarlierMarker(display: string, d: string, n: string)
    requires d + AWAITING + n == display + AWAITING + BareName(display) && |d| < |display|
    ensures BareName(d) != n
  {
    BareLength(display);
    BareLength(d);
    hide BareName;
    var names := display + AWAITING + BareName(display);
    assert |AWAITING| == 10 && AWAITING[0] == ' ';
    assert |names| == |d| + 10 + |n|;
    assert names[|d|] == display[|d|];
    assert (d + AWAITING + n)[|d|] == AWAITING[0];
  }

  /** A name that already contains the marker of a pending test is never accepted as one. */
  lemma PendingName(display: string)
    ensures var split := SplitOnce(display + AWAITING + BareName(display), AWAITING);
      if !Contains(display + AWAITING[..|AWAITING| - 1], AWAITING) then split == Some((display, BareName(display)))
      else split.Some? && BareName(split.value.0) != split.value.1
  {
    var bare := BareName(display);
    var names := display + AWAITING + bare;
    SplitJoins(display, AWAITING, bare);
    hide BareName, Contains;
    var (d, n) := SplitOnce(names, AWAITING).value;
    if |d| < |display| {
      EarlierMarker(display, d, n);
    } else {
      assert names[..|d|] == d && names[|d| + |AWAITING|..] == n;
      assert names[..|display|] == display && names[|display| + |AWAITING|..] == bare;
    }
  }

  lemma SecondsParse(seconds: nat)
    ensures Seconds(Decimal(seconds) + " seconds") == if 0 < seconds <= U64_MAX then Some(seconds) else None
  {
    StripsSuffix(Decimal(seconds), " seconds");
    ParsesDecimal(seconds, U64_MAX);
  }

  /** A printed warning reads back as the warning it is, whatever the name. */
  lemma WarningRecord(h: Tests, display: string, seconds: nat)
    requires h.pending.None?
    ensures var bare := BareName(display);
      Recorded(h, display + AWAITING + bare + RUNNING + (Decimal(seconds) + " seconds")) ==
      if 0 < seconds <= U64_MAX && !Contains(display + AWAITING[..|AWAITING| - 1], AWAITING)
      then Noted(h.(pending := Some(display)), bare) else None
  {
    var x, t := display + AWAITING + BareName(display), Decimal(seconds) + " seconds";
    assert RUNNING[1] == 'h' && forall m | 1 < m < |RUNNING| :: RUNNING[m] != 'h';
    assert 'h' !in " seconds" && 'h' !in Decimal(seconds);
    RSplitJoins(x, RUNNING, t, 1);
    SecondsParse(seconds);
    PendingName(display);
    hide Contains, BareName, Noted, Seconds, SplitOnce, RSplitOnce;
  }

  // ---------------------------------------------------------------- telling the lines apart

  predicate Suffix(end: string, s: string) {
    |end| <= |s| && s[|s| - |end|..] == end
  }

  lemma SuffixAfter(front: string, end: string, s: string)
    requires Suffix(end, s)
    ensures Suffix(end, front + s)
  {
    assert (front + s)[|front + s| - |end|..] == s[|s| - |end|..];
  }

  lemma {:induction false} SplitLast(s: string, p: string)
    requires p != ""
    ensures Suffix(Split(s, p)[|Split(s, p)| - 1], s)
    decreases |s|
  {
    match SplitOnce(s, p)
    case None =>
    case Some((piece, rest)) =>
      hide SplitOnce, Suffix;
      assert Split(s, p) == [piece] + Split(rest, p);
      SplitLast(rest, p);
      SuffixAfter(piece + p, Split(rest, p)[|Split(rest, p)| - 1], rest);
  }

  /** Text that does not end like a duration is no summary. */
  lemma NoSummary(finite: Finite, h: Tests, summary: string)
    requires Plausible(finite)
    requires EndsWith(summary, 'o', 'k') || EndsWith(summary, 'e', 'd') || EndsWith(summary, 'd', 's')
    ensures Concluded(finite, h, summary) == None
  {
    var fields := Split(summary, "; ");
    if |fields| == 6 && StripPrefix(fields[5], "finished in ").Some? {
      SplitLast(summary, "; ");
      var value := StripPrefix(fields[5], "finished in ").value;
      assert Suffix(value, summary);
      NoDuration(finite, summary, value);
    }
  }

  lemma NoDuration(finite: Finite, s: string, value: string)
    requires Plausible(finite) && Suffix(value, s)
    requires EndsWith(s, 'o', 'k') || EndsWith(s, 'e', 'd') || EndsWith(s, 'd', 's')
    ensures !Duration(finite, value)
  {
    if StripSuffix(value, "s").Some? {
      var number := StripSuffix(value, "s").value;
      assert value[|value| - 1..] == "s";
      assert value[|value| - 1] == 's' && s[|s| - 1] == 's';
      if number != "" {
        assert number[|number| - 1] == s[|s| - 2] == 'd';
      }
    }
  }

  /** Only the name decides whether a test line looks like a summary. */
  lemma LooksLikeSummary(display: string, rest: string)
    requires |rest| >= 2 && rest[0] == ' ' && rest[1] == '.'
    ensures "result: ok. " <= display + rest <==> SummaryLike(display)
  {
    var p, line, short := "result: ok. ", display + rest, display + " ";
    assert |p| == 12 && p[10] == '.' && p[9] == 'k' && p[11] == ' ';
    assert forall i | 0 <= i < |p| && i != 10 :: p[i] != '.';
    assert line[|display|] == ' ' && line[|display| + 1] == '.';
    if |display| + 1 < 12 {
      var k := if |display| == 9 then 9 else |display| + 1;
      assert line[k] != p[k];
    } else {
      assert line[..12] == short[..12];
    }
  }

  /** A line that begins `test ` is a summary or a record. */
  lemma TestDispatch(finite: Finite, p: Progress, h: Tests, record: string)
    requires p.active == Some(h) && h.pending.None?
    ensures Line(finite, p, "test " + record) ==
            if "result: ok. " <= record then Ended(finite, p, record[12..]) else Told(p, h, record)
  {
    var line := "test " + record;
    assert "running "[0] == 'r' && line[0] == 't';
    assert |"test result: ok. "| == 17 && |"result: ok. "| == 12;
    assert "test result: ok. " == "test " + "result: ok. ";
    if "result: ok. " <= record {
      assert line[..17] == "test " + record[..12];
      assert line[17..] == record[12..];
    }
    if "test result: ok. " <= line {
      assert record[..12] == line[5..17];
    }
    StripsPrefix("test ", record);
    hide Recorded, Concluded, Started, Ended, Told, Timed;
  }

  /** A printed test line is a record, or is refused as a summary. */
  lemma TestLine(finite: Finite, p: Progress, h: Tests, display: string, rest: string)
    requires Plausible(finite) && p.active == Some(h) && h.pending.None?
    requires |rest| >= 3 && rest[0] == ' ' && rest[1] == '.'
    requires EndsWith(rest, 'o', 'k') || EndsWith(rest, 'e', 'd') || EndsWith(rest, 'd', 's')
    ensures Line(finite, p, "test " + (display + rest)) ==
            if SummaryLike(display) then None else Told(p, h, display + rest)
  {
    var record := display + rest;
    LooksLikeSummary(display, rest);
    TestDispatch(finite, p, h, record);
    if "result: ok. " <= record {
      SummaryEnds(display, rest);
      NoSummary(finite, h, record[12..]);
    }
    hide Recorded, Concluded, Line;
  }

  lemma SummaryEnds(display: string, rest: string)
    requires "result: ok. " <= display + rest && SummaryLike(display)
    requires |rest| >= 3 && (EndsWith(rest, 'o', 'k') || EndsWith(rest, 'e', 'd') || EndsWith(rest, 'd', 's'))
    ensures var summary := (display + rest)[12..];
      EndsWith(summary, 'o', 'k') || EndsWith(summary, 'e', 'd') || EndsWith(summary, 'd', 's')
  {
    assert |"result: ok. "| == 12;
  }

  // ---------------------------------------------------------------- one test

  lemma ScanTwo(finite: Finite, p: Progress, a: string, b: string)
    ensures Scan(finite, p, [a, b]) ==
            match Line(finite, p, a) { case None => None case Some(q) => Line(finite, q, b) }
  {
    assert [a, b] == [a] + [b];
    ScanConcat(finite, p, [a], [b]);
    ScanOne(finite, p, a);
    if Line(finite, p, a).Some? {
      ScanOne(finite, Line(finite, p, a).value, b);
    }
    hide Line, Scan;
  }

  /** Between tests of a serial run nothing is pending and no warning is open. */
  ghost predicate Idle(p: Progress, h: Tests) {
    p.active == Some(h) && h.pending.None? && h.warnings == {}
  }

  ghost function AfterTest(p: Progress, h: Tests, t: Test): Option<Progress> {
    if GoodTest(t) && |h.records| < h.declared && t.display !in h.records then
      Some(p.(active := Some(h.(records := h.records[t.display := t.passed]))))
    else None
  }

  lemma StatusShape(front: string, passed: bool)
    ensures EndsWith(front + Status(passed), 'o', 'k') || EndsWith(front + Status(passed), 'e', 'd')
  {
    StatusEnds(front, Status(passed));
  }

  lemma PlainLine(finite: Finite, p: Progress, h: Tests, display: string, passed: bool)
    requires Plausible(finite) && p.active == Some(h) && h.pending.None?
    ensures Line(finite, p, "test " + (display + RESULT + Status(passed))) ==
            if SummaryLike(display) then None else Told(p, h, display + RESULT + Status(passed))
  {
    var rest := RESULT + Status(passed);
    StatusShape(RESULT, passed);
    assert RESULT[0] == ' ' && RESULT[1] == '.';
    assert display + RESULT + Status(passed) == display + rest;
    TestLine(finite, p, h, display, rest);
    hide Line, Told, SummaryLike, Plausible;
  }

  lemma PlainTest(finite: Finite, p: Progress, h: Tests, t: Test)
    requires Plausible(finite) && Idle(p, h) && t.slow.None?
    ensures Scan(finite, p, TestLines(t)) == AfterTest(p, h, t)
  {
    hide Recorded, Line, Scan, Contains, HasControl, SummaryLike, Plausible, Status, BareName;
    PlainLine(finite, p, h, t.display, t.passed);
    TerminalRecord(h, t.display, t.passed);
    ScanOne(finite, p, TestLines(t)[0]);
    assert h.warnings - {BareName(t.display)} == {};
  }

  lemma BareControl(display: string)
    ensures HasControl(BareName(display)) ==> HasControl(display)
  {
    BareLength(display);
    hide BareName;
    if i :| 0 <= i < |BareName(display)| && Control(BareName(display)[i]) {
      assert Control(display[i]);
    }
  }

  lemma Regrouped(a: string, b: string, c: string, d: string, e: string)
    ensures a + b + c + d + e == a + (b + c + d + e)
  {
  }

  lemma SlowLine(finite: Finite, p: Progress, h: Tests, display: string, seconds: nat)
    requires Plausible(finite) && p.active == Some(h) && h.pending.None?
    ensures var record := display + AWAITING + BareName(display) + RUNNING + (Decimal(seconds) + " seconds");
      Line(finite, p, "test " + record) == if SummaryLike(display) then None else Told(p, h, record)
  {
    var bare := BareName(display);
    var rest := AWAITING + bare + RUNNING + (Decimal(seconds) + " seconds");
    SlowShape(bare, seconds);
    hide Line, Told, SummaryLike, Plausible, BareName, EndsWith, Decimal;
    Regrouped(display, AWAITING, bare, RUNNING, Decimal(seconds) + " seconds");
    TestLine(finite, p, h, display, rest);
  }

  /** A slow test: the warning leaves its name pending, and the next line ends it. */
  lemma SlowTest(finite: Finite, p: Progress, h: Tests, t: Test)
    requires Plausible(finite) && Idle(p, h) && t.slow.Some?
    ensures Scan(finite, p, TestLines(t)) == AfterTest(p, h, t)
  {
    hide Recorded, Line, Scan, Contains, HasControl, SummaryLike, Plausible, Status, BareName;
    var bare, seconds := BareName(t.display), t.slow.value;
    SlowLine(finite, p, h, t.display, seconds);
    WarningRecord(h, t.display, seconds);
    ScanTwo(finite, p, TestLines(t)[0], Status(t.passed));
    BareControl(t.display);
    var warned := Noted(h.(pending := Some(t.display)), bare);
    if warned.Some? {
      EndsPending(finite, p, h, warned.value, t);
    }
  }

  lemma EndsPending(finite: Finite, p: Progress, h: Tests, warned: Tests, t: Test)
    requires warned == h.(pending := Some(t.display), warnings := {BareName(t.display)})
    requires h.pending.None? && h.warnings == {}
    ensures Line(finite, p.(active := Some(warned)), Status(t.passed)) ==
            if && !Contains(t.display + " ", RUNNING) && t.display != "" && !HasControl(t.display)
               && |h.records| < h.declared && t.display !in h.records
            then Some(p.(active := Some(h.(records := h.records[t.display := t.passed]))))
            else None
  {
    hide Recorded, Line, Contains, HasControl, BareName, Status;
    TerminalRecord(warned.(pending := None), t.display, t.passed);
    PendingLine(finite, p, warned, t.display, Status(t.passed));
    assert {BareName(t.display)} - {BareName(t.display)} == {};
  }

  lemma PendingLine(finite: Finite, p: Progress, h: Tests, display: string, line: string)
    requires h.pending == Some(display)
    ensures Line(finite, p.(active := Some(h)), line) ==
            Told(p.(active := Some(h)), h.(pending := None), display + RESULT + line)
  {
    hide Told, Started, Ended, Timed;
  }

  lemma SlowShape(bare: string, seconds: nat)
    ensures var rest := AWAITING + bare + RUNNING + (Decimal(seconds) + " seconds");
      |rest| >= 3 && rest[0] == ' ' && rest[1] == '.' && EndsWith(rest, 'd', 's')
  {
    assert AWAITING[0] == ' ' && AWAITING[1] == '.' && EndsWith(" seconds", 'd', 's');
    EndsLike(Decimal(seconds), " seconds", 'd', 's');
    EndsLike(AWAITING + bare + RUNNING, Decimal(seconds) + " seconds", 'd', 's');
  }

  /** The lines of a test are accepted exactly for a good, new test within the declared count, and record it. */
  lemma TestScans(finite: Finite, p: Progress, h: Tests, t: Test)
    requires Plausible(finite) && Idle(p, h)
    ensures Scan(finite, p, TestLines(t)) == AfterTest(p, h, t)
  {
    if t.slow.None? {
      PlainTest(finite, p, h, t);
    } else {
      SlowTest(finite, p, h, t);
    }
    hide Scan, AfterTest;
  }

  // ---------------------------------------------------------------- the tests of a run

  ghost function AllLines(tests: seq<Test>): seq<string> {
    if tests == [] then [] else AllLines(tests[..|tests| - 1]) + TestLines(tests[|tests| - 1])
  }

  ghost function RecordsOf(tests: seq<Test>): map<string, bool> {
    if tests == [] then map[]
    else RecordsOf(tests[..|tests| - 1])[tests[|tests| - 1].display := tests[|tests| - 1].passed]
  }

  ghost predicate GoodTests(tests: seq<Test>) {
    && (forall t | t in tests :: GoodTest(t))
    && (forall i, j | 0 <= i < j < |tests| :: tests[i].display != tests[j].display)
  }

  lemma {:induction false} RecordsMean(tests: seq<Test>)
    ensures forall name :: name in RecordsOf(tests) <==> exists t :: t in tests && t.display == name
  {
    if tests != [] {
      var init, last := tests[..|tests| - 1], tests[|tests| - 1];
      assert tests == init + [last];
      RecordsMean(init);
      forall name
        ensures name in RecordsOf(tests) <==> exists t :: t in tests && t.display == name
      {
        if name in RecordsOf(init) {
          var t :| t in init && t.display == name;
          assert t in tests;
        }
        assert last in tests;
        if t :| t in tests && t.display == name {
          assert t in init || t == last;
        }
      }
    }
  }

  lemma GoodPrefix(init: seq<Test>, last: Test)
    ensures GoodTests(init + [last]) <==> GoodTests(init) && GoodTest(last) && last.display !in RecordsOf(init)
  {
    RecordsMean(init);
    var tests := init + [last];
    hide GoodTest, RecordsOf;
    if GoodTests(tests) {
      assert forall t | t in init :: t in tests;
      assert last in tests;
      forall t | t in init
        ensures t.display != last.display
      {
        var i :| 0 <= i < |init| && init[i] == t;
        assert tests[i] == t && tests[|init|] == last;
      }
      assert forall i | 0 <= i < |init| :: tests[i] == init[i];
    }
    if GoodTests(init) && GoodTest(last) && last.display !in RecordsOf(init) {
      forall i, j | 0 <= i < j < |tests|
        ensures tests[i].display != tests[j].display
      {
        assert tests[i] == init[i] && init[i] in init;
      }
      forall t | t in tests
        ensures GoodTest(t)
      {
        assert t in init || t == last;
      }
    }
  }

  lemma {:induction false} RecordCount(tests: seq<Test>)
    requires GoodTests(tests)
    ensures |RecordsOf(tests)| == |tests|
  {
    if tests != [] {
      var init, last := tests[..|tests| - 1], tests[|tests| - 1];
      assert tests == init + [last];
      GoodPrefix(init, last);
      RecordCount(init);
    }
  }

  /** The tests of a run are recorded exactly if every one is good and no name repeats. */
  lemma {:induction false} TestsScan(finite: Finite, p: Progress, h: Tests, tests: seq<Test>)
    requires Plausible(finite) && Idle(p, h) && h.records == map[] && |tests| <= h.declared
    ensures Scan(finite, p, AllLines(tests)) ==
            if GoodTests(tests) then Some(p.(active := Some(h.(records := RecordsOf(tests))))) else None
  {
    if tests == [] {
      assert p.(active := Some(h.(records := RecordsOf(tests)))) == p;
    } else {
      var init, last := tests[..|tests| - 1], tests[|tests| - 1];
      assert tests == init + [last];
      TestsScan(finite, p, h, init);
      GoodPrefix(init, last);
      ScanConcat(finite, p, AllLines(init), TestLines(last));
      hide Scan, GoodTest, TestLines, Plausible, GoodTests;
      if GoodTests(init) {
        RecordCount(init);
        var recorded := h.(records := RecordsOf(init));
        TestScans(finite, p.(active := Some(recorded)), recorded, last);
      }
    }
  }

  // ---------------------------------------------------------------- start and summary

  function StartLine(count: nat): string {
    "running " + (Decimal(count) + " " + if count == 1 then "test" else "tests")
  }

  function SummaryFields(passed: nat, ignored: nat, elapsed: string): (fields: seq<string>)
    ensures |fields| == 6
  {
    [Decimal(passed) + " passed", "0 failed", Decimal(ignored) + " ignored", "0 measured", "0 filtered out",
     "finished in " + (elapsed + "s")]
  }

  function Spread(fields: seq<string>): string
    requires fields != []
  {
    if |fields| == 1 then fields[0] else fields[0] + "; " + Spread(fields[1..])
  }

  function SummaryText(passed: nat, ignored: nat, elapsed: string): string {
    Spread(SummaryFields(passed, ignored, elapsed))
  }

  function SummaryLine(passed: nat, ignored: nat, elapsed: string): string {
    "test result: ok. " + SummaryText(passed, ignored, elapsed)
  }

  lemma DeclarationParses(count: nat)
    ensures Declaration(Decimal(count) + " " + if count == 1 then "test" else "tests") ==
            if count <= U64_MAX then Some(count) else None
  {
    SplitAtNewCharacter(Decimal(count), " ", if count == 1 then "test" else "tests");
    ParsesDecimal(count, U64_MAX);
    hide SplitOnce, ParseNat, Decimal;
  }

  lemma StartScans(finite: Finite, p: Progress, count: nat)
    requires p.active.None? && p.total <= MAX_TESTS && |p.finished| <= MAX_HARNESSES
    ensures Line(finite, p, StartLine(count)) ==
            if |p.finished| < MAX_HARNESSES && count <= MAX_TESTS - p.total
            then Some(Progress(Some(Tests(count, map[], None, {})), p.finished, p.total + count)) else None
  {
    DeclarationParses(count);
    StripsPrefix("running ", Decimal(count) + " " + if count == 1 then "test" else "tests");
    hide Declaration, Decimal, Recorded, Ended, Told, Timed;
  }

  lemma SplitPiece(piece: string, rest: string)
    requires ';' !in piece
    ensures Split(piece + "; " + rest, "; ") == [piece] + Split(rest, "; ")
  {
    assert "; "[0] == ';';
    SplitAtNewCharacter(piece, "; ", rest);
    hide SplitOnce;
  }

  lemma CountParses(count: nat, suffix: string, other: nat)
    requires suffix != "" && !Digit(suffix[0]) && count <= U64_MAX
    ensures Counted(Decimal(count) + suffix, suffix, other) <==> count == other
  {
    StripsSuffix(Decimal(count), suffix);
    ParsesDecimal(count, U64_MAX);
    hide StripSuffix, ParseNat, Decimal;
  }

  lemma PlausibleHasNone(finite: Finite, elapsed: string)
    requires Plausible(finite) && finite(elapsed)
    ensures ';' !in elapsed
  {
    assert ';' !in "0123456789+-.eE";
  }

  lemma WordsHaveNone()
    ensures ';' !in "finished in " && ';' !in "s" && ';' !in " passed" && ';' !in " ignored"
    ensures ';' !in "0 failed" && ';' !in "0 measured" && ';' !in "0 filtered out"
  {
  }

  lemma DigitsHaveNone(count: nat)
    ensures ';' !in Decimal(count)
  {
  }

  lemma NoSemicolons(finite: Finite, passed: nat, ignored: nat, elapsed: string)
    requires Plausible(finite) && finite(elapsed)
    ensures forall k | 0 <= k < 6 :: ';' !in SummaryFields(passed, ignored, elapsed)[k]
  {
    hide Decimal, Plausible;
    PlausibleHasNone(finite, elapsed);
    WordsHaveNone();
    DigitsHaveNone(passed);
    DigitsHaveNone(ignored);
    Free(elapsed, "s");
    Free("finished in ", elapsed + "s");
    Free(Decimal(passed), " passed");
    Free(Decimal(ignored), " ignored");
  }

  lemma Free(a: string, b: string)
    requires ';' !in a && ';' !in b
    ensures ';' !in a + b
  {
  }

  lemma {:induction false} SplitSpreads(fields: seq<string>)
    requires fields != [] && forall k | 0 <= k < |fields| :: ';' !in fields[k]
    ensures Split(Spread(fields), "; ") == fields
  {
    hide Split;
    if |fields| == 1 {
      SplitEnds(fields[0]);
      assert fields == [fields[0]];
    } else {
      SplitPiece(fields[0], Spread(fields[1..]));
      SplitSpreads(fields[1..]);
      assert fields == [fields[0]] + fields[1..];
    }
  }

  lemma SplitEnds(piece: string)
    requires ';' !in piece
    ensures Split(piece, "; ") == [piece]
  {
    assert "; "[0] == ';';
    SplitNothing(piece, "; ");
  }

  lemma FieldsParse(passed: nat, ignored: nat, elapsed: string, x: nat, y: nat)
    requires passed <= U64_MAX && ignored <= U64_MAX
    ensures var fields := SummaryFields(passed, ignored, elapsed);
      && (Counted(fields[0], " passed", x) <==> passed == x) && Counted(fields[1], " failed", 0)
      && (Counted(fields[2], " ignored", y) <==> ignored == y) && Counted(fields[3], " measured", 0)
      && Counted(fields[4], " filtered out", 0)
      && StripPrefix(fields[5], "finished in ") == Some(elapsed + "s")
  {
    CountParses(passed, " passed", x);
    CountParses(ignored, " ignored", y);
    ZeroParses();
    StripsPrefix("finished in ", elapsed + "s");
    hide Counted, Decimal, StripPrefix;
  }

  lemma ElapsedParses(finite: Finite, elapsed: string)
    ensures Duration(finite, elapsed + "s") <==> finite(elapsed)
  {
    StripsSuffix(elapsed, "s");
    hide StripSuffix;
  }

  ghost predicate CountsMatch(fields: seq<string>, passed: nat, ignored: nat)
    requires |fields| == 6
  {
    && Counted(fields[0], " passed", passed) && Counted(fields[1], " failed", 0)
    && Counted(fields[2], " ignored", ignored) && Counted(fields[3], " measured", 0)
    && Counted(fields[4], " filtered out", 0)
  }

  ghost predicate Settled(h: Tests) {
    |h.records| == h.declared && h.pending.None? && h.warnings == {}
  }

  lemma ConcludedBy(finite: Finite, h: Tests, summary: string, fields: seq<string>, value: string)
    requires Split(summary, "; ") == fields && |fields| == 6
    requires StripPrefix(fields[5], "finished in ") == Some(value) && Duration(finite, value)
    requires |Passing(h.records)| <= |h.records|
    ensures var passed := |Passing(h.records)|;
      var ignored := |h.records| - passed;
      Concluded(finite, h, summary) ==
      if CountsMatch(fields, passed, ignored) && Settled(h) then Some(Outcome(passed, ignored, h.records)) else None
  {
    hide Split, Counted, Passing, StripPrefix, Duration;
  }

  lemma CountsParse(passed: nat, ignored: nat, elapsed: string, x: nat, y: nat)
    requires passed <= U64_MAX && ignored <= U64_MAX
    ensures CountsMatch(SummaryFields(passed, ignored, elapsed), x, y) <==> passed == x && ignored == y
    ensures StripPrefix(SummaryFields(passed, ignored, elapsed)[5], "finished in ") == Some(elapsed + "s")
  {
    FieldsParse(passed, ignored, elapsed, x, y);
    hide Counted, StripPrefix, SummaryFields;
  }

  /** A printed summary is accepted exactly by a harness whose records it counts. */
  lemma SummaryParses(finite: Finite, h: Tests, passed: nat, ignored: nat, elapsed: string)
    requires Plausible(finite) && finite(elapsed) && passed <= U64_MAX && ignored <= U64_MAX
    ensures Concluded(finite, h, SummaryText(passed, ignored, elapsed)) ==
            if passed == |Passing(h.records)| && passed + ignored == |h.records| && Settled(h)
            then Some(Outcome(passed, ignored, h.records)) else None
  {
    hide Split, Passing, SummaryFields, StripPrefix, Spread, Plausible, Duration, Concluded, CountsMatch, Settled;
    var fields := SummaryFields(passed, ignored, elapsed);
    NoSemicolons(finite, passed, ignored, elapsed);
    SplitSpreads(fields);
    PassingWithin(h.records);
    CountsParse(passed, ignored, elapsed, |Passing(h.records)|, |h.records| - |Passing(h.records)|);
    ElapsedParses(finite, elapsed);
    ConcludedBy(finite, h, SummaryText(passed, ignored, elapsed), fields, elapsed + "s");
  }

  lemma ZeroParses()
    ensures Counted("0 failed", " failed", 0) && Counted("0 measured", " measured", 0)
    ensures Counted("0 filtered out", " filtered out", 0)
  {
    hide Counted;
    assert Decimal(0) == "0";
    CountParses(0, " failed", 0);
    CountParses(0, " measured", 0);
    CountParses(0, " filtered out", 0);
    hide Decimal;
    assert Decimal(0) + " failed" == "0 failed" && Decimal(0) + " measured" == "0 measured";
    assert Decimal(0) + " filtered out" == "0 filtered out";
  }

  // ---------------------------------------------------------------- whole runs and reports

  ghost function PassCount(tests: seq<Test>): nat {
    if tests == [] then 0
    else PassCount(tests[..|tests| - 1]) + if tests[|tests| - 1].passed then 1 else 0
  }

  lemma {:induction false} PassCountBound(tests: seq<Test>)
    ensures PassCount(tests) <= |tests|
  {
    if tests != [] {
      PassCountBound(tests[..|tests| - 1]);
    }
  }

  lemma {:induction false} PassingCount(tests: seq<Test>)
    requires GoodTests(tests)
    ensures |Passing(RecordsOf(tests))| == PassCount(tests)
  {
    if tests != [] {
      var init, last := tests[..|tests| - 1], tests[|tests| - 1];
      assert tests == init + [last];
      GoodPrefix(init, last);
      PassingCount(init);
      assert Passing(RecordsOf(tests)) ==
             if last.passed then Passing(RecordsOf(init)) + {last.display} else Passing(RecordsOf(init));
    } else {
      assert Passing(map[]) == {};
    }
  }

  /** What a printed run stands for: its exact counts and its records. */
  ghost function OutcomeOf(run: Run): Outcome {
    PassCountBound(run.tests);
    Outcome(PassCount(run.tests), |run.tests| - PassCount(run.tests), RecordsOf(run.tests))
  }

  ghost function EndLine(run: Run): string {
    PassCountBound(run.tests);
    SummaryLine(PassCount(run.tests), |run.tests| - PassCount(run.tests), run.elapsed)
  }

  ghost function RunLines(run: Run): seq<string> {
    [StartLine(|run.tests|)] + AllLines(run.tests) + [EndLine(run)]
  }

  lemma SummaryDispatch(finite: Finite, p: Progress, h: Tests, summary: string)
    requires p.active == Some(h) && h.pending.None?
    ensures Line(finite, p, "test result: ok. " + summary) == Ended(finite, p, summary)
  {
    assert "test result: ok. "[0] == 't' && "running "[0] == 'r';
    StripsPrefix("test result: ok. ", summary);
    hide Told, Started, Ended, Timed;
  }

  lemma SummaryScans(finite: Finite, p: Progress, h: Tests, run: Run)
    requires Plausible(finite) && finite(run.elapsed) && |run.tests| <= MAX_TESTS && GoodTests(run.tests)
    requires p.active == Some(h) && h == Tests(|run.tests|, RecordsOf(run.tests), None, {})
    ensures Line(finite, p, EndLine(run)) == Some(p.(active := None, finished := p.finished + [OutcomeOf(run)]))
  {
    hide Plausible, Concluded, SummaryText, Passing, GoodTests, RecordsOf, Line;
    var passed := OutcomeOf(run).passed;
    PassCountBound(run.tests);
    PassingCount(run.tests);
    RecordCount(run.tests);
    SummaryParses(finite, h, passed, |run.tests| - passed, run.elapsed);
    SummaryDispatch(finite, p, h, SummaryText(passed, |run.tests| - passed, run.elapsed));
  }

  /** The start line and the tests of a run. */
  lemma RunBodyScans(finite: Finite, p: Progress, run: Run)
    requires Plausible(finite)
    requires p.active.None? && p.total <= MAX_TESTS && |p.finished| <= MAX_HARNESSES
    ensures var count := |run.tests|;
      Scan(finite, p, [StartLine(count)] + AllLines(run.tests)) ==
      if |p.finished| < MAX_HARNESSES && count <= MAX_TESTS - p.total && GoodTests(run.tests)
      then Some(Progress(Some(Tests(count, RecordsOf(run.tests), None, {})), p.finished, p.total + count)) else None
  {
    hide Plausible, Scan, Line, StartLine, AllLines, GoodTests, RecordsOf;
    var count := |run.tests|;
    ScanConcat(finite, p, [StartLine(count)], AllLines(run.tests));
    ScanOne(finite, p, StartLine(count));
    StartScans(finite, p, count);
    if |p.finished| < MAX_HARNESSES && count <= MAX_TESTS - p.total {
      var h := Tests(count, map[], None, {});
      TestsScan(finite, Progress(Some(h), p.finished, p.total + count), h, run.tests);
    }
  }

  /** A printed run is accepted, with its exact counts, if it fits and its tests are good, and otherwise refused. */
  lemma RunScans(finite: Finite, p: Progress, run: Run)
    requires Plausible(finite) && finite(run.elapsed)
    requires p.active.None? && p.total <= MAX_TESTS && |p.finished| <= MAX_HARNESSES
    ensures Scan(finite, p, RunLines(run)) ==
            if |p.finished| < MAX_HARNESSES && |run.tests| <= MAX_TESTS - p.total && GoodTests(run.tests)
            then Some(Progress(None, p.finished + [OutcomeOf(run)], p.total + |run.tests|)) else None
  {
    hide Plausible, Scan, Line, StartLine, EndLine, AllLines, GoodTests, RecordsOf, OutcomeOf;
    var count, end := |run.tests|, EndLine(run);
    ScanConcat(finite, p, [StartLine(count)] + AllLines(run.tests), [end]);
    RunBodyScans(finite, p, run);
    if |p.finished| < MAX_HARNESSES && count <= MAX_TESTS - p.total && GoodTests(run.tests) {
      var h := Tests(count, RecordsOf(run.tests), None, {});
      var q := Progress(Some(h), p.finished, p.total + count);
      ScanOne(finite, q, end);
      SummaryScans(finite, q, h, run);
    }
  }

  ghost function ReportLines(runs: seq<Run>): seq<string> {
    if runs == [] then [] else ReportLines(runs[..|runs| - 1]) + RunLines(runs[|runs| - 1])
  }

  ghost function Outcomes(runs: seq<Run>): (outcomes: seq<Outcome>)
    ensures |outcomes| == |runs|
  {
    if runs == [] then [] else Outcomes(runs[..|runs| - 1]) + [OutcomeOf(runs[|runs| - 1])]
  }

  ghost function TestCount(runs: seq<Run>): nat {
    if runs == [] then 0 else TestCount(runs[..|runs| - 1]) + |runs[|runs| - 1].tests|
  }

  /** The reports that are accepted: within both budgets, good names only, none twice in a run. */
  ghost predicate GoodRuns(runs: seq<Run>) {
    && |runs| <= MAX_HARNESSES && TestCount(runs) <= MAX_TESTS
    && forall k | 0 <= k < |runs| :: GoodTests(runs[k].tests)
  }

  lemma {:induction false} ReportScans(finite: Finite, runs: seq<Run>)
    requires Plausible(finite) && forall k | 0 <= k < |runs| :: finite(runs[k].elapsed)
    ensures Scan(finite, START, ReportLines(runs)) ==
            if GoodRuns(runs) then Some(Progress(None, Outcomes(runs), TestCount(runs))) else None
  {
    hide Plausible, Line, RunLines, GoodTests, OutcomeOf;
    if runs != [] {
      var init, last := runs[..|runs| - 1], runs[|runs| - 1];
      ReportScans(finite, init);
      ScanConcat(finite, START, ReportLines(init), RunLines(last));
      hide Scan;
      assert forall k | 0 <= k < |init| :: init[k] == runs[k];
      GoodRunsStep(runs);
      if GoodRuns(init) {
        RunScans(finite, Progress(None, Outcomes(init), TestCount(init)), last);
      }
      hide GoodRuns;
    }
  }

  lemma GoodRunsStep(runs: seq<Run>)
    requires runs != []
    ensures var init, last := runs[..|runs| - 1], runs[|runs| - 1];
      GoodRuns(runs) <==>
      GoodRuns(init) && |init| < MAX_HARNESSES && |last.tests| <= MAX_TESTS - TestCount(init) && GoodTests(last.tests)
  {
    hide GoodTests;
    var init := runs[..|runs| - 1];
    assert forall k | 0 <= k < |init| :: init[k] == runs[k];
  }

  // ---------------------------------------------------------------- the printed text

  /** A run as it is written, with the blank lines around its parts. */
  ghost function PrintedRun(run: Run): seq<string> {
    ["", StartLine(|run.tests|)] + AllLines(run.tests) + ["", EndLine(run), ""]
  }

  ghost function Printed(runs: seq<Run>): seq<string> {
    if runs == [] then [] else Printed(runs[..|runs| - 1]) + PrintedRun(runs[|runs| - 1])
  }

  ghost predicate Writable(line: string) {
    line != "" && OneLine(line)
  }

  lemma {:induction false} NonEmptyConcat(a: seq<string>, b: seq<string>)
    ensures NonEmpty(a + b) == NonEmpty(a) + NonEmpty(b)
  {
    if a == [] {
      assert a + b == b;
    } else {
      assert (a + b)[1..] == a[1..] + b;
      NonEmptyConcat(a[1..], b);
    }
  }

  lemma {:induction false} NonEmptyAll(lines: seq<string>)
    requires forall k | 0 <= k < |lines| :: lines[k] != ""
    ensures NonEmpty(lines) == lines
  {
    if lines != [] {
      NonEmptyAll(lines[1..]);
    }
  }

  lemma WritableJoin(front: string, back: string)
    requires '\n' !in front && Writable(back)
    ensures Writable(front + back)
  {
  }

  lemma WordsWritable()
    ensures Writable("ok") && Writable("ignored") && Writable(" seconds") && Writable("test") && Writable("tests") &&
        Writable("s")
    ensures '\n' !in RESULT && '\n' !in AWAITING && '\n' !in RUNNING && '\n' !in "test " && '\n' !in "running "
    ensures '\n' !in "test result: ok. " && '\n' !in " " && '\n' !in "; " && '\n' !in "finished in "
    ensures '\n' !in " passed" && '\n' !in " ignored" && '\n' !in "0 failed" && '\n' !in "0 measured"
    ensures '\n' !in "0 filtered out"
  {
  }

  lemma DecimalWritable(n: nat)
    ensures '\n' !in Decimal(n)
  {
  }

  lemma TestWritable(t: Test)
    requires '\n' !in t.display
    ensures forall line | line in TestLines(t) :: Writable(line)
  {
    WordsWritable();
    BareLength(t.display);
    hide Writable, BareName;
    if t.slow.Some? {
      DecimalWritable(t.slow.value);
      hide Decimal;
      var bare := BareName(t.display);
      WritableJoin(Decimal(t.slow.value), " seconds");
      WritableJoin(t.display + AWAITING + bare + RUNNING, Decimal(t.slow.value) + " seconds");
      WritableJoin("test ", t.display + AWAITING + bare + RUNNING + (Decimal(t.slow.value) + " seconds"));
    } else {
      WritableJoin(t.display + RESULT, Status(t.passed));
      WritableJoin("test ", t.display + RESULT + Status(t.passed));
    }
  }

  lemma {:induction false} TestsWritable(tests: seq<Test>)
    requires forall k | 0 <= k < |tests| :: '\n' !in tests[k].display
    ensures forall line | line in AllLines(tests) :: Writable(line)
  {
    hide Writable, TestLines;
    if tests != [] {
      TestsWritable(tests[..|tests| - 1]);
      TestWritable(tests[|tests| - 1]);
    }
  }

  lemma StartWritable(count: nat)
    ensures Writable(StartLine(count))
  {
    WordsWritable();
    DecimalWritable(count);
    hide Writable, Decimal;
    var noun := if count == 1 then "test" else "tests";
    WritableJoin(Decimal(count) + " ", noun);
    WritableJoin("running ", Decimal(count) + " " + noun);
  }

  lemma {:induction false} SpreadWritable(fields: seq<string>)
    requires fields != [] && Writable(fields[|fields| - 1])
    requires forall k | 0 <= k < |fields| :: '\n' !in fields[k]
    ensures Writable(Spread(fields))
  {
    WordsWritable();
    if |fields| > 1 {
      SpreadWritable(fields[1..]);
      hide Writable;
      WritableJoin(fields[0] + "; ", Spread(fields[1..]));
    }
  }

  lemma PlausibleOneLine(finite: Finite, elapsed: string)
    requires Plausible(finite) && finite(elapsed)
    ensures '\n' !in elapsed
  {
    assert '\n' !in "0123456789+-.eE";
  }

  lemma Unbroken(a: string, b: string)
    requires '\n' !in a && '\n' !in b
    ensures '\n' !in a + b
  {
  }

  lemma WritableUnbroken(line: string)
    requires Writable(line)
    ensures '\n' !in line
  {
  }

  lemma FieldsWritable(finite: Finite, passed: nat, ignored: nat, elapsed: string)
    requires Plausible(finite) && finite(elapsed)
    ensures forall k | 0 <= k < 6 :: '\n' !in SummaryFields(passed, ignored, elapsed)[k]
    ensures Writable(SummaryFields(passed, ignored, elapsed)[5])
  {
    hide Plausible, Decimal, Writable;
    PlausibleOneLine(finite, elapsed);
    WordsWritable();
    DecimalWritable(passed);
    DecimalWritable(ignored);
    Unbroken(Decimal(passed), " passed");
    Unbroken(Decimal(ignored), " ignored");
    WritableJoin(elapsed, "s");
    WritableJoin("finished in ", elapsed + "s");
    WritableUnbroken("finished in " + (elapsed + "s"));
  }

  lemma SummaryWritable(finite: Finite, passed: nat, ignored: nat, elapsed: string)
    requires Plausible(finite) && finite(elapsed)
    ensures Writable(SummaryLine(passed, ignored, elapsed))
  {
    hide Writable, Decimal, Plausible, SummaryFields, Spread;
    WordsWritable();
    FieldsWritable(finite, passed, ignored, elapsed);
    SpreadWritable(SummaryFields(passed, ignored, elapsed));
    WritableJoin("test result: ok. ", SummaryText(passed, ignored, elapsed));
  }

  lemma AllWritable(lines: seq<string>)
    requires forall line | line in lines :: Writable(line)
    ensures NonEmpty(lines) == lines && forall line | line in lines :: OneLine(line)
  {
    forall k | 0 <= k < |lines|
      ensures lines[k] != ""
    {
      assert Writable(lines[k]);
    }
    NonEmptyAll(lines);
    forall line | line in lines
      ensures OneLine(line)
    {
      assert Writable(line);
    }
  }

  /** Blank lines around a block of lines are all that reading drops. */
  lemma BlankLines(start: string, tests: seq<string>, end: string)
    requires Writable(start) && Writable(end) && forall line | line in tests :: Writable(line)
    ensures var lines := ["", start] + tests + ["", end, ""];
      NonEmpty(lines) == [start] + tests + [end] && forall line | line in lines :: OneLine(line)
  {
    AllWritable(tests);
    AllWritable([start]);
    AllWritable([end]);
    assert OneLine("");
    hide Writable, OneLine;
    NonEmptyConcat(["", start] + tests, ["", end, ""]);
    NonEmptyConcat(["", start], tests);
    NonEmptyBlank([start]);
    NonEmptyBlank([end, ""]);
    NonEmptyConcat([end], [""]);
    NonEmptyBlank([]);
    assert [""] + [start] == ["", start] && [""] + [end, ""] == ["", end, ""] && [end] + [""] == [end, ""];
    assert [""] + [] == [""] && NonEmpty([]) == [];
  }

  lemma EndWritable(finite: Finite, run: Run)
    requires Plausible(finite) && finite(run.elapsed)
    ensures Writable(EndLine(run))
  {
    PassCountBound(run.tests);
    hide Plausible, SummaryLine, Writable;
    SummaryWritable(finite, PassCount(run.tests), |run.tests| - PassCount(run.tests), run.elapsed);
  }

  lemma RunWritable(finite: Finite, run: Run)
    requires Plausible(finite) && finite(run.elapsed) && OneLineNames(run)
    ensures forall line | line in PrintedRun(run) :: OneLine(line)
    ensures NonEmpty(PrintedRun(run)) == RunLines(run)
  {
    hide Plausible, StartLine, EndLine, AllLines, Writable, OneLine, NonEmpty;
    TestsWritable(run.tests);
    StartWritable(|run.tests|);
    EndWritable(finite, run);
    BlankLines(StartLine(|run.tests|), AllLines(run.tests), EndLine(run));
  }

  lemma NonEmptyBlank(lines: seq<string>)
    ensures NonEmpty([""] + lines) == NonEmpty(lines)
  {
    assert ([""] + lines)[1..] == lines;
  }

  lemma {:induction false} PrintedMeans(finite: Finite, runs: seq<Run>)
    requires Plausible(finite) && forall k | 0 <= k < |runs| :: finite(runs[k].elapsed) && OneLineNames(runs[k])
    ensures forall line | line in Printed(runs) :: OneLine(line)
    ensures NonEmpty(Printed(runs)) == ReportLines(runs)
  {
    if runs != [] {
      var init, last := runs[..|runs| - 1], runs[|runs| - 1];
      assert forall k | 0 <= k < |init| :: init[k] == runs[k];
      assert OneLineNames(last);
      PrintedMeans(finite, init);
      RunWritable(finite, last);
      NonEmptyConcat(Printed(init), PrintedRun(last));
      hide Plausible, OneLine, PrintedRun, RunLines, NonEmpty;
    }
  }

  ghost predicate OneLineNames(run: Run) {
    forall k | 0 <= k < |run.tests| :: '\n' !in run.tests[k].display
  }

  lemma {:induction false} JoinedEnds(lines: seq<string>)
    requires lines != []
    ensures Joined(lines) != "" && Joined(lines)[|Joined(lines)| - 1] == '\n'
  {
    if |lines| > 1 {
      JoinedEnds(lines[1..]);
    } else {
      assert Joined(lines[1..]) == "";
      assert Joined(lines) == lines[0] + "\n";
    }
  }

  /**
   Printing any passing runs in the serial format, slow-test warnings included, and inspecting the
   text gives back their exact counts and records, exactly if there is a run, both budgets hold, no
   name repeats within a run, and every name is one the format can carry; otherwise it is refused.
   */
  lemma PrintedIsAcceptedExactly(finite: Finite, runs: seq<Run>)
    requires Plausible(finite) && forall k | 0 <= k < |runs| :: finite(runs[k].elapsed) && OneLineNames(runs[k])
    ensures Inspected(finite, Joined(Printed(runs))) ==
            if runs != [] && GoodRuns(runs) then Some(Outcomes(runs)) else None
  {
    PrintedMeans(finite, runs);
    ReportScans(finite, runs);
    if runs == [] {
      assert Joined([]) == "";
    } else {
      PrintedGrows(runs);
      hide Plausible, OneLine, Scan, Printed, Joined, Lines, ReportLines, GoodRuns, NonEmpty, TestCount, Inspected;
      InspectedJoined(finite, Printed(runs));
    }
  }

  function OnePassing(display: string): seq<Run> {
    [Run([Test(display, true, None)], "0")]
  }

  lemma OneTest(t: Test)
    ensures GoodTests([t]) <==> GoodTest(t)
  {
    hide GoodTest;
    assert [t][0] == t;
  }

  lemma OneGoodRun(display: string)
    ensures GoodRuns(OnePassing(display)) <==> GoodName(display)
  {
    hide GoodName, GoodTests;
    var runs, test := OnePassing(display), Test(display, true, None);
    OneTest(test);
    assert runs[..0] == [] && TestCount(runs[..0]) == 0;
    assert runs[0].tests == [test];
  }

  lemma OnePassingIsAccepted(finite: Finite, display: string)
    requires Plausible(finite) && finite("0") && '\n' !in display
    ensures Inspected(finite, Joined(Printed(OnePassing(display)))).Some? <==> GoodName(display)
  {
    hide Plausible, Inspected, Joined, Printed, GoodName, GoodRuns, Outcomes;
    OneGoodRun(display);
    PrintedIsAcceptedExactly(finite, OnePassing(display));
  }

  lemma LikeSummary()
    ensures !GoodName("result: ok. really") && '\n' !in "result: ok. really"
  {
    assert "result: ok. really" + " " == "result: ok. " + "really ";
    hide Contains, HasControl;
  }

  lemma ShortNoWarning(display: string)
    requires |display| + 1 < |RUNNING|
    ensures !Contains(display + " ", RUNNING)
  {
  }

  lemma UnlikeSummary()
    ensures GoodName("result ok") && '\n' !in "result ok"
  {
    ShortNoWarning("result ok");
    hide Contains;
    var accepted := "result ok" + " ";
    assert accepted[6] == ' ' && "result: ok. "[6] == ':';
  }

  /** The exceptions exist: a report with one passing test is refused if its name begins like a summary. */
  lemma SummaryLikeNameIsRefused(finite: Finite)
    requires Plausible(finite) && finite("0")
    ensures Inspected(finite, Joined(Printed(OnePassing("result: ok. really")))).None?
    ensures Inspected(finite, Joined(Printed(OnePassing("result ok")))).Some?
  {
    hide Plausible, Inspected, Printed, Joined, GoodName, OnePassing;
    LikeSummary();
    UnlikeSummary();
    OnePassingIsAccepted(finite, "result: ok. really");
    OnePassingIsAccepted(finite, "result ok");
  }

  /** Inspecting joined lines is scanning those that are not blank. */
  lemma InspectedJoined(finite: Finite, lines: seq<string>)
    requires lines != [] && forall line | line in lines :: OneLine(line)
    ensures Inspected(finite, Joined(lines)) ==
            match Scan(finite, START, NonEmpty(lines)) {
              case None => None
              case Some(p) => if p.active.Some? || p.finished == [] then None else Some(p.finished)
            }
  {
    LinesJoined(lines);
    JoinedEnds(lines);
    hide Scan, Joined, Lines, NonEmpty, OneLine;
  }

  lemma PrintedGrows(runs: seq<Run>)
    requires runs != []
    ensures Printed(runs) != []
  {
    assert |PrintedRun(runs[|runs| - 1])| >= 5;
  }
}
