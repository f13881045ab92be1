/** The words of a test report read literally: names, numbers, records, durations and summaries. */
module DoctestMeaning {
  import opened Wrappers
  import opened Text
  import opened TextMeaning
  import opened DoctestOutput
  import DoctestPrinting
  import DoctestReports

  // ---------------------------------------------------------------- names

  /** The execution mode is dropped behind a name, where there is one, and nothing else is. */
  lemma BareNameExactly(display: string, name: string)
    ensures BareName(display) == name <==>
            || display == name + " - compile fail" || display == name + " - compile"
            || display == name + " - should panic"
            || (display == name && !EndsInMode(display))
  {
    StripSuffixExactly(display, " - compile fail", name);
    StripSuffixExactly(display, " - compile", name);
    StripSuffixExactly(display, " - should panic", name);
    Modes(display);
    hide StripSuffix;
  }

  ghost predicate EndsInMode(display: string) {
    exists name ::
      display == name + " - compile fail" || display == name + " - compile" || display == name + " - should panic"
  }

  /** A name ends in one mode at most. */
  lemma Modes(display: string)
    ensures EndsInMode(display) <==>
            || StripSuffix(display, " - compile fail").Some? || StripSuffix(display, " - compile").Some?
            || StripSuffix(display, " - should panic").Some?
    ensures StripSuffix(display, " - compile fail").Some? ==> StripSuffix(display, " - compile").None?
    ensures StripSuffix(display, " - compile fail").Some? ==> StripSuffix(display, " - should panic").None?
    ensures StripSuffix(display, " - compile").Some? ==> StripSuffix(display, " - should panic").None?
  {
    forall name
      ensures StripSuffix(display, " - compile fail") == Some(name) <==> display == name + " - compile fail"
      ensures StripSuffix(display, " - compile") == Some(name) <==> display == name + " - compile"
      ensures StripSuffix(display, " - should panic") == Some(name) <==> display == name + " - should panic"
    {
      StripSuffixExactly(display, " - compile fail", name);
      StripSuffixExactly(display, " - compile", name);
      StripSuffixExactly(display, " - should panic", name);
    }
    LastCharacter(display, " - compile fail");
    LastCharacter(display, " - compile");
    LastCharacter(display, " - should panic");
    hide StripSuffix;
  }

  lemma LastCharacter(s: string, p: string)
    requires p != ""
    ensures StripSuffix(s, p).Some? ==> s != "" && s[|s| - 1] == p[|p| - 1]
  {
    if StripSuffix(s, p).Some? {
      StripSuffixExactly(s, p, StripSuffix(s, p).value);
    }
  }

  /** The control characters of Unicode: two ranges of code points. */
  lemma GoodNameExactly(name: string)
    ensures DoctestReports.GoodName(name) <==>
            name != "" && forall i | 0 <= i < |name| :: !(name[i] as int < 32 || 127 <= name[i] as int < 160)
  {
    assert ' ' as int == 32;
    if !DoctestReports.GoodName(name) && name != "" {
      var i :| 0 <= i < |name| && Control(name[i]);
    }
    if DoctestReports.GoodName(name) {
      assert forall i | 0 <= i < |name| :: !Control(name[i]);
    }
  }

  // ---------------------------------------------------------------- numbers and durations

  /** `s` is a numeral of `n` and `end` behind it. */
  ghost predicate Counts(s: string, n: nat, end: string) {
    exists digits :: s == digits + end && Numeral(digits, n)
  }

  lemma {:induction false} ZerosAreZeros(k: nat)
    ensures forall i | 0 <= i < |Zeros(k)| :: Zeros(k)[i] == '0'
  {
    if k > 0 {
      ZerosAreZeros(k - 1);
    }
  }

  lemma NumeralHas(digits: string, n: nat)
    requires Numeral(digits, n)
    ensures digits != "" && forall c | c in digits :: c == '+' || '0' <= c <= '9'
  {
    var k: nat :| digits == Zeros(k) + Decimal(n) || digits == "+" + (Zeros(k) + Decimal(n));
    ZerosAreZeros(k);
    var body := Zeros(k) + Decimal(n);
    hide Zeros;
    forall i | 0 <= i < |body|
      ensures Digit(body[i])
    {
    }
  }

  /** A suffix read off, then a number. */
  lemma CountExactly(s: string, end: string, n: nat)
    ensures Counts(s, n, end) <==> StripSuffix(s, end).Some? && Numeral(StripSuffix(s, end).value, n)
  {
    forall digits
      ensures StripSuffix(s, end) == Some(digits) <==> s == digits + end
    {
      StripSuffixExactly(s, end, digits);
    }
    hide StripSuffix, Numeral;
  }

  /** A slow-test warning gives a positive number of seconds. */
  lemma SecondsExactly(duration: string, n: nat)
    ensures Seconds(duration) == Some(n) <==> 1 <= n <= 18446744073709551615 && Counts(duration, n, " seconds")
  {
    CountExactly(duration, " seconds", n);
    if StripSuffix(duration, " seconds").Some? {
      ParseNatExactly(StripSuffix(duration, " seconds").value, U64_MAX, n);
    }
    hide StripSuffix, Counts, Numeral, ParseNat;
  }

  /** A field of the summary gives exactly this count. */
  lemma CountedExactly(field: string, end: string, n: nat)
    ensures Counted(field, end, n) <==> n <= 18446744073709551615 && Counts(field, n, end)
  {
    CountExactly(field, end, n);
    if StripSuffix(field, end).Some? {
      ParseNatExactly(StripSuffix(field, end).value, U64_MAX, n);
    }
    hide StripSuffix, Counts, Numeral, ParseNat;
  }

  /** A duration is a finite, nonnegative number of seconds. */
  lemma DurationExactly(finite: Finite, s: string)
    ensures Duration(finite, s) <==> exists number :: s == number + "s" && finite(number)
  {
    forall number
      ensures StripSuffix(s, "s") == Some(number) <==> s == number + "s"
    {
      StripSuffixExactly(s, "s", number);
    }
    hide StripSuffix;
  }

  /** What declares `n` tests: a numeral of `n`, one space, and the noun in the right number. */
  ghost predicate Declares(s: string, n: nat) {
    exists digits :: s == digits + " " + (if n == 1 then "test" else "tests") && Numeral(digits, n)
  }

  lemma DeclarationExactly(s: string, n: nat)
    ensures Declaration(s) == Some(n) <==> n <= 18446744073709551615 && Declares(s, n)
  {
    var noun := if n == 1 then "test" else "tests";
    if Declaration(s) == Some(n) {
      var (digits, rest) := SplitOnce(s, " ").value;
      ParseNatExactly(digits, U64_MAX, n);
      hide Numeral, ParseNat;
      assert rest == noun && s == digits + " " + noun;
    }
    if n <= 18446744073709551615 && Declares(s, n) {
      var digits :| s == digits + " " + noun && Numeral(digits, n);
      NumeralHas(digits, n);
      assert " "[0] !in digits;
      SplitAtNewCharacter(digits, " ", noun);
      ParseNatExactly(digits, U64_MAX, n);
      hide Numeral, ParseNat, SplitOnce;
    }
  }

  /** The timing line of merged runs: two durations around its fixed words. */
  ghost predicate ReadsTimes(finite: Finite, times: string, elapsed: string, compilation: string) {
    && FirstAt(times, "; merged doctests compilation took ", elapsed + "s", compilation + "s")
    && finite(elapsed) && finite(compilation)
  }

  lemma TimesExactly(finite: Finite, times: string)
    ensures TimesFit(finite, times) <==>
            exists elapsed, compilation :: ReadsTimes(finite, times, elapsed, compilation)
  {
    var words := "; merged doctests compilation took ";
    if TimesFit(finite, times) {
      var (a, b) := SplitOnce(times, words).value;
      SplitOnceExactly(times, words, a, b);
      DurationExactly(finite, a);
      DurationExactly(finite, b);
      hide FirstAt, SplitOnce, Duration;
      var elapsed :| a == elapsed + "s" && finite(elapsed);
      var compilation :| b == compilation + "s" && finite(compilation);
      assert ReadsTimes(finite, times, elapsed, compilation);
    }
    forall elapsed, compilation | ReadsTimes(finite, times, elapsed, compilation)
      ensures TimesFit(finite, times)
    {
      SplitOnceExactly(times, words, elapsed + "s", compilation + "s");
      DurationExactly(finite, elapsed + "s");
      DurationExactly(finite, compilation + "s");
      hide FirstAt, SplitOnce, Duration;
    }
  }

  // ---------------------------------------------------------------- summaries

  ghost predicate NoneHolds(fields: seq<string>) {
    forall k | 0 <= k < |fields| :: !Holds(fields[k], "; ")
  }

  lemma HoldsSeparator(x: string)
    ensures Contains(x + ";", "; ") <==> Holds(x, "; ")
  {
    HoldsExactly(x, "; ");
    forall i
      ensures At(x + ";", "; ", i) <==> At(x, "; ", i)
    {
      if 0 <= i && i + 2 <= |x| {
        AtPrefix(x, ";", "; ", i);
      } else if 0 <= i && i + 2 == |x + ";"| {
        assert (x + ";")[i + 1] == ';';
        NotAt(x + ";", "; ", i, 1);
      }
    }
  }

  lemma HoldsFirst(front: string, p: string, back: string)
    ensures Holds(front + p + back, p)
  {
  }

  /** Splitting gives the one way to spread a text over pieces that hold no separator. */
  lemma {:induction false} SplitExactly(s: string, fields: seq<string>)
    ensures Split(s, "; ") == fields <==> Spreads(s, fields)
    decreases |s|
  {
    HoldsExactly(s, "; ");
    match SplitOnce(s, "; ")
    case None =>
      SplitWhole(s, fields);
    case Some((piece, rest)) =>
      SplitFirst(piece, rest);
      SplitExactly(rest, if fields == [] then [] else fields[1..]);
      hide SplitOnce, Spreads;
      if Split(s, "; ") == fields {
        assert fields[1..] == Split(rest, "; ");
        SpreadsOnto(piece, rest, fields);
      }
      if Spreads(s, fields) {
        SpreadsOff(s, piece, rest, fields);
        assert fields == [piece] + fields[1..];
      }
  }

  ghost predicate Spreads(s: string, fields: seq<string>) {
    fields != [] && DoctestPrinting.Spread(fields) == s && NoneHolds(fields)
  }

  lemma SplitFirst(piece: string, rest: string)
    ensures SplitOnce(piece + "; " + rest, "; ") == Some((piece, rest)) <==> !Holds(piece, "; ")
  {
    SplitJoins(piece, "; ", rest);
    assert "; "[..1] == ";";
    HoldsSeparator(piece);
    hide SplitOnce, Holds;
  }

  lemma SpreadsOnto(piece: string, rest: string, fields: seq<string>)
    requires fields != [] && fields[0] == piece && !Holds(piece, "; ") && Spreads(rest, fields[1..])
    ensures Spreads(piece + "; " + rest, fields)
  {
    hide Holds;
    assert fields == [piece] + fields[1..];
  }

  lemma SpreadsOff(s: string, piece: string, rest: string, fields: seq<string>)
    requires SplitOnce(s, "; ") == Some((piece, rest)) && Spreads(s, fields)
    ensures fields[0] == piece && Spreads(rest, fields[1..])
  {
    HoldsFirst(piece, "; ", rest);
    hide Holds;
    assert s == piece + "; " + rest;
    assert fields[0] != s;
    SplitFirst(fields[0], DoctestPrinting.Spread(fields[1..]));
    hide SplitOnce;
  }

  lemma SplitWhole(s: string, fields: seq<string>)
    requires SplitOnce(s, "; ").None? && !Holds(s, "; ")
    ensures Split(s, "; ") == fields <==> Spreads(s, fields)
  {
    if |fields| > 1 {
      HoldsFirst(fields[0], "; ", DoctestPrinting.Spread(fields[1..]));
    }
    hide SplitOnce, Holds;
    if |fields| == 1 {
      assert fields == [fields[0]];
    }
  }

  /** The summary of a harness: five counts with their words, and a duration, in this order. */
  ghost predicate ReadsSummary(finite: Finite, s: string, fields: seq<string>, passed: nat, ignored: nat) {
    && |fields| == 6 && Spreads(s, fields)
    && Counts(fields[0], passed, " passed") && Counts(fields[1], 0, " failed")
    && Counts(fields[2], ignored, " ignored") && Counts(fields[3], 0, " measured")
    && Counts(fields[4], 0, " filtered out")
    && ReadsFinished(finite, fields[5])
  }

  ghost predicate ReadsFinished(finite: Finite, field: string) {
    exists number :: field == "finished in " + (number + "s") && finite(number)
  }

  /** A summary fits exactly if it says these counts, nothing failed, measured or filtered, and a duration. */
  lemma SummaryExactly(finite: Finite, s: string, passed: nat, ignored: nat)
    ensures SummaryFits(finite, s, passed, ignored) <==>
            && passed <= 18446744073709551615 && ignored <= 18446744073709551615
            && exists fields :: ReadsSummary(finite, s, fields, passed, ignored)
  {
    var fields := Split(s, "; ");
    hide Split, Spreads, SummaryFits, ReadsSummary;
    SixFields(finite, s, passed, ignored);
    if SummaryFits(finite, s, passed, ignored) {
      assert ReadsSummary(finite, s, fields, passed, ignored);
    }
    forall read | ReadsSummary(finite, s, read, passed, ignored)
      ensures read == fields
    {
      ReadsOnce(finite, s, read, passed, ignored);
    }
  }

  lemma ReadsOnce(finite: Finite, s: string, fields: seq<string>, passed: nat, ignored: nat)
    requires ReadsSummary(finite, s, fields, passed, ignored)
    ensures Split(s, "; ") == fields
  {
    hide Spreads, Split, Counts, ReadsFinished;
    SplitExactly(s, fields);
  }

  lemma SixFields(finite: Finite, s: string, passed: nat, ignored: nat)
    ensures SummaryFits(finite, s, passed, ignored) <==>
            && passed <= 18446744073709551615 && ignored <= 18446744073709551615
            && ReadsSummary(finite, s, Split(s, "; "), passed, ignored)
  {
    var fields := Split(s, "; ");
    hide Split, Spreads, Counts, Counted, StripPrefix, Duration, ReadsFinished;
    SplitExactly(s, fields);
    if |fields| == 6 {
      CountedExactly(fields[0], " passed", passed);
      CountedExactly(fields[1], " failed", 0);
      CountedExactly(fields[2], " ignored", ignored);
      CountedExactly(fields[3], " measured", 0);
      CountedExactly(fields[4], " filtered out", 0);
      FinishedExactly(finite, fields[5]);
    }
  }

  lemma FinishedExactly(finite: Finite, field: string)
    ensures StripPrefix(field, "finished in ").Some? && Duration(finite, StripPrefix(field, "finished in ").value) <==>
            ReadsFinished(finite, field)
  {
    forall time
      ensures StripPrefix(field, "finished in ") == Some(time) <==> field == "finished in " + time
    {
      StripPrefixExactly(field, "finished in ", time);
    }
    hide StripPrefix;
    if StripPrefix(field, "finished in ").Some? {
      DurationExactly(finite, StripPrefix(field, "finished in ").value);
    }
    hide Duration;
  }

  // ---------------------------------------------------------------- records

  /** A terminal record: a name, three dots, and `ok` or `ignored`; it holds no slow-test warning. */
  lemma TerminalExactly(record: string, name: string, passed: bool)
    ensures DoctestReports.Terminal(record) == Some((name, passed)) <==>
            && record == name + " ... " + (if passed then "ok" else "ignored")
            && !Holds(record, " has been running for over ")
  {
    var status := if passed then "ok" else "ignored";
    HoldsExactly(record, RUNNING);
    assert RESULT[3] == '.' && RESULT[4] == ' ' && '.' !in status;
    if record == name + RESULT + status {
      RSplitJoins(name, RESULT, status, 3);
    }
    hide Holds, Contains;
  }

  /** A slow-test warning: it names a test, behind the name of one that is still waiting in serial output. */
  lemma WarningExactly(record: string, name: string, display: Option<string>)
    ensures DoctestReports.Slow(record) == Some(name) && DoctestReports.Awaiting(record) == display <==>
            exists names, duration ::
              && LastAt(record, " has been running for over ", names, duration)
              && match display {
                   case None => names == name && !Holds(names, " ... test ")
                   case Some(d) => FirstAt(names, " ... test ", d, name)
                 }
  {
    forall names, duration
      ensures RSplitOnce(record, RUNNING) == Some((names, duration)) <==>
              LastAt(record, " has been running for over ", names, duration)
    {
      RSplitOnceExactly(record, RUNNING, names, duration);
    }
    hide LastAt;
    match RSplitOnce(record, RUNNING)
    case None =>
    case Some((names, duration)) =>
      HoldsExactly(names, AWAITING);
      if display.Some? {
        SplitOnceExactly(names, AWAITING, display.value, name);
      }
      hide RSplitOnce, FirstAt, Holds;
  }
}
