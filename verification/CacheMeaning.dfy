/** Which compiler sessions a prune removes and how it reports them, told by names, times and lock files alone. */
module CacheMeaning {
  import opened Wrappers
  import opened IncrementalCache

  /** `age` microseconds have passed since the session began, and it did not begin in the future. */
  ghost predicate Old(c: Conditions, s: Session, age: nat) {
    s.created + age <= c.now
  }

  ghost predicate CompletedAfter(sessions: seq<Session>, created: nat) {
    exists t :: t in sessions && t.hash != "working" && t.created > created
  }

  /** Another completed session of the crate is newer. */
  ghost predicate Outlived(krate: Crate, s: Session) {
    CompletedAfter(krate.sessions, s.created)
  }

  /** The target has a newer completed session in some configuration, and none from the future. */
  ghost predicate Replaced(c: Conditions, crates: seq<Crate>, target: string, s: Session) {
    && (exists k :: 0 <= k < |crates| && crates[k].target == target && CompletedAfter(crates[k].sessions, s.created))
    && forall k | 0 <= k < |crates| && crates[k].target == target :: !CompletedAfter(crates[k].sessions, c.now)
  }

  /**
   A session is disposable if its lock file grants the lease, the grace period is over, and it was
   abandoned while working, or is outlived in its crate, or replaced and past the configuration age.
   */
  ghost predicate Disposable(c: Conditions, crates: seq<Crate>, k: nat, s: Session)
    requires k < |crates|
  {
    && c.lease(crates[k].name, s.lock) == Granted && Old(c, s, c.policy.grace)
    && (s.hash == "working" || Outlived(crates[k], s) ||
        (Old(c, s, c.policy.configurationAge) && Replaced(c, crates, crates[k].target, s)))
  }

  lemma NewestIs(sessions: seq<Session>, s: Session)
    requires s in sessions && !s.working
    ensures Newest(sessions) == Some(s.created) <==> !CompletedAfter(sessions, s.created)
  {
    NewestMeans(sessions);
  }

  lemma LatestIs(crates: seq<Crate>, target: string, created: nat)
    ensures
      (Latest(crates, target).Some? && Latest(crates, target).value > created) <==>
      exists k :: 0 <= k < |crates| && crates[k].target == target && CompletedAfter(crates[k].sessions, created)
  {
    LatestMeans(crates, target);
    if Latest(crates, target).Some? && Latest(crates, target).value > created {
      var k :| 0 <= k < |crates| && crates[k].target == target &&
               CompletedIn(crates[k].sessions, Latest(crates, target).value);
      assert CompletedAfter(crates[k].sessions, created);
    }
    forall k | 0 <= k < |crates| && crates[k].target == target && CompletedAfter(crates[k].sessions, created)
      ensures Latest(crates, target).Some? && Latest(crates, target).value > created
    {
      var t :| t in crates[k].sessions && t.hash != "working" && t.created > created;
      assert CompletedIn(crates[k].sessions, t.created);
      assert Completed(crates, target, t.created);
    }
  }

  /** An inspection wants exactly the disposable sessions, and calls superseded those not outlived in their crate. */
  lemma WantedExactly(c: Conditions, crates: seq<Crate>, k: nat, s: Session)
    requires k < |crates| && s in crates[k].sessions
    ensures ViewOf(c, crates, k).Wants(s) <==> Disposable(c, crates, k, s)
    ensures Disposable(c, crates, k, s) ==>
              (ViewOf(c, crates, k).Superseded(s) <==> s.hash != "working" && !Outlived(crates[k], s))
  {
    LatestIs(crates, crates[k].target, s.created);
    LatestIs(crates, crates[k].target, c.now);
    if !s.working {
      NewestIs(crates[k].sessions, s);
    }
    hide Latest, Newest, CompletedAfter;
  }

  // ---------------------------------------------------------------- whole crates

  /** No disposable session before the `i`-th stands behind the same lock file. */
  ghost predicate FirstOfLock(c: Conditions, crates: seq<Crate>, k: nat, i: nat)
    requires k < |crates| && i < |crates[k].sessions|
  {
    forall j | 0 <= j < i && Disposable(c, crates, k, crates[k].sessions[j]) ::
      crates[k].sessions[j].lock != crates[k].sessions[i].lock
  }

  lemma LockTaken(v: View, sessions: seq<Session>, lock: string)
    ensures lock in Locks(Chosen(v, sessions)) <==>
            exists j :: 0 <= j < |sessions| && v.Wants(sessions[j]) && sessions[j].lock == lock
  {
    ChosenMeans(v, sessions);
  }

  lemma NotAmong(v: View, init: seq<Session>, last: Session)
    requires DistinctSessions(init + [last])
    ensures last !in Chosen(v, init) && last !in Measured(v, init)
  {
    var sessions := init + [last];
    ChosenMeans(v, init);
    ChosenAreMeasured(v, init);
    hide Chosen, Measured;
    assert sessions[|init|] == last;
    forall j | 0 <= j < |init|
      ensures init[j].name != last.name
    {
      assert sessions[j] == init[j];
    }
    assert last !in init;
  }

  lemma {:induction false} ChosenExactly(v: View, sessions: seq<Session>, i: nat)
    requires i < |sessions| && DistinctSessions(sessions)
    ensures sessions[i] in Chosen(v, sessions) <==>
            v.Wants(sessions[i]) && sessions[i].lock !in Locks(Chosen(v, sessions[..i]))
    ensures sessions[i] in Measured(v, sessions) <==>
            v.Leases(sessions[i]) && sessions[i].lock !in Locks(Chosen(v, sessions[..i]))
    decreases |sessions|
  {
    hide Chosen, Measured, Locks;
    var init, last := sessions[..|sessions| - 1], sessions[|sessions| - 1];
    assert sessions == init + [last];
    ChosenLast(v, init, last);
    MeasuredLast(v, init, last);
    if i < |init| {
      ChosenExactly(v, init, i);
      assert init[..i] == sessions[..i] && init[i] == sessions[i];
      assert sessions[i].name != last.name;
    } else {
      NotAmong(v, init, last);
      assert sessions[..i] == init;
    }
  }

  /**
   A prune removes exactly the disposable sessions, one for each lock file: the first in the directory.
   The sizes it reports are those of the sessions it could lease: granted, and not behind the lock file
   of one it removes.
   */
  lemma DoomedExactly(c: Conditions, crates: seq<Crate>, k: nat, i: nat)
    requires DistinctNames(crates) && k < |crates| && i < |crates[k].sessions|
    ensures (crates[k].name, crates[k].sessions[i].name) in Doomed(c, crates) <==>
            Disposable(c, crates, k, crates[k].sessions[i]) && FirstOfLock(c, crates, k, i)
    ensures crates[k].sessions[i] in Measured(ViewOf(c, crates, k), crates[k].sessions) <==>
            c.lease(crates[k].name, crates[k].sessions[i].lock) == Granted && FirstOfLock(c, crates, k, i)
  {
    hide Doomed, Disposable, Chosen, Measured, Locks, ViewOf, FirstOfLock;
    var v, sessions := ViewOf(c, crates, k), crates[k].sessions;
    DoomedMeans(c, crates, k, sessions[i]);
    ChosenExactly(v, sessions, i);
    LockFree(c, crates, k, i);
    WantedExactly(c, crates, k, sessions[i]);
    LeaseIs(c, crates, k, sessions[i]);
  }

  lemma LeaseIs(c: Conditions, crates: seq<Crate>, k: nat, s: Session)
    requires k < |crates|
    ensures ViewOf(c, crates, k).Leases(s) <==> c.lease(crates[k].name, s.lock) == Granted
    ensures ChosenIn(c, crates, k) == Chosen(ViewOf(c, crates, k), crates[k].sessions)
  {
  }

  lemma LockFree(c: Conditions, crates: seq<Crate>, k: nat, i: nat)
    requires k < |crates| && i < |crates[k].sessions|
    ensures FirstOfLock(c, crates, k, i) <==>
            crates[k].sessions[i].lock !in Locks(Chosen(ViewOf(c, crates, k), crates[k].sessions[..i]))
  {
    hide Disposable, Chosen, Locks, ViewOf;
    var v, sessions := ViewOf(c, crates, k), crates[k].sessions;
    LockTaken(v, sessions[..i], sessions[i].lock);
    forall j | 0 <= j < i
      ensures sessions[..i][j] == sessions[j]
      ensures v.Wants(sessions[j]) <==> Disposable(c, crates, k, sessions[j])
    {
      WantedExactly(c, crates, k, sessions[j]);
    }
  }

  // ---------------------------------------------------------------- the report's headings

  /** The places of the candidates under a heading. */
  ghost function Under(candidates: seq<Candidate>, heading: Candidate -> bool): set<int> {
    set i | 0 <= i < |candidates| && heading(candidates[i])
  }

  lemma UnderNext(init: seq<Candidate>, last: Candidate, heading: Candidate -> bool)
    ensures |Under(init + [last], heading)| == |Under(init, heading)| + if heading(last) then 1 else 0
  {
    var more, n := init + [last], |init|;
    var before := Under(init, heading);
    forall i: int
      ensures i in Under(more, heading) <==> i in before || (i == n && heading(last))
    {
      assert 0 <= i < n ==> more[i] == init[i];
    }
    assert n !in before;
    hide Under;
    assert Under(more, heading) == if heading(last) then before + {n} else before;
  }

  lemma {:induction false} CountUnder(candidates: seq<Candidate>, kind: Kind, heading: Candidate -> bool)
    requires forall x: Candidate :: KindOf(x) == kind <==> heading(x)
    ensures Count(candidates, kind) == |Under(candidates, heading)|
  {
    hide KindOf;
    if candidates == [] {
      assert Under(candidates, heading) == {};
    } else {
      var init, last := candidates[..|candidates| - 1], candidates[|candidates| - 1];
      assert candidates == init + [last];
      CountUnder(init, kind, heading);
      UnderNext(init, last, heading);
      hide Under;
    }
  }

  ghost predicate BeingWritten(x: Candidate) {
    x.session.hash == "working"
  }

  ghost predicate CompletedFlagged(x: Candidate) {
    x.session.hash != "working" && x.superseded
  }

  ghost predicate CompletedOther(x: Candidate) {
    x.session.hash != "working" && !x.superseded
  }

  /** Abandoned are those that were being written, superseded those flagged so, redundant all others. */
  lemma CountExactly(candidates: seq<Candidate>)
    ensures Count(candidates, Abandoned) == |Under(candidates, BeingWritten)|
    ensures Count(candidates, SupersededConfiguration) == |Under(candidates, CompletedFlagged)|
    ensures Count(candidates, Redundant) == |Under(candidates, CompletedOther)|
  {
    hide Under, Count;
    CountUnder(candidates, Abandoned, BeingWritten);
    CountUnder(candidates, SupersededConfiguration, CompletedFlagged);
    CountUnder(candidates, Redundant, CompletedOther);
  }

  // ---------------------------------------------------------------- session times

  /** The symbol of a digit in base 36: ten figures, then the alphabet. */
  ghost function Symbol(d: nat): char
    requires d < 36
  {
    if d < 10 then '0' + d as char else 'a' + (d - 10) as char
  }

  ghost function Numeral(n: nat): string {
    if n < 36 then [Symbol(n)] else Numeral(n / 36) + [Symbol(n % 36)]
  }

  /** Leading zeros, and the base-36 numeral of `n`. */
  ghost predicate Writes(part: string, n: nat) {
    exists zeros :: part == zeros + Numeral(n) && forall i | 0 <= i < |zeros| :: zeros[i] == '0'
  }

  lemma DigitExactly(d: nat)
    requires d < 36
    ensures Base36Digit(Symbol(d)) && Base36Value([Symbol(d)]) == d
  {
    assert [Symbol(d)][..0] == "" && [Symbol(d)][0] == Symbol(d);
  }

  lemma ValueNext(init: string, c: char)
    ensures Base36Value(init + [c]) == 36 * Base36Value(init) + Base36Value([c])
  {
    assert (init + [c])[..|init|] == init && [c][..0] == "";
  }

  lemma {:induction false} ZerosValue(zeros: string)
    requires forall i | 0 <= i < |zeros| :: zeros[i] == '0'
    ensures Base36Value(zeros) == 0
  {
    if zeros != "" {
      ZerosValue(zeros[..|zeros| - 1]);
    }
  }

  lemma {:induction false} NumeralValue(zeros: string, n: nat)
    requires forall i | 0 <= i < |zeros| :: zeros[i] == '0'
    ensures Base36Value(zeros + Numeral(n)) == n
    decreases n
  {
    var d := n % 36;
    DigitExactly(d);
    hide Base36Value, Base36Digit, Symbol;
    if n < 36 {
      ZerosValue(zeros);
      ValueNext(zeros, Symbol(d));
    } else {
      var front, last := Numeral(n / 36), Symbol(d);
      NumeralValue(zeros, n / 36);
      assert Numeral(n) == front + [last];
      hide Numeral;
      ValueNext(zeros + front, last);
      assert zeros + (front + [last]) == zeros + front + [last];
    }
  }

  lemma {:induction false} StampWritten(part: string) returns (zeros: string)
    requires part != "" && forall i | 0 <= i < |part| :: Base36Digit(part[i])
    ensures part == zeros + Numeral(Base36Value(part)) && forall i | 0 <= i < |zeros| :: zeros[i] == '0'
    decreases |part|
  {
    var init, c := part[..|part| - 1], part[|part| - 1];
    assert part == init + [c];
    ValueNext(init, c);
    var d := DigitOf(c);
    hide Base36Value, Base36Digit;
    if init == "" {
      zeros := "";
      assert init + [c] == [c];
      assert Base36Value(part) == d;
    } else {
      zeros := StampWritten(init);
      if Base36Value(init) == 0 {
        assert Numeral(0) == "0";
        zeros := init;
        assert Base36Value(part) == d;
      } else {
        var n := Base36Value(part);
        assert n / 36 == Base36Value(init) && n % 36 == d;
        assert Numeral(n) == Numeral(Base36Value(init)) + [c];
      }
    }
  }

  lemma DigitOf(c: char) returns (d: nat)
    requires Base36Digit(c)
    ensures d < 36 && Symbol(d) == c && Base36Value([c]) == d
  {
    d := if c <= '9' then c as nat - '0' as nat else 10 + (c as nat - 'a' as nat);
    assert [c][..0] == "" && [c][0] == c;
  }

  /** A session's time is the number that its stamp writes in base 36. */
  lemma StampExactly(part: string, n: nat)
    requires part != "" && forall i | 0 <= i < |part| :: Base36Digit(part[i])
    ensures Base36Value(part) == n <==> Writes(part, n)
  {
    var k := StampWritten(part);
    hide Base36Value, Base36Digit, Numeral;
    if Base36Value(part) == n {
      assert Writes(part, n);
    }
    forall zeros | part == zeros + Numeral(n) && forall i | 0 <= i < |zeros| :: zeros[i] == '0'
      ensures Base36Value(part) == n
    {
      NumeralValue(zeros, n);
    }
  }
}
