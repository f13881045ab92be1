/** Which compiler sessions an incremental cache may retire, and what retiring them leaves unchanged. */
module IncrementalCache {
  import opened Wrappers
  import opened Inodes

  /** What trying the session's lock file yields: no file, another holder, or the lease. */
  datatype Lease = Missing | Held | Granted

  const U64_MAX := 0xFFFF_FFFF_FFFF_FFFF

  predicate Base36Digit(c: char) {
    '0' <= c <= '9' || 'a' <= c <= 'z'
  }

  /** One component of a session name. */
  type Base36 = part: string | 1 <= |part| <= 32 && forall i | 0 <= i < |part| :: Base36Digit(part[i]) witness "0"

  /** The number a base-36 component writes. */
  function Base36Value(part: string): nat {
    if part == "" then 0
    else
      var last := part[|part| - 1];
      36 * Base36Value(part[..|part| - 1]) +
      if '0' <= last <= '9' then last as nat - '0' as nat
      else if 'a' <= last <= 'z' then 10 + (last as nat - 'a' as nat) else 0
  }

  /** Microseconds since the epoch, as written in a session name. */
  type Stamp = part: Base36 | Base36Value(part) <= U64_MAX witness "0"

  /**
   A session directory `s-stamp-random-hash`, with its payload's allocated bytes by inode. Its lock
   file, its time and whether it is still being written are all read off the name.
   */
  datatype Session = Session(stamp: Stamp, random: Base36, hash: Base36, payload: map<Inode, nat>) {
    const lock: string := "s-" + stamp + "-" + random + ".lock"
    const name: string := "s-" + stamp + "-" + random + "-" + hash
    const created: nat := Base36Value(stamp)
    const working: bool := hash == "working"
  }

  /** A crate directory `target-stable`. */
  datatype Crate = Crate(target: string, stable: Base36, sessions: seq<Session>) {
    const name: string := target + "-" + stable
  }

  /** A session renamed out of the compiler's sight but not unlinked yet. */
  datatype Retiree = Retiree(krate: string, session: string, payload: map<Inode, nat>)

  /** Ages are in microseconds, like session times. */
  datatype Policy = Policy(bytes: nat, sessions: nat, grace: nat, configurationAge: nat)

  /** Everything outside the cache directory, fixed for the runs compared: policy, clock and lock files. */
  datatype Conditions = Conditions(policy: Policy, now: nat, lease: (string, string) -> Lease)

  datatype Candidate = Candidate(krate: string, session: Session, superseded: bool)

  datatype CacheError = RetirementCollision

  predicate Aged(now: nat, created: nat, age: nat) {
    created <= now && now - created >= age
  }

  /** A crate as one inspection sees it: its own newest and its target's latest completed timestamps. */
  datatype View = View(c: Conditions, krate: string, newest: Option<nat>, latest: Option<nat>) {
    predicate Superseded(s: Session) {
      && !s.working && newest == Some(s.created)
      && latest.Some? && s.created < latest.value <= c.now
      && Aged(c.now, s.created, c.policy.configurationAge)
    }

    /** Past the grace period and neither the crate's newest completed session nor, if it is, unsuperseded. */
    predicate Retirable(s: Session) {
      Aged(c.now, s.created, c.policy.grace) && (s.working || newest != Some(s.created) || Superseded(s))
    }

    predicate Leases(s: Session) {
      c.lease(krate, s.lock).Granted?
    }

    predicate Wants(s: Session) {
      Leases(s) && Retirable(s)
    }
  }

  // ---------------------------------------------------------------- newest completed sessions

  function Later(a: Option<nat>, b: Option<nat>): Option<nat> {
    if a.None? then b
    else if b.None? then a
    else if a.value < b.value then b else a
  }

  /** The newest completed session of a crate. */
  function Newest(sessions: seq<Session>): Option<nat> {
    if sessions == [] then None
    else
      var last := sessions[|sessions| - 1];
      Later(Newest(sessions[..|sessions| - 1]), if last.working then None else Some(last.created))
  }

  /** The latest completed session of a target, over all its configurations. */
  ghost function Latest(crates: seq<Crate>, target: string): Option<nat> {
    if crates == [] then None
    else
      var last := crates[|crates| - 1];
      Later(Latest(crates[..|crates| - 1], target), if last.target == target then Newest(last.sessions) else None)
  }

  ghost predicate CompletedIn(sessions: seq<Session>, created: nat) {
    exists s :: s in sessions && !s.working && s.created == created
  }

  lemma {:induction false} NewestMeans(sessions: seq<Session>)
    ensures Newest(sessions).Some? ==> CompletedIn(sessions, Newest(sessions).value)
    ensures forall s | s in sessions && !s.working :: Newest(sessions).Some? && s.created <= Newest(sessions).value
  {
    if sessions != [] {
      var init, last := sessions[..|sessions| - 1], sessions[|sessions| - 1];
      assert sessions == init + [last];
      NewestMeans(init);
      if Newest(init).Some? {
        var s :| s in init && !s.working && s.created == Newest(init).value;
        assert s in sessions;
      }
    }
  }

  /** Some configuration of the target holds a session completed at this time. */
  ghost predicate Completed(crates: seq<Crate>, target: string, created: nat) {
    exists k :: 0 <= k < |crates| && crates[k].target == target && CompletedIn(crates[k].sessions, created)
  }

  lemma {:induction false} LatestMeans(crates: seq<Crate>, target: string)
    ensures Latest(crates, target).Some? ==> Completed(crates, target, Latest(crates, target).value)
    ensures forall created: nat | Completed(crates, target, created) ::
              Latest(crates, target).Some? && created <= Latest(crates, target).value
  {
    if crates != [] {
      var init, last := crates[..|crates| - 1], crates[|crates| - 1];
      LatestMeans(init, target);
      NewestMeans(last.sessions);
      var before, own := Latest(init, target), Newest(last.sessions);
      if before.Some? {
        var k :| 0 <= k < |init| && init[k].target == target && CompletedIn(init[k].sessions, before.value);
        assert crates[k] == init[k];
      }
      if last.target == target && own.Some? {
        assert crates[|crates| - 1] == last && CompletedIn(last.sessions, own.value);
      }
      forall created: nat | Completed(crates, target, created)
        ensures Latest(crates, target).Some? && created <= Latest(crates, target).value
      {
        var k :| 0 <= k < |crates| && crates[k].target == target && CompletedIn(crates[k].sessions, created);
        if k < |init| {
          assert init[k] == crates[k];
          assert Completed(init, target, created);
        } else {
          var s :| s in last.sessions && !s.working && s.created == created;
        }
      }
    }
  }

  /** The latest timestamp is the only one both completed and not exceeded. */
  lemma LatestUnique(crates: seq<Crate>, target: string, x: Option<nat>)
    requires x.Some? ==> Completed(crates, target, x.value)
    requires forall created: nat | Completed(crates, target, created) :: x.Some? && created <= x.value
    ensures Latest(crates, target) == x
  {
    LatestMeans(crates, target);
  }

  function Lookup(generations: map<string, nat>, target: string): Option<nat> {
    if target in generations then Some(generations[target]) else None
  }

  /** One crate's contribution to the map of latest timestamps. */
  method RecordSessions(generations: map<string, nat>, krate: Crate) returns (grown: map<string, nat>)
    ensures forall t :: Lookup(grown, t) ==
                        if t == krate.target then Later(Lookup(generations, t), Newest(krate.sessions))
                        else Lookup(generations, t)
  {
    grown := generations;
    var sessions := krate.sessions;
    assert sessions[..0] == [] && sessions[..|sessions|] == sessions;
    for i := 0 to |sessions|
      invariant forall t :: Lookup(grown, t) ==
                            if t == krate.target then Later(Lookup(generations, t), Newest(sessions[..i]))
                            else Lookup(generations, t)
    {
      assert sessions[..i + 1][..i] == sessions[..i];
      var session := sessions[i];
      if !session.working {
        if krate.target in grown {
          if grown[krate.target] < session.created {
            grown := grown[krate.target := session.created];
          }
        } else {
          grown := grown[krate.target := session.created];
        }
      }
    }
  }

  /** `newest_configurations`. */
  method NewestConfigurations(crates: seq<Crate>) returns (generations: map<string, nat>)
    ensures forall t :: Lookup(generations, t) == Latest(crates, t)
  {
    generations := map[];
    assert crates[..0] == [] && crates[..|crates|] == crates;
    for k := 0 to |crates|
      invariant forall t :: Lookup(generations, t) == Latest(crates[..k], t)
    {
      assert crates[..k + 1][..k] == crates[..k];
      generations := RecordSessions(generations, crates[k]);
    }
  }

  // ---------------------------------------------------------------- what one inspection finds in a crate

  function Locks(sessions: seq<Session>): set<string> {
    set s | s in sessions :: s.lock
  }

  /**
   The sessions of one crate that become candidates, in directory order. A candidate keeps its
   lease, so a later session behind the same lock file finds it held.
   */
  ghost function Chosen(v: View, sessions: seq<Session>): seq<Session> {
    if sessions == [] then []
    else
      var init, last := sessions[..|sessions| - 1], sessions[|sessions| - 1];
      if v.Wants(last) && last.lock !in Locks(Chosen(v, init)) then Chosen(v, init) + [last] else Chosen(v, init)
  }

  /** The sessions whose lease the inspection obtains, and whose payload it therefore measures. */
  ghost function Measured(v: View, sessions: seq<Session>): seq<Session> {
    if sessions == [] then []
    else
      var init, last := sessions[..|sessions| - 1], sessions[|sessions| - 1];
      if v.Leases(last) && last.lock !in Locks(Chosen(v, init)) then Measured(v, init) + [last] else Measured(v, init)
  }

  /** Allocated bytes by inode; an inode met twice is counted once. */
  ghost function Payloads(sessions: seq<Session>): map<Inode, nat> {
    if sessions == [] then map[]
    else Payloads(sessions[..|sessions| - 1]) + sessions[|sessions| - 1].payload
  }

  ghost function Tagged(v: View, sessions: seq<Session>): (candidates: seq<Candidate>)
    ensures |candidates| == |sessions|
    ensures forall i | 0 <= i < |sessions| ::
        candidates[i] == Candidate(v.krate, sessions[i], v.Superseded(sessions[i]))
  {
    seq(|sessions|, i requires 0 <= i < |sessions| => Candidate(v.krate, sessions[i], v.Superseded(sessions[i])))
  }

  /** Candidates are exactly the wanted sessions not preceded by a candidate behind the same lock. */
  lemma {:induction false} ChosenMeans(v: View, sessions: seq<Session>)
    ensures forall s | s in Chosen(v, sessions) :: s in sessions && v.Wants(s)
    ensures forall i, j | 0 <= i < j < |Chosen(v, sessions)| ::
        Chosen(v, sessions)[i].lock != Chosen(v, sessions)[j].lock
    ensures forall s | s in sessions && v.Wants(s) :: s.lock in Locks(Chosen(v, sessions))
  {
    if sessions != [] {
      var init, last := sessions[..|sessions| - 1], sessions[|sessions| - 1];
      assert sessions == init + [last];
      ChosenMeans(v, init);
      var chosen := Chosen(v, init);
      if v.Wants(last) && last.lock !in Locks(chosen) {
        assert Chosen(v, sessions) == chosen + [last];
        assert forall i | 0 <= i < |chosen| :: chosen[i] in chosen && chosen[i].lock in Locks(chosen);
      }
    }
  }

  /** Every session is measured or not, and a measured one is a candidate or protected. */
  lemma {:induction false} ChosenAreMeasured(v: View, sessions: seq<Session>)
    ensures |Chosen(v, sessions)| <= |Measured(v, sessions)| <= |sessions|
    ensures forall s | s in Chosen(v, sessions) :: s in Measured(v, sessions)
    ensures forall s | s in Measured(v, sessions) :: s in sessions && v.Leases(s)
  {
    if sessions != [] {
      var init, last := sessions[..|sessions| - 1], sessions[|sessions| - 1];
      assert sessions == init + [last];
      ChosenAreMeasured(v, init);
    }
  }

  // ---------------------------------------------------------------- removing sessions

  /** The sessions of a crate that remain once the named ones are gone. */
  function Kept(krate: string, sessions: seq<Session>, gone: set<(string, string)>): seq<Session> {
    if sessions == [] then []
    else
      var init, last := sessions[..|sessions| - 1], sessions[|sessions| - 1];
      if (krate, last.name) in gone then Kept(krate, init, gone) else Kept(krate, init, gone) + [last]
  }

  function Without(crates: seq<Crate>, gone: set<(string, string)>): (rest: seq<Crate>)
    ensures |rest| == |crates|
    ensures forall k | 0 <= k < |crates| ::
              rest[k] == crates[k].(sessions := Kept(crates[k].name, crates[k].sessions, gone))
  {
    seq(|crates|, k requires 0 <= k < |crates| =>
          crates[k].(sessions := Kept(crates[k].name, crates[k].sessions, gone)))
  }

  lemma {:induction false} KeptElements(krate: string, sessions: seq<Session>, gone: set<(string, string)>)
    ensures |Kept(krate, sessions, gone)| <= |sessions|
    ensures forall s :: s in Kept(krate, sessions, gone) <==> s in sessions && (krate, s.name) !in gone
  {
    if sessions != [] {
      var init, last := sessions[..|sessions| - 1], sessions[|sessions| - 1];
      assert sessions == init + [last];
      KeptElements(krate, init, gone);
    }
  }

  lemma {:induction false} KeptTwice(krate: string, sessions: seq<Session>, a: set<(string, string)>,
      b: set<(string, string)>)
    ensures Kept(krate, Kept(krate, sessions, a), b) == Kept(krate, sessions, a + b)
  {
    if sessions != [] {
      var init, last := sessions[..|sessions| - 1], sessions[|sessions| - 1];
      KeptTwice(krate, init, a, b);
      if (krate, last.name) !in a {
        assert Kept(krate, sessions, a)[..|Kept(krate, sessions, a)| - 1] == Kept(krate, init, a);
      }
    }
  }

  lemma WithoutTwice(crates: seq<Crate>, a: set<(string, string)>, b: set<(string, string)>)
    ensures Without(Without(crates, a), b) == Without(crates, a + b)
  {
    forall k | 0 <= k < |crates|
      ensures Without(Without(crates, a), b)[k] == Without(crates, a + b)[k]
    {
      KeptTwice(crates[k].name, crates[k].sessions, a, b);
    }
  }

  lemma {:induction false} KeptNone(krate: string, sessions: seq<Session>)
    ensures Kept(krate, sessions, {}) == sessions
  {
    if sessions != [] {
      KeptNone(krate, sessions[..|sessions| - 1]);
    }
  }

  lemma WithoutNone(crates: seq<Crate>)
    ensures Without(crates, {}) == crates
  {
    forall k | 0 <= k < |crates|
      ensures Without(crates, {})[k] == crates[k]
    {
      KeptNone(crates[k].name, crates[k].sessions);
    }
  }

  // ---------------------------------------------------------------- retirability survives retirement

  /** Every session that goes was retirable in the crate it goes from. */
  ghost predicate OnlyRetirable(v: View, sessions: seq<Session>, gone: set<(string, string)>) {
    forall s | s in sessions && (v.krate, s.name) in gone :: v.Retirable(s)
  }

  /**
   Removing retirable sessions changes no other session's verdict. The crate's newest completed
   session may go, but only when superseded, and whatever becomes newest after it is superseded too.
   */
  lemma VerdictSurvives(v: View, sessions: seq<Session>, gone: set<(string, string)>, s: Session)
    requires v.newest == Newest(sessions) && OnlyRetirable(v, sessions, gone)
    requires s in Kept(v.krate, sessions, gone)
    ensures v.(newest := Newest(Kept(v.krate, sessions, gone))).Retirable(s) == v.Retirable(s)
  {
    var kept := Kept(v.krate, sessions, gone);
    KeptElements(v.krate, sessions, gone);
    NewestMeans(sessions);
    NewestMeans(kept);
    if Newest(kept) != v.newest && !s.working {
      var newest: Session :| newest in sessions && !newest.working && newest.created == v.newest.value;
      assert newest !in kept;
      assert v.Superseded(newest);
    }
  }

  /** A target's latest completed session is never retirable, so its timestamp stays. */
  lemma LatestIsNotRetirable(v: View, sessions: seq<Session>, s: Session)
    requires v.newest == Newest(sessions) && s in sessions && !s.working
    requires v.latest.Some? && s.created == v.latest.value
    requires v.newest.Some? ==> v.newest.value <= v.latest.value
    ensures !v.Retirable(s)
  {
    NewestMeans(sessions);
  }

  // ---------------------------------------------------------------- candidates survive retirement

  /** No two wanted sessions of a crate share a lock file. */
  ghost predicate OneLockEach(v: View, sessions: seq<Session>) {
    forall i, j | 0 <= i < j < |sessions| && v.Wants(sessions[i]) && v.Wants(sessions[j]) ::
      sessions[i].lock != sessions[j].lock
  }

  lemma OneLockPrefix(v: View, sessions: seq<Session>)
    requires sessions != [] && OneLockEach(v, sessions)
    ensures OneLockEach(v, sessions[..|sessions| - 1])
    ensures v.Wants(sessions[|sessions| - 1]) ==>
              sessions[|sessions| - 1].lock !in Locks(Chosen(v, sessions[..|sessions| - 1]))
  {
    var init, last := sessions[..|sessions| - 1], sessions[|sessions| - 1];
    ChosenMeans(v, init);
    if v.Wants(last) {
      forall s | s in Chosen(v, init)
        ensures s.lock != last.lock
      {
        var i :| 0 <= i < |init| && init[i] == s;
        assert sessions[i] == s;
      }
    }
  }

  /** Two inspections agree on what they want among these sessions. */
  ghost predicate SameWants(a: View, b: View, sessions: seq<Session>) {
    forall s | s in sessions :: a.Wants(s) == b.Wants(s)
  }

  /** With one lock each, what remains is chosen exactly if it was chosen before. */
  lemma {:induction false} ChosenSurvives(v: View, w: View, sessions: seq<Session>, gone: set<(string, string)>)
    requires v.krate == w.krate && OneLockEach(v, sessions) && SameWants(v, w, Kept(v.krate, sessions, gone))
    ensures Chosen(w, Kept(v.krate, sessions, gone)) == Kept(v.krate, Chosen(v, sessions), gone)
  {
    if sessions != [] {
      var init, last := sessions[..|sessions| - 1], sessions[|sessions| - 1];
      assert sessions == init + [last];
      OneLockPrefix(v, sessions);
      KeptElements(v.krate, init, gone);
      KeptElements(v.krate, sessions, gone);
      var kept := Kept(v.krate, init, gone);
      KeptLast(v.krate, init, last, gone);
      KeptLast(v.krate, Chosen(v, init), last, gone);
      ChosenLast(v, init, last);
      assert SameWants(v, w, kept) && (last in Kept(v.krate, sessions, gone) ==> v.Wants(last) == w.Wants(last));
      hide Chosen, Kept, OneLockEach, SameWants;
      ChosenSurvives(v, w, init, gone);
      if (v.krate, last.name) !in gone {
        ChosenLast(w, kept, last);
        ChosenSubset(v, w, init, gone, last);
      }
    }
  }

  lemma KeptLast(krate: string, init: seq<Session>, last: Session, gone: set<(string, string)>)
    ensures Kept(krate, init + [last], gone) ==
            if (krate, last.name) in gone then Kept(krate, init, gone) else Kept(krate, init, gone) + [last]
  {
    assert (init + [last])[..|init|] == init;
  }

  lemma ChosenLast(v: View, init: seq<Session>, last: Session)
    ensures Chosen(v, init + [last]) ==
            if v.Wants(last) && last.lock !in Locks(Chosen(v, init)) then Chosen(v, init) + [last] else Chosen(v, init)
  {
    assert (init + [last])[..|init|] == init;
  }

  lemma ChosenSubset(v: View, w: View, init: seq<Session>, gone: set<(string, string)>, last: Session)
    requires Chosen(w, Kept(v.krate, init, gone)) == Kept(v.krate, Chosen(v, init), gone)
    requires last.lock !in Locks(Chosen(v, init)) || !v.Wants(last)
    ensures v.Wants(last) ==> last.lock !in Locks(Chosen(w, Kept(v.krate, init, gone)))
  {
    KeptElements(v.krate, Chosen(v, init), gone);
  }

  /** Something is chosen exactly if something is wanted. */
  lemma {:induction false} NothingChosen(v: View, sessions: seq<Session>)
    ensures Chosen(v, sessions) == [] <==> forall s | s in sessions :: !v.Wants(s)
  {
    ChosenMeans(v, sessions);
    if Chosen(v, sessions) != [] {
      assert Chosen(v, sessions)[0] in Chosen(v, sessions);
    }
  }

  /** All wanted sessions are chosen exactly if no two of them share a lock. */
  lemma AllChosen(v: View, sessions: seq<Session>)
    requires forall i, j | 0 <= i < j < |sessions| :: sessions[i].name != sessions[j].name
    ensures (forall s | s in sessions && v.Wants(s) :: s in Chosen(v, sessions)) <==> OneLockEach(v, sessions)
  {
    ChosenMeans(v, sessions);
    if OneLockEach(v, sessions) {
      forall s | s in sessions && v.Wants(s)
        ensures s in Chosen(v, sessions)
      {
        var t :| t in Chosen(v, sessions) && t.lock == s.lock;
        var i :| 0 <= i < |sessions| && sessions[i] == s;
        var j :| 0 <= j < |sessions| && sessions[j] == t;
      }
    }
    if forall s | s in sessions && v.Wants(s) :: s in Chosen(v, sessions) {
      forall i, j | 0 <= i < j < |sessions| && v.Wants(sessions[i]) && v.Wants(sessions[j])
        ensures sessions[i].lock != sessions[j].lock
      {
        assert sessions[i] in Chosen(v, sessions) && sessions[j] in Chosen(v, sessions);
        assert sessions[i].name != sessions[j].name;
      }
    }
  }

  // ---------------------------------------------------------------- the whole cache

  /** Directory entries have distinct names. */
  ghost predicate DistinctNames(crates: seq<Crate>) {
    && (forall i, j | 0 <= i < j < |crates| :: crates[i].name != crates[j].name)
    && (forall k | 0 <= k < |crates| :: DistinctSessions(crates[k].sessions))
  }

  ghost predicate DistinctSessions(sessions: seq<Session>) {
    forall i, j | 0 <= i < j < |sessions| :: sessions[i].name != sessions[j].name
  }

  ghost function ViewOf(c: Conditions, crates: seq<Crate>, k: nat): View
    requires k < |crates|
  {
    View(c, crates[k].name, Newest(crates[k].sessions), Latest(crates, crates[k].target))
  }

  ghost function ChosenIn(c: Conditions, crates: seq<Crate>, k: nat): seq<Session>
    requires k < |crates|
  {
    Chosen(ViewOf(c, crates, k), crates[k].sessions)
  }

  /** The candidates an inspection finds in the first `n` crates. */
  ghost function Candidates(c: Conditions, crates: seq<Crate>, n: nat): seq<Candidate>
    requires n <= |crates|
  {
    if n == 0 then []
    else Candidates(c, crates, n - 1) + Tagged(ViewOf(c, crates, n - 1), ChosenIn(c, crates, n - 1))
  }

  ghost function Keys(candidates: seq<Candidate>): set<(string, string)> {
    set x | x in candidates :: (x.krate, x.session.name)
  }

  /** What pruning removes. */
  ghost function Doomed(c: Conditions, crates: seq<Crate>): set<(string, string)> {
    Keys(Candidates(c, crates, |crates|))
  }

  lemma {:induction false} CandidatesMean(c: Conditions, crates: seq<Crate>, n: nat)
    requires n <= |crates|
    ensures forall x | x in Candidates(c, crates, n) ::
              exists k :: 0 <= k < n && x.krate == crates[k].name && x.session in ChosenIn(c, crates, k)
    ensures forall k, s | 0 <= k < n && s in ChosenIn(c, crates, k) ::
              Candidate(crates[k].name, s, ViewOf(c, crates, k).Superseded(s)) in Candidates(c, crates, n)
  {
    if n > 0 {
      CandidatesMean(c, crates, n - 1);
      var chosen := ChosenIn(c, crates, n - 1);
      var tagged := Tagged(ViewOf(c, crates, n - 1), chosen);
      forall s | s in chosen
        ensures Candidate(crates[n - 1].name, s, ViewOf(c, crates, n - 1).Superseded(s)) in tagged
      {
        var i :| 0 <= i < |chosen| && chosen[i] == s;
        assert tagged[i] in tagged;
      }
    }
  }

  lemma NamesIdentify(crates: seq<Crate>, j: nat, k: nat, s: Session, t: Session)
    requires DistinctNames(crates) && j < |crates| && k < |crates| && crates[j].name == crates[k].name
    requires s in crates[j].sessions && t in crates[k].sessions && s.name == t.name
    ensures j == k && s == t
  {
    assert j == k;
    var a :| 0 <= a < |crates[j].sessions| && crates[j].sessions[a] == s;
    var b :| 0 <= b < |crates[j].sessions| && crates[j].sessions[b] == t;
  }

  lemma ChosenWithin(c: Conditions, crates: seq<Crate>, k: nat)
    requires k < |crates|
    ensures forall s | s in ChosenIn(c, crates, k) :: s in crates[k].sessions && ViewOf(c, crates, k).Wants(s)
  {
    ChosenMeans(ViewOf(c, crates, k), crates[k].sessions);
  }

  lemma CandidateFrom(c: Conditions, crates: seq<Crate>, x: Candidate) returns (k: nat)
    requires x in Candidates(c, crates, |crates|)
    ensures k < |crates| && x.krate == crates[k].name && x.session in ChosenIn(c, crates, k)
  {
    hide Candidates, ChosenIn, ViewOf;
    CandidatesMean(c, crates, |crates|);
    k :| 0 <= k < |crates| && x.krate == crates[k].name && x.session in ChosenIn(c, crates, k);
  }

  lemma ChosenDoomed(c: Conditions, crates: seq<Crate>, k: nat, s: Session)
    requires k < |crates| && s in ChosenIn(c, crates, k)
    ensures (crates[k].name, s.name) in Doomed(c, crates)
  {
    hide Candidates, ChosenIn, ViewOf;
    CandidatesMean(c, crates, |crates|);
    var x := Candidate(crates[k].name, s, ViewOf(c, crates, k).Superseded(s));
    assert x in Candidates(c, crates, |crates|);
  }

  /** A session is doomed exactly if its own crate's inspection chooses it. */
  lemma DoomedMeans(c: Conditions, crates: seq<Crate>, k: nat, s: Session)
    requires DistinctNames(crates) && k < |crates| && s in crates[k].sessions
    ensures (crates[k].name, s.name) in Doomed(c, crates) <==> s in ChosenIn(c, crates, k)
  {
    hide Candidates, ChosenIn, DistinctNames;
    var key := (crates[k].name, s.name);
    if key in Doomed(c, crates) {
      var x :| x in Candidates(c, crates, |crates|) && (x.krate, x.session.name) == key;
      var j := CandidateFrom(c, crates, x);
      ChosenWithin(c, crates, j);
      NamesIdentify(crates, j, k, x.session, s);
    }
    hide Doomed;
    if s in ChosenIn(c, crates, k) {
      ChosenDoomed(c, crates, k, s);
    }
  }

  /** Candidates are leased by this inspection and retirable; nothing else is ever doomed. */
  lemma DoomedAreWanted(c: Conditions, crates: seq<Crate>, gone: set<(string, string)>, k: nat)
    requires DistinctNames(crates) && k < |crates| && gone <= Doomed(c, crates)
    ensures forall s | s in crates[k].sessions && (crates[k].name, s.name) in gone :: ViewOf(c, crates, k).Wants(s)
    ensures OnlyRetirable(ViewOf(c, crates, k), crates[k].sessions, gone)
  {
    forall s | s in crates[k].sessions && (crates[k].name, s.name) in gone
      ensures ViewOf(c, crates, k).Wants(s)
    {
      DoomedMeans(c, crates, k, s);
      ChosenMeans(ViewOf(c, crates, k), crates[k].sessions);
    }
  }

  lemma NewestWithinLatest(crates: seq<Crate>, k: nat)
    requires k < |crates| && Newest(crates[k].sessions).Some?
    ensures Latest(crates, crates[k].target).Some?
    ensures Newest(crates[k].sessions).value <= Latest(crates, crates[k].target).value
  {
    NewestMeans(crates[k].sessions);
    LatestMeans(crates, crates[k].target);
    assert Completed(crates, crates[k].target, Newest(crates[k].sessions).value);
  }

  /** Retiring any of the candidates, in any mix, leaves every target's latest completed timestamp as it was. */
  lemma LatestUnchanged(c: Conditions, crates: seq<Crate>, gone: set<(string, string)>, target: string)
    requires DistinctNames(crates) && gone <= Doomed(c, crates)
    ensures Latest(Without(crates, gone), target) == Latest(crates, target)
  {
    var rest, latest := Without(crates, gone), Latest(crates, target);
    LatestMeans(crates, target);
    forall created: nat | Completed(rest, target, created)
      ensures latest.Some? && created <= latest.value
    {
      var k :| 0 <= k < |rest| && rest[k].target == target && CompletedIn(rest[k].sessions, created);
      KeptElements(crates[k].name, crates[k].sessions, gone);
      assert CompletedIn(crates[k].sessions, created);
      assert Completed(crates, target, created);
    }
    if latest.Some? {
      var k :| 0 <= k < |crates| && crates[k].target == target && CompletedIn(crates[k].sessions, latest.value);
      LatestStays(c, crates, gone, k);
    }
    LatestUnique(rest, target, latest);
  }

  lemma LatestStays(c: Conditions, crates: seq<Crate>, gone: set<(string, string)>, k: nat)
    requires DistinctNames(crates) && gone <= Doomed(c, crates) && k < |crates|
    requires Latest(crates, crates[k].target).Some?
    requires CompletedIn(crates[k].sessions, Latest(crates, crates[k].target).value)
    ensures Completed(Without(crates, gone), crates[k].target, Latest(crates, crates[k].target).value)
  {
    var latest := Latest(crates, crates[k].target);
    var s :| s in crates[k].sessions && !s.working && s.created == latest.value;
    DoomedAreWanted(c, crates, gone, k);
    NewestMeans(crates[k].sessions);
    NewestWithinLatest(crates, k);
    LatestIsNotRetirable(ViewOf(c, crates, k), crates[k].sessions, s);
    KeptElements(crates[k].name, crates[k].sessions, gone);
    assert s in Without(crates, gone)[k].sessions;
  }

  /** After any part of a prune, a later inspection wants exactly what it wanted before. */
  lemma WantsSurvive(c: Conditions, crates: seq<Crate>, gone: set<(string, string)>, k: nat)
    requires DistinctNames(crates) && gone <= Doomed(c, crates) && k < |crates|
    ensures SameWants(ViewOf(c, crates, k), ViewOf(c, Without(crates, gone), k), Without(crates, gone)[k].sessions)
  {
    var v, w, rest := ViewOf(c, crates, k), ViewOf(c, Without(crates, gone), k), Without(crates, gone);
    LatestUnchanged(c, crates, gone, crates[k].target);
    DoomedAreWanted(c, crates, gone, k);
    assert w == v.(newest := Newest(rest[k].sessions));
    forall s | s in rest[k].sessions
      ensures v.Wants(s) == w.Wants(s)
    {
      VerdictSurvives(v, crates[k].sessions, gone, s);
    }
  }

  // ---------------------------------------------------------------- idempotence and crash recovery

  /** In no crate do two wanted sessions share a lock file. */
  ghost predicate OneLockEverywhere(c: Conditions, crates: seq<Crate>) {
    forall k | 0 <= k < |crates| :: OneLockEach(ViewOf(c, crates, k), crates[k].sessions)
  }

  lemma {:induction false} NoCandidates(c: Conditions, crates: seq<Crate>, n: nat)
    requires n <= |crates|
    ensures Candidates(c, crates, n) == [] <==> forall k | 0 <= k < n :: ChosenIn(c, crates, k) == []
  {
    if n > 0 {
      NoCandidates(c, crates, n - 1);
      var tagged := Tagged(ViewOf(c, crates, n - 1), ChosenIn(c, crates, n - 1));
      assert |Candidates(c, crates, n)| == |Candidates(c, crates, n - 1)| + |tagged|;
    }
  }

  lemma NothingLeft(c: Conditions, crates: seq<Crate>, k: nat)
    requires DistinctNames(crates) && k < |crates|
    ensures ChosenIn(c, Without(crates, Doomed(c, crates)), k) == [] <==>
            OneLockEach(ViewOf(c, crates, k), crates[k].sessions)
  {
    var rest := Without(crates, Doomed(c, crates));
    var v, w := ViewOf(c, crates, k), ViewOf(c, rest, k);
    WantsSurvive(c, crates, Doomed(c, crates), k);
    KeptElements(crates[k].name, crates[k].sessions, Doomed(c, crates));
    NothingChosen(w, rest[k].sessions);
    AllChosen(v, crates[k].sessions);
    forall s | s in crates[k].sessions
      ensures s in rest[k].sessions <==> s !in ChosenIn(c, crates, k)
    {
      DoomedMeans(c, crates, k, s);
    }
  }

  /** Pruning is idempotent, under a fixed clock and fixed locks, exactly if wanted sessions do not share locks. */
  lemma PruneIsIdempotent(c: Conditions, crates: seq<Crate>)
    requires DistinctNames(crates)
    ensures Candidates(c, Without(crates, Doomed(c, crates)), |crates|) == [] <==> OneLockEverywhere(c, crates)
  {
    forall k | 0 <= k < |crates|
      ensures ChosenIn(c, Without(crates, Doomed(c, crates)), k) == [] <==>
              OneLockEach(ViewOf(c, crates, k), crates[k].sessions)
    {
      NothingLeft(c, crates, k);
    }
    NoCandidates(c, Without(crates, Doomed(c, crates)), |crates|);
  }

  /** After some candidates went, exactly the others are still candidates. */
  lemma DoomSurvives(c: Conditions, crates: seq<Crate>, gone: set<(string, string)>)
    requires DistinctNames(crates) && gone <= Doomed(c, crates) && OneLockEverywhere(c, crates)
    ensures Doomed(c, Without(crates, gone)) == Doomed(c, crates) - gone
  {
    var rest := Without(crates, gone);
    forall k | 0 <= k < |crates|
      ensures ChosenIn(c, rest, k) == Kept(crates[k].name, ChosenIn(c, crates, k), gone)
    {
      WantsSurvive(c, crates, gone, k);
      ChosenSurvives(ViewOf(c, crates, k), ViewOf(c, rest, k), crates[k].sessions, gone);
    }
    forall key
      ensures key in Doomed(c, rest) <==> key in Doomed(c, crates) && key !in gone
    {
      DoomedKey(c, crates, key);
      DoomedKey(c, rest, key);
      KeptKey(c, crates, gone, key);
    }
  }

  /** The key belongs to a session some crate's inspection chooses. */
  ghost predicate ChosenKey(c: Conditions, crates: seq<Crate>, k: nat, key: (string, string))
    requires k < |crates|
  {
    exists s :: s in ChosenIn(c, crates, k) && (crates[k].name, s.name) == key
  }

  lemma DoomedKey(c: Conditions, crates: seq<Crate>, key: (string, string))
    ensures key in Doomed(c, crates) <==> exists k :: 0 <= k < |crates| && ChosenKey(c, crates, k, key)
  {
    hide Candidates, ChosenIn;
    if key in Doomed(c, crates) {
      var x :| x in Candidates(c, crates, |crates|) && (x.krate, x.session.name) == key;
      var k := CandidateFrom(c, crates, x);
      assert ChosenKey(c, crates, k, key);
    }
    hide Doomed;
    forall k | 0 <= k < |crates| && ChosenKey(c, crates, k, key)
      ensures key in Doomed(c, crates)
    {
      var s :| s in ChosenIn(c, crates, k) && (crates[k].name, s.name) == key;
      ChosenDoomed(c, crates, k, s);
    }
  }

  lemma KeptKey(c: Conditions, crates: seq<Crate>, gone: set<(string, string)>, key: (string, string))
    requires forall k | 0 <= k < |crates| ::
               ChosenIn(c, Without(crates, gone), k) == Kept(crates[k].name, ChosenIn(c, crates, k), gone)
    ensures forall k | 0 <= k < |crates| ::
              ChosenKey(c, Without(crates, gone), k, key) <==> ChosenKey(c, crates, k, key) && key !in gone
  {
    hide ChosenIn;
    forall k | 0 <= k < |crates|
      ensures ChosenKey(c, Without(crates, gone), k, key) <==> ChosenKey(c, crates, k, key) && key !in gone
    {
      KeptElements(crates[k].name, ChosenIn(c, crates, k), gone);
    }
  }

  /** Retiring the other candidates later comes to the same. */
  lemma RestRecovers(c: Conditions, crates: seq<Crate>, gone: set<(string, string)>)
    requires DistinctNames(crates) && gone <= Doomed(c, crates) && OneLockEverywhere(c, crates)
    ensures var rest := Without(crates, gone);
            Without(rest, Doomed(c, rest)) == Without(crates, Doomed(c, crates))
  {
    DoomSurvives(c, crates, gone);
    WithoutTwice(crates, gone, Doomed(c, Without(crates, gone)));
    assert gone + (Doomed(c, crates) - gone) == Doomed(c, crates);
  }

  /** A component ends before the first dash, so a dash after it shows where. */
  lemma {:induction false} PartsSplit(a: Base36, x: string, b: Base36, y: string)
    requires a + "-" + x == b + "-" + y
    ensures a == b && x == y
  {
    var text := a + "-" + x;
    assert text[|a|] == '-' && text[|b|] == '-';
    assert forall i | 0 <= i < |a| :: text[i] == a[i] && text[i] != '-';
    assert forall i | 0 <= i < |b| :: text[i] == b[i] && text[i] != '-';
    assert text[..|a|] == a && text[..|b|] == b;
    assert text[|a| + 1..] == x && text[|b| + 1..] == y;
  }

  /**
   Sessions behind one lock file carry the same stamp and random part, hence the same time. Of two
   differently named ones at most one is still being written.
   */
  lemma SharedLockMeans(s: Session, t: Session)
    ensures s.lock == t.lock <==> s.stamp == t.stamp && s.random == t.random
    ensures s.lock == t.lock && s.name != t.name ==> s.created == t.created && !(s.working && t.working)
  {
    if s.lock == t.lock {
      var x, y := s.random + ".lock", t.random + ".lock";
      assert s.lock == "s-" + (s.stamp + "-" + x) && t.lock == "s-" + (t.stamp + "-" + y);
      assert s.lock[2..] == s.stamp + "-" + x && t.lock[2..] == t.stamp + "-" + y;
      PartsSplit(s.stamp, x, t.stamp, y);
      assert x[..|x| - 5] == s.random && y[..|y| - 5] == t.random;
    }
  }

  /** A completed session, the working directory it was renamed from, and a later completed session. */
  function Leftovers(): seq<Session> {
    [Session("0", "a", "b", map[]), Session("0", "a", "working", map[]), Session("1", "a", "c", map[])]
  }

  lemma LeftoversDiffer()
    ensures DistinctSessions(Leftovers()) && Leftovers()[0].lock == Leftovers()[1].lock
    ensures Leftovers()[0].created == Leftovers()[1].created == 0 && Leftovers()[2].created == 1
    ensures !Leftovers()[2].working
  {
    var sessions := Leftovers();
    assert sessions[0].name[6] == 'b' && sessions[1].name[6] == 'w';
    assert sessions[0].name[2] == '0' && sessions[1].name[2] == '0' && sessions[2].name[2] == '1';
    assert Base36Value("0") == 0 && Base36Value("1") == 1;
  }

  function AllGranted(): Conditions {
    Conditions(Policy(0, 0, 0, 0), 1, (_, _) => Granted)
  }

  lemma LeftoversShareALock(v: View)
    requires v.newest == Newest(Leftovers()) && v.c == AllGranted()
    ensures !OneLockEach(v, Leftovers())
  {
    LeftoversDiffer();
    var sessions := Leftovers();
    assert v.Leases(sessions[0]) && v.Leases(sessions[1]);
    hide Leftovers, Newest, AllGranted, DistinctSessions;
    assert v.c.now == 1 && v.c.policy.grace == 0 by {
      GrantedMeans();
    }
    OutlivedIsWanted(v, sessions, sessions[0], sessions[2]);
    OutlivedIsWanted(v, sessions, sessions[1], sessions[2]);
  }

  lemma GrantedMeans()
    ensures AllGranted().now == 1 && AllGranted().policy.grace == 0
  {
  }

  /** Of the leftovers, which stand behind one lock file, one waits for another prune. */
  lemma SharedLockTakesTwoPrunes()
    ensures exists c, crates ::
              DistinctNames(crates) && Candidates(c, Without(crates, Doomed(c, crates)), |crates|) != []
  {
    var c, crates := AllGranted(), [Crate("demo", "1", Leftovers())];
    LeftoversDiffer();
    hide Candidates, Without, Doomed, Chosen, Latest, OneLockEach, Newest, DistinctSessions, Leftovers, AllGranted;
    assert DistinctNames(crates);
    PruneIsIdempotent(c, crates);
    LeftoversShareALock(ViewOf(c, crates, 0));
    assert !OneLockEverywhere(c, crates);
  }

  /** Past the grace period, a leased session older than a completed one of its crate is wanted. */
  lemma OutlivedIsWanted(v: View, sessions: seq<Session>, s: Session, later: Session)
    requires v.newest == Newest(sessions) && v.Leases(s) && Aged(v.c.now, s.created, v.c.policy.grace)
    requires later in sessions && !later.working && s.created < later.created
    ensures v.Wants(s)
  {
    NewestMeans(sessions);
  }

  /** A doomed session was leased, past the grace period, and one of: abandoned, outlived in its crate, superseded. */
  lemma DoomedFor(c: Conditions, crates: seq<Crate>, k: nat, s: Session)
    requires DistinctNames(crates) && k < |crates| && s in crates[k].sessions
    requires (crates[k].name, s.name) in Doomed(c, crates)
    ensures c.lease(crates[k].name, s.lock) == Granted && Aged(c.now, s.created, c.policy.grace)
    ensures || s.working
            || (exists t :: t in crates[k].sessions && !t.working && s.created < t.created)
            || (Aged(c.now, s.created, c.policy.configurationAge) &&
                exists j, t :: 0 <= j < |crates| && j != k && crates[j].target == crates[k].target &&
                               t in crates[j].sessions && !t.working && s.created < t.created <= c.now)
  {
    DoomedMeans(c, crates, k, s);
    ChosenWithin(c, crates, k);
    NewestMeans(crates[k].sessions);
    LatestMeans(crates, crates[k].target);
    var v := ViewOf(c, crates, k);
    if !s.working && v.newest == Some(s.created) {
      var j :| 0 <= j < |crates| && crates[j].target == crates[k].target &&
          CompletedIn(crates[j].sessions, v.latest.value);
      var t :| t in crates[j].sessions && !t.working && t.created == v.latest.value;
      assert j != k;
    } else if !s.working {
      assert CompletedIn(crates[k].sessions, v.newest.value);
    }
  }

  // ---------------------------------------------------------------- the inspection

  /** The running counts of an inspection. */
  datatype Tally = Tally(
    sessions: nat,
    protected: nat,
    unmeasured: nat,
    files: map<Inode, nat>,
    candidates: seq<Candidate>)

  ghost function CrateTally(v: View, t: Tally, sessions: seq<Session>): Tally {
    ChosenAreMeasured(v, sessions);
    Tally(t.sessions + |sessions|,
          t.protected + |sessions| - |Chosen(v, sessions)|,
          t.unmeasured + |sessions| - |Measured(v, sessions)|,
          t.files + Payloads(Measured(v, sessions)),
          t.candidates + Tagged(v, Chosen(v, sessions)))
  }

  ghost function CacheTally(c: Conditions, t: Tally, crates: seq<Crate>, n: nat): Tally
    requires n <= |crates|
  {
    if n == 0 then t
    else CrateTally(ViewOf(c, crates, n - 1), CacheTally(c, t, crates, n - 1), crates[n - 1].sessions)
  }

  ghost function SessionCount(crates: seq<Crate>, n: nat): nat
    requires n <= |crates|
  {
    if n == 0 then 0 else SessionCount(crates, n - 1) + |crates[n - 1].sessions|
  }

  /** Every session is counted once: as a candidate or as protected. */
  lemma {:induction false} TallyMeans(c: Conditions, t: Tally, crates: seq<Crate>, n: nat)
    requires n <= |crates|
    ensures var after := CacheTally(c, t, crates, n);
      && after.candidates == t.candidates + Candidates(c, crates, n)
      && after.sessions == t.sessions + SessionCount(crates, n)
      && after.protected == t.protected + SessionCount(crates, n) - |Candidates(c, crates, n)|
      && |Candidates(c, crates, n)| <= SessionCount(crates, n)
  {
    hide Chosen, Measured, Payloads, Latest, Newest;
    if n > 0 {
      TallyMeans(c, t, crates, n - 1);
      var v := ViewOf(c, crates, n - 1);
      ChosenAreMeasured(v, crates[n - 1].sessions);
      assert t.candidates + (Candidates(c, crates, n - 1) + Tagged(v, ChosenIn(c, crates, n - 1)))
          == t.candidates + Candidates(c, crates, n - 1) + Tagged(v, ChosenIn(c, crates, n - 1));
    }
  }

  lemma TaggedNext(v: View, sessions: seq<Session>, s: Session)
    ensures Tagged(v, sessions + [s]) == Tagged(v, sessions) + [Candidate(v.krate, s, v.Superseded(s))]
  {
  }

  /** One more session: held elsewhere, protected, or a candidate. */
  lemma TallyNext(v: View, t: Tally, sessions: seq<Session>, i: nat)
    requires i < |sessions|
    ensures
      var before, s := CrateTally(v, t, sessions[..i]), sessions[i];
      var counted := before.(sessions := before.sessions + 1);
      CrateTally(v, t, sessions[..i + 1]) ==
      if !v.Leases(s) || s.lock in Locks(Chosen(v, sessions[..i])) then
        counted.(protected := before.protected + 1, unmeasured := before.unmeasured + 1)
      else if !v.Retirable(s) then
        counted.(protected := before.protected + 1, files := before.files + s.payload)
      else
        counted.(files := before.files + s.payload,
                 candidates := before.candidates + [Candidate(v.krate, s, v.Superseded(s))])
  {
    var init, s := sessions[..i], sessions[i];
    assert sessions[..i + 1] == init + [s];
    hide Payloads, Tagged, Latest, Newest;
    ChosenLast(v, init, s);
    MeasuredLast(v, init, s);
    hide Chosen, Measured;
    PayloadsLast(t.files, Measured(v, init), s);
    TaggedNext(v, Chosen(v, init), s);
    CandidatesAppend(t.candidates, Tagged(v, Chosen(v, init)), Candidate(v.krate, s, v.Superseded(s)));
    ChosenAreMeasured(v, init);
    var chosen, measured := Chosen(v, init + [s]), Measured(v, init + [s]);
    if !v.Leases(s) || s.lock in Locks(Chosen(v, init)) {
      assert chosen == Chosen(v, init) && measured == Measured(v, init);
    } else if !v.Retirable(s) {
      assert chosen == Chosen(v, init) && measured == Measured(v, init) + [s];
    } else {
      assert chosen == Chosen(v, init) + [s] && measured == Measured(v, init) + [s];
    }
  }

  lemma CandidatesAppend(a: seq<Candidate>, b: seq<Candidate>, c: Candidate)
    ensures a + (b + [c]) == a + b + [c]
  {
  }

  lemma MeasuredLast(v: View, init: seq<Session>, last: Session)
    ensures Measured(v, init + [last]) ==
            if v.Leases(last) && last.lock !in Locks(Chosen(v, init)) then Measured(v, init) + [last]
                else Measured(v, init)
  {
    assert (init + [last])[..|init|] == init;
  }

  lemma PayloadsLast(files: map<Inode, nat>, init: seq<Session>, last: Session)
    ensures files + Payloads(init + [last]) == files + Payloads(init) + last.payload
  {
    assert (init + [last])[..|init|] == init;
  }

  lemma {:induction false} ChosenPrefix(v: View, sessions: seq<Session>, i: nat)
    requires i <= |sessions|
    ensures Chosen(v, sessions[..i]) <= Chosen(v, sessions)
  {
    if i < |sessions| {
      var init := sessions[..|sessions| - 1];
      ChosenPrefix(v, init, i);
      assert init[..i] == sessions[..i];
    } else {
      assert sessions[..i] == sessions;
    }
  }

  /** The names under which interrupted retirements still occupy the retirement directory. */
  function Occupied(retired: seq<Retiree>): set<(string, string)> {
    set r | r in retired :: (r.krate, r.session)
  }

  ghost predicate Clear(krate: string, sessions: seq<Session>, occupied: set<(string, string)>) {
    forall s | s in sessions :: (krate, s.name) !in occupied
  }

  /** The scan of a crate has reached its `i`-th session: counts and the locks its own candidates hold. */
  ghost predicate Progress(v: View, start: Tally, sessions: seq<Session>, occupied: set<(string, string)>, i: nat,
        counts: Tally, held: set<string>)
  {
    && i <= |sessions| && counts == CrateTally(v, start, sessions[..i])
    && held == Locks(Chosen(v, sessions[..i])) && Clear(v.krate, Chosen(v, sessions[..i]), occupied)
  }

  lemma ProgressStart(v: View, start: Tally, sessions: seq<Session>, occupied: set<(string, string)>)
    ensures Progress(v, start, sessions, occupied, 0, start, {})
  {
    assert sessions[..0] == [] && start.files + map[] == start.files && start.candidates + [] == start.candidates;
  }

  lemma ProgressNext(v: View, start: Tally, sessions: seq<Session>, occupied: set<(string, string)>, i: nat,
        counts: Tally, held: set<string>)
    requires Progress(v, start, sessions, occupied, i, counts, held) && i < |sessions|
    ensures
      var s := sessions[i];
      var counted := counts.(sessions := counts.sessions + 1);
      var measured := counted.(files := counts.files + s.payload);
      if !v.Leases(s) || s.lock in held then
        Progress(v, start, sessions, occupied, i + 1,
                 counted.(protected := counts.protected + 1, unmeasured := counts.unmeasured + 1), held)
      else if !v.Retirable(s) then
        Progress(v, start, sessions, occupied, i + 1, measured.(protected := counts.protected + 1), held)
      else if (v.krate, s.name) in occupied then !Clear(v.krate, Chosen(v, sessions), occupied)
      else
        Progress(v, start, sessions, occupied, i + 1,
                 measured.(candidates := counts.candidates + [Candidate(v.krate, s, v.Superseded(s))]), held + {s.lock})
  {
    TallyNext(v, start, sessions, i);
    ChosenNext(v, sessions, occupied, i);
    hide CrateTally, Chosen, Clear;
  }

  lemma LocksGrow(chosen: seq<Session>, s: Session)
    ensures Locks(chosen + [s]) == Locks(chosen) + {s.lock}
  {
  }

  lemma ClearGrows(krate: string, chosen: seq<Session>, s: Session, occupied: set<(string, string)>)
    ensures Clear(krate, chosen + [s], occupied) <==> Clear(krate, chosen, occupied) && (krate, s.name) !in occupied
  {
    var more := chosen + [s];
    assert more[|chosen|] == s && forall i | 0 <= i < |chosen| :: more[i] == chosen[i];
  }

  lemma ClearPrefix(krate: string, some: seq<Session>, all: seq<Session>, occupied: set<(string, string)>)
    requires some <= all && Clear(krate, all, occupied)
    ensures Clear(krate, some, occupied)
  {
  }

  /** What one more session does to the candidates' locks and to the freedom of their retirement names. */
  lemma ChosenNext(v: View, sessions: seq<Session>, occupied: set<(string, string)>, i: nat)
    requires i < |sessions| && Clear(v.krate, Chosen(v, sessions[..i]), occupied)
    ensures
      var chosen, next, s := Chosen(v, sessions[..i]), Chosen(v, sessions[..i + 1]), sessions[i];
      if v.Wants(s) && s.lock !in Locks(chosen) then
        && Locks(next) == Locks(chosen) + {s.lock}
        && if (v.krate, s.name) in occupied then !Clear(v.krate, Chosen(v, sessions), occupied)
           else Clear(v.krate, next, occupied)
      else next == chosen
  {
    hide Chosen, Locks, Clear;
    var init, s := sessions[..i], sessions[i];
    var chosen, next := Chosen(v, init), Chosen(v, sessions[..i + 1]);
    assert sessions[..i + 1] == init + [s];
    ChosenLast(v, init, s);
    ChosenPrefix(v, sessions, i + 1);
    if v.Wants(s) && s.lock !in Locks(chosen) {
      LocksGrow(chosen, s);
      ClearGrows(v.krate, chosen, s, occupied);
      if Clear(v.krate, Chosen(v, sessions), occupied) {
        ClearPrefix(v.krate, next, Chosen(v, sessions), occupied);
      }
    }
  }

  lemma ProgressEnd(v: View, start: Tally, sessions: seq<Session>, occupied: set<(string, string)>,
        counts: Tally, held: set<string>)
    requires Progress(v, start, sessions, occupied, |sessions|, counts, held)
    ensures counts == CrateTally(v, start, sessions) && Clear(v.krate, Chosen(v, sessions), occupied)
  {
    assert sessions[..|sessions|] == sessions;
  }

  class Inventory {
    var sessions: nat
    var protected: nat
    var unmeasured: nat
    var files: map<Inode, nat>
    var candidates: seq<Candidate>

    ghost function Counts(): Tally
      reads this
    {
      Tally(sessions, protected, unmeasured, files, candidates)
    }

    constructor ()
      ensures Counts() == Tally(0, 0, 0, map[], [])
    {
      sessions, protected, unmeasured, files, candidates := 0, 0, 0, map[], [];
    }

    /** `record`: the payload's allocated bytes, by inode. */
    method Record(payload: map<Inode, nat>)
      modifies this`files
      ensures files == old(files) + payload
    {
      files := files + payload;
    }

    /** `inspect_crate`: a session gets its lease unless its lock is absent, held elsewhere, or held by a candidate. */
    method InspectCrate(krate: Crate, v: View, occupied: set<(string, string)>) returns (r: Result<(), CacheError>)
      requires v.krate == krate.name
      modifies this
      ensures r.Success? <==> Clear(krate.name, Chosen(v, krate.sessions), occupied)
      ensures r.Success? ==> Counts() == CrateTally(v, old(Counts()), krate.sessions)
    {
      var held: set<string> := {};
      ghost var start := Counts();
      ProgressStart(v, start, krate.sessions, occupied);
      hide Progress, CrateTally, Clear;
      for i := 0 to |krate.sessions|
        invariant Progress(v, start, krate.sessions, occupied, i, Counts(), held)
      {
        var session := krate.sessions[i];
        ProgressNext(v, start, krate.sessions, occupied, i, Counts(), held);
        sessions := sessions + 1;
        var lease := if session.lock in held && v.Leases(session) then Held else v.c.lease(krate.name, session.lock);
        if lease != Granted {
          unmeasured := unmeasured + 1;
          protected := protected + 1;
        } else {
          Record(session.payload);
          if !v.Retirable(session) {
            protected := protected + 1;
          } else if (krate.name, session.name) in occupied {
            return Failure(RetirementCollision);
          } else {
            candidates := candidates + [Candidate(krate.name, session, v.Superseded(session))];
            held := held + {session.lock};
          }
        }
      }
      ProgressEnd(v, start, krate.sessions, occupied, Counts(), held);
      r := Success(());
    }
  }

  // ---------------------------------------------------------------- counting what remains

  /** Position by position: a session is chosen exactly if it was when the scan reached it. */
  lemma {:induction false} ChosenAt(v: View, sessions: seq<Session>, n: nat)
    requires n < |sessions| && DistinctSessions(sessions)
    ensures sessions[n] in Chosen(v, sessions) <==>
            v.Wants(sessions[n]) && sessions[n].lock !in Locks(Chosen(v, sessions[..n]))
  {
    var init, last := sessions[..|sessions| - 1], sessions[|sessions| - 1];
    ChosenMeans(v, init);
    if n == |init| {
      assert forall s | s in init :: s.name != last.name;
    } else {
      ChosenAt(v, init, n);
      assert init[n] == sessions[n] && init[..n] == sessions[..n];
      assert sessions[n].name != last.name;
    }
  }

  lemma KeptCountStep(v: View, sessions: seq<Session>, gone: set<(string, string)>, n: nat)
    requires n < |sessions| && DistinctSessions(sessions)
    requires (v.krate, sessions[n].name) in gone <==> sessions[n] in Chosen(v, sessions)
    ensures |Kept(v.krate, sessions[..n + 1], gone)| + |Chosen(v, sessions[..n + 1])| ==
            |Kept(v.krate, sessions[..n], gone)| + |Chosen(v, sessions[..n])| + 1
  {
    hide Chosen, Kept, DistinctSessions, Locks;
    assert sessions[..n + 1] == sessions[..n] + [sessions[n]];
    ChosenAt(v, sessions, n);
    ChosenLast(v, sessions[..n], sessions[n]);
    KeptLast(v.krate, sessions[..n], sessions[n], gone);
  }

  lemma NothingKept(v: View, gone: set<(string, string)>)
    ensures Kept(v.krate, [], gone) == [] && Chosen(v, []) == []
  {
  }

  /** Removing exactly the chosen sessions leaves as many fewer. */
  lemma {:induction false} KeptCount(v: View, sessions: seq<Session>, gone: set<(string, string)>, n: nat)
    requires n <= |sessions| && DistinctSessions(sessions)
    requires forall k | 0 <= k < |sessions| ::
        (v.krate, sessions[k].name) in gone <==> sessions[k] in Chosen(v, sessions)
    ensures |Kept(v.krate, sessions[..n], gone)| + |Chosen(v, sessions[..n])| == n
  {
    hide Chosen, Kept, DistinctSessions, Locks;
    if n == 0 {
      assert sessions[..0] == [];
      NothingKept(v, gone);
    } else {
      KeptCount(v, sessions, gone, n - 1);
      KeptCountStep(v, sessions, gone, n - 1);
    }
  }

  lemma RemovedFrom(c: Conditions, crates: seq<Crate>, k: nat)
    requires k < |crates| && DistinctNames(crates)
    ensures |Without(crates, Doomed(c, crates))[k].sessions| + |ChosenIn(c, crates, k)| == |crates[k].sessions|
  {
    var v, all := ViewOf(c, crates, k), crates[k].sessions;
    forall i | 0 <= i < |all|
      ensures (v.krate, all[i].name) in Doomed(c, crates) <==> all[i] in Chosen(v, all)
    {
      DoomedMeans(c, crates, k, all[i]);
    }
    hide Doomed, Chosen, Kept;
    KeptCount(v, all, Doomed(c, crates), |all|);
    assert all[..|all|] == all;
  }

  lemma NoCrates(c: Conditions, crates: seq<Crate>)
    ensures Candidates(c, crates, 0) == [] && SessionCount(crates, 0) == 0
  {
  }

  lemma OneMoreCrate(c: Conditions, crates: seq<Crate>, n: nat)
    requires n < |crates|
    ensures |Candidates(c, crates, n + 1)| == |Candidates(c, crates, n)| + |ChosenIn(c, crates, n)|
    ensures SessionCount(crates, n + 1) == SessionCount(crates, n) + |crates[n].sessions|
  {
    hide ChosenIn;
  }

  lemma {:induction false} SessionsRemoved(c: Conditions, crates: seq<Crate>, n: nat)
    requires n <= |crates| && DistinctNames(crates)
    ensures SessionCount(Without(crates, Doomed(c, crates)), n) == SessionCount(crates, n) - |Candidates(c, crates, n)|
  {
    hide Doomed, ChosenIn, Kept, DistinctNames, Without, Candidates, SessionCount;
    var rest := Without(crates, Doomed(c, crates));
    NoCrates(c, crates);
    NoCrates(c, rest);
    if n > 0 {
      SessionsRemoved(c, crates, n - 1);
      RemovedFrom(c, crates, n - 1);
      OneMoreCrate(c, crates, n - 1);
      OneMoreCrate(c, rest, n - 1);
    }
  }

  // ---------------------------------------------------------------- maintenance

  ghost function RetiredFiles(retired: seq<Retiree>): map<Inode, nat> {
    if retired == [] then map[] else RetiredFiles(retired[..|retired| - 1]) + retired[|retired| - 1].payload
  }

  /** What an inspection of the whole cache counts. */
  ghost function Inspected(c: Conditions, crates: seq<Crate>, retired: seq<Retiree>): Tally {
    CacheTally(c, Tally(0, 0, 0, RetiredFiles(retired), []), crates, |crates|)
  }

  /** No candidate's retirement name is taken, told crate by crate. */
  lemma ClearMeans(c: Conditions, crates: seq<Crate>, occupied: set<(string, string)>)
    ensures Doomed(c, crates) !! occupied <==>
            forall k | 0 <= k < |crates| :: Clear(crates[k].name, ChosenIn(c, crates, k), occupied)
  {
    hide ChosenIn, Doomed;
    forall key
      ensures key in Doomed(c, crates) <==> exists k :: 0 <= k < |crates| && ChosenKey(c, crates, k, key)
    {
      DoomedKey(c, crates, key);
    }
    if forall k | 0 <= k < |crates| :: Clear(crates[k].name, ChosenIn(c, crates, k), occupied) {
      forall key | key in Doomed(c, crates)
        ensures key !in occupied
      {
        var k :| 0 <= k < |crates| && ChosenKey(c, crates, k, key);
      }
    } else {
      var k :| 0 <= k < |crates| && !Clear(crates[k].name, ChosenIn(c, crates, k), occupied);
      var s :| s in ChosenIn(c, crates, k) && (crates[k].name, s.name) in occupied;
      assert ChosenKey(c, crates, k, (crates[k].name, s.name));
    }
  }

  /** The retired payloads are measured without any lease. */
  method RecordRetired(inventory: Inventory, retired: seq<Retiree>)
    requires inventory.files == map[]
    modifies inventory`files
    ensures inventory.files == RetiredFiles(retired)
  {
    assert retired[..0] == [] && retired[..|retired|] == retired;
    for i := 0 to |retired|
      invariant inventory.files == RetiredFiles(retired[..i])
    {
      assert retired[..i + 1][..i] == retired[..i];
      inventory.Record(retired[i].payload);
    }
  }

  /** The crates in directory order, each under its own view. */
  method InspectCrates(inventory: Inventory, c: Conditions, crates: seq<Crate>, generations: map<string, nat>,
        occupied: set<(string, string)>) returns (r: Result<(), CacheError>)
    requires forall t :: Lookup(generations, t) == Latest(crates, t)
    modifies inventory
    ensures r.Success? <==> forall k | 0 <= k < |crates| :: Clear(crates[k].name, ChosenIn(c, crates, k), occupied)
    ensures r.Success? ==> inventory.Counts() == CacheTally(c, old(inventory.Counts()), crates, |crates|)
  {
    hide Clear, CrateTally, Latest, Newest;
    for k := 0 to |crates|
      invariant inventory.Counts() == CacheTally(c, old(inventory.Counts()), crates, k)
      invariant forall j | 0 <= j < k :: Clear(crates[j].name, ChosenIn(c, crates, j), occupied)
    {
      var v := View(c, crates[k].name, Newest(crates[k].sessions), Lookup(generations, crates[k].target));
      assert v == ViewOf(c, crates, k);
      var inspected := inventory.InspectCrate(crates[k], v, occupied);
      if inspected.Failure? {
        return inspected;
      }
    }
    r := Success(());
  }

  /** `inspect`: reads everything, changes nothing, and refuses exactly a taken retirement name. */
  method Inspect(c: Conditions, crates: seq<Crate>, retired: seq<Retiree>) returns (r: Result<Inventory, CacheError>)
    ensures r.Success? <==> Doomed(c, crates) !! Occupied(retired)
    ensures r.Success? ==> fresh(r.value) && r.value.Counts() == Inspected(c, crates, retired)
  {
    ClearMeans(c, crates, Occupied(retired));
    hide Doomed, Clear, CacheTally, Occupied;
    var inventory := new Inventory();
    RecordRetired(inventory, retired);
    var generations := NewestConfigurations(crates);
    var inspected := InspectCrates(inventory, c, crates, generations, Occupied(retired));
    match inspected
    case Failure(error) => r := Failure(error);
    case Success(_) => r := Success(inventory);
  }

  datatype Kind = Redundant | Abandoned | SupersededConfiguration

  function KindOf(x: Candidate): Kind {
    if x.session.working then Abandoned else if x.superseded then SupersededConfiguration else Redundant
  }

  function Count(candidates: seq<Candidate>, kind: Kind): nat {
    if candidates == [] then 0
    else Count(candidates[..|candidates| - 1], kind) + if KindOf(candidates[|candidates| - 1]) == kind then 1 else 0
  }

  /** Every candidate is reported under exactly one heading. */
  lemma {:induction false} KindsPartition(candidates: seq<Candidate>)
    ensures Count(candidates, Redundant) + Count(candidates, Abandoned) + Count(candidates, SupersededConfiguration)
         == |candidates|
  {
    if candidates != [] {
      KindsPartition(candidates[..|candidates| - 1]);
    }
  }

  datatype Report = Report(
    sessionsBefore: nat,
    sessionsAfter: nat,
    bytesBefore: nat,
    bytesAfter: nat,
    redundant: nat,
    abandoned: nat,
    superseded: nat,
    removed: nat,
    recovered: nat,
    protected: nat,
    unmeasured: nat,
    retiredSessions: nat,
    budgetVerified: bool)

  /** What a report says, given what the inspections before and after counted. */
  ghost predicate Reports(c: Conditions, report: Report, before: Tally, retired: nat, after: Tally, retired': nat) {
    && report.sessionsBefore == before.sessions && report.bytesBefore == Sum(before.files)
    && report.sessionsAfter == after.sessions && report.bytesAfter == Sum(after.files)
    && report.redundant == Count(before.candidates, Redundant)
    && report.abandoned == Count(before.candidates, Abandoned)
    && report.superseded == Count(before.candidates, SupersededConfiguration)
    && report.protected == after.protected && report.unmeasured == after.unmeasured
    && report.retiredSessions == retired
    && (report.budgetVerified <==>
          after.unmeasured == 0 && retired' == 0 &&
          after.sessions <= c.policy.sessions && Sum(after.files) <= c.policy.bytes)
  }

  /** The report's opening counts and `finish_report`. */
  method Summarize(c: Conditions, before: Inventory, retired: nat, after: Inventory, retired': nat,
        removed: nat, recovered: nat) returns (report: Report)
    ensures Reports(c, report, before.Counts(), retired, after.Counts(), retired')
    ensures report.removed == removed && report.recovered == recovered
  {
    hide Sum, Count;
    var bytesBefore := Bytes(before.files);
    var bytesAfter := Bytes(after.files);
    report := Report(
      before.sessions, after.sessions, bytesBefore, bytesAfter,
      Count(before.candidates, Redundant), Count(before.candidates, Abandoned),
      Count(before.candidates, SupersededConfiguration),
      removed, recovered, after.protected, after.unmeasured, retired,
      after.unmeasured == 0 && retired' == 0 && after.sessions <= c.policy.sessions && bytesAfter <= c.policy.bytes);
  }

  /** The candidates an inspection lists are the doomed sessions, and a prune's second look misses exactly them. */
  lemma PruneCounts(c: Conditions, crates: seq<Crate>, retired: seq<Retiree>)
    requires DistinctNames(crates)
    ensures
      var before, rest := Inspected(c, crates, retired), Without(crates, Doomed(c, crates));
      && Keys(before.candidates) == Doomed(c, crates) && DistinctNames(rest)
      && Inspected(c, rest, []).sessions == before.sessions - |before.candidates|
      && |before.candidates| == Count(before.candidates, Redundant) + Count(before.candidates, Abandoned)
                              + Count(before.candidates, SupersededConfiguration)
  {
    var rest := Without(crates, Doomed(c, crates));
    var start, again := Tally(0, 0, 0, RetiredFiles(retired), []), Tally(0, 0, 0, RetiredFiles([]), []);
    TallyMeans(c, start, crates, |crates|);
    TallyMeans(c, again, rest, |rest|);
    SessionsRemoved(c, crates, |crates|);
    WithoutKeepsNames(crates, Doomed(c, crates));
    KindsPartition(Inspected(c, crates, retired).candidates);
    hide CacheTally, DistinctNames, Without;
    assert [] + Candidates(c, crates, |crates|) == Candidates(c, crates, |crates|);
  }

  lemma WithoutKeepsNames(crates: seq<Crate>, gone: set<(string, string)>)
    requires DistinctNames(crates)
    ensures DistinctNames(Without(crates, gone))
  {
    forall k | 0 <= k < |crates|
      ensures DistinctSessions(Without(crates, gone)[k].sessions)
    {
      KeptDistinct(crates[k].name, crates[k].sessions, gone);
    }
  }

  lemma {:induction false} KeptDistinct(krate: string, sessions: seq<Session>, gone: set<(string, string)>)
    requires DistinctSessions(sessions)
    ensures DistinctSessions(Kept(krate, sessions, gone))
  {
    if sessions != [] {
      var init, last := sessions[..|sessions| - 1], sessions[|sessions| - 1];
      assert sessions == init + [last];
      KeptDistinct(krate, init, gone);
      KeptElements(krate, init, gone);
      assert forall s | s in init :: s.name != last.name;
    }
  }

  lemma KeysNext(candidates: seq<Candidate>, i: nat)
    requires i < |candidates|
    ensures Keys(candidates[..i + 1]) == Keys(candidates[..i]) + {(candidates[i].krate, candidates[i].session.name)}
  {
    assert candidates[..i + 1] == candidates[..i] + [candidates[i]];
  }

  /** The two directories maintenance works on: the cache and the retirement names beside it. */
  datatype Disk = Disk(crates: seq<Crate>, retired: seq<Retiree>)

  /**
   What a prune that dies can leave behind: some of `all` are gone from their crates, and every
   leftover, whole or partly unlinked, is one of those or was left over before.
   */
  ghost predicate Between(disk: Disk, all: set<(string, string)>, died: Disk) {
    exists gone | gone <= all ::
      died.crates == Without(disk.crates, gone) && Occupied(died.retired) <= gone + Occupied(disk.retired)
  }

  /**
   Wherever a prune died, also between a rename and its unlinks, the next one is not refused, and it
   reaches the cache that the first would have reached, without any leftover.
   */
  lemma CrashRecovers(c: Conditions, disk: Disk, died: Disk)
    requires DistinctNames(disk.crates) && OneLockEverywhere(c, disk.crates)
    requires Doomed(c, disk.crates) !! Occupied(disk.retired) && Between(disk, Doomed(c, disk.crates), died)
    ensures DistinctNames(died.crates)
    ensures Doomed(c, died.crates) !! Occupied(died.retired)
    ensures Without(died.crates, Doomed(c, died.crates)) == Without(disk.crates, Doomed(c, disk.crates))
  {
    hide Doomed, DistinctNames, OneLockEverywhere, Occupied;
    var gone :| gone <= Doomed(c, disk.crates) && died.crates == Without(disk.crates, gone) &&
                Occupied(died.retired) <= gone + Occupied(disk.retired);
    WithoutKeepsNames(disk.crates, gone);
    DoomSurvives(c, disk.crates, gone);
    RestRecovers(c, disk.crates, gone);
  }

  /** One more candidate: renamed, then removed. */
  lemma RetiredBetween(disk: Disk, candidates: seq<Candidate>, i: nat, renamed: Disk, removed: Disk)
    requires i < |candidates|
    requires renamed.crates == Without(disk.crates, Keys(candidates[..i + 1])) == removed.crates
    requires removed.retired == [] && |renamed.retired| == 1
    requires (renamed.retired[0].krate, renamed.retired[0].session) ==
             (candidates[i].krate, candidates[i].session.name)
    ensures Between(disk, Keys(candidates), renamed) && Between(disk, Keys(candidates), removed)
  {
    var gone := Keys(candidates[..i + 1]);
    KeysNext(candidates, i);
    assert gone <= Keys(candidates);
    assert Occupied(renamed.retired) <= gone;
    assert Occupied(removed.retired) == {};
    hide Between, Keys, Without, Occupied;
    Leaves(disk, Keys(candidates), gone, renamed);
    Leaves(disk, Keys(candidates), gone, removed);
  }

  lemma Leaves(disk: Disk, all: set<(string, string)>, gone: set<(string, string)>, died: Disk)
    requires gone <= all && died.crates == Without(disk.crates, gone)
    requires Occupied(died.retired) <= gone + Occupied(disk.retired)
    ensures Between(disk, all, died)
  {
  }

  class Cache {
    var crates: seq<Crate>
    var retired: seq<Retiree>

    /** Every state of the two directories that maintenance has left by a rename or a removal. */
    ghost var trail: seq<Disk>

    ghost function Now(): Disk
      reads this
    {
      Disk(crates, retired)
    }

    /** `retire`: out of the compiler's sight first, unlinked second. */
    method Retire(candidate: Candidate)
      requires retired == []
      modifies this
      ensures
        var key := (candidate.krate, candidate.session.name);
        var renamed := Disk(Without(old(crates), {key}), [Retiree(key.0, key.1, candidate.session.payload)]);
        && Now() == Disk(renamed.crates, []) && trail == old(trail) + [renamed, Now()]
    {
      crates := Without(crates, {(candidate.krate, candidate.session.name)});
      retired := [Retiree(candidate.krate, candidate.session.name, candidate.session.payload)];
      trail := trail + [Now()];
      retired := [];
      trail := trail + [Now()];
    }

    /** Removes what interrupted retirements have left. */
    method Recover() returns (recovered: nat)
      modifies this`retired, this`trail
      ensures retired == [] && recovered == |old(retired)|
      ensures old(trail) <= trail
      ensures forall i | |old(trail)| <= i < |trail| ::
                trail[i].crates == crates && Occupied(trail[i].retired) <= Occupied(old(retired))
    {
      recovered := 0;
      while retired != []
        invariant recovered + |retired| == |old(retired)| && crates == old(crates) && old(trail) <= trail
        invariant Occupied(retired) <= Occupied(old(retired))
        invariant forall i | |old(trail)| <= i < |trail| ::
            trail[i].crates == crates && Occupied(trail[i].retired) <= Occupied(old(retired))
      {
        retired := retired[1..];
        trail := trail + [Now()];
        recovered := recovered + 1;
      }
    }

    /** Recovers every interrupted retirement, then retires every candidate. */
    method Prune(candidates: seq<Candidate>) returns (recovered: nat, removed: nat)
      modifies this
      ensures Now() == Disk(Without(old(crates), Keys(candidates)), [])
      ensures recovered == |old(retired)| && removed == |candidates|
      ensures old(trail) <= trail
      ensures forall i | |old(trail)| <= i < |trail| :: Between(old(Now()), Keys(candidates), trail[i])
    {
      ghost var before := Now();
      removed := 0;
      WithoutNone(crates);
      recovered := Recover();
      forall i | |old(trail)| <= i < |trail|
        ensures Between(before, Keys(candidates), trail[i])
      {
        Leaves(before, Keys(candidates), {}, trail[i]);
      }
      assert candidates[..0] == [] && candidates[..|candidates|] == candidates;
      assert Keys(candidates[..0]) == {};
      hide Keys, Between, Without, Occupied;
      for i := 0 to |candidates|
        invariant Now() == Disk(Without(before.crates, Keys(candidates[..i])), []) && removed == i
        invariant recovered == |old(retired)| && old(trail) <= trail
        invariant forall i | |old(trail)| <= i < |trail| :: Between(before, Keys(candidates), trail[i])
      {
        WithoutTwice(before.crates, Keys(candidates[..i]), {(candidates[i].krate, candidates[i].session.name)});
        KeysNext(candidates, i);
        label Earlier:
        Retire(candidates[i]);
        removed := removed + 1;
        RetiredBetween(before, candidates, i, trail[|old@Earlier(trail)|], trail[|old@Earlier(trail)| + 1]);
      }
    }

    /**
     `maintain`: an audit changes nothing, a refused prune changes nothing, and a prune removes
     exactly the doomed sessions together with every interrupted retirement. Every state it passes
     through is one from which `CrashRecovers` says that the next prune recovers.
     */
    method Maintain(prune: bool, c: Conditions) returns (r: Result<Report, CacheError>)
      requires DistinctNames(crates)
      modifies this
      ensures DistinctNames(crates)
      ensures r.Success? <==> Doomed(c, old(crates)) !! Occupied(old(retired))
      ensures r.Failure? || !prune ==> crates == old(crates) && retired == old(retired)
      ensures r.Success? && prune ==> crates == Without(old(crates), Doomed(c, old(crates))) && retired == []
      ensures old(trail) <= trail && (r.Failure? || !prune ==> trail == old(trail))
      ensures forall i | |old(trail)| <= i < |trail| :: Between(old(Now()), Doomed(c, old(crates)), trail[i])
      ensures r.Success? ==>
                Reports(c, r.value, Inspected(c, old(crates), old(retired)), |old(retired)|,
                        Inspected(c, crates, retired), |retired|)
      ensures r.Success? ==>
                var before, after := Inspected(c, old(crates), old(retired)), Inspected(c, crates, retired);
                && r.value.sessionsBefore == before.sessions && r.value.bytesBefore == Sum(before.files)
                && r.value.sessionsAfter == after.sessions && r.value.bytesAfter == Sum(after.files)
                && r.value.protected == after.protected && r.value.unmeasured == after.unmeasured
                && r.value.retiredSessions == |old(retired)|
                && (r.value.budgetVerified <==>
                      && after.unmeasured == 0 && retired == []
                      && after.sessions <= c.policy.sessions && Sum(after.files) <= c.policy.bytes)
      ensures r.Success? && prune ==>
                && r.value.removed == r.value.redundant + r.value.abandoned + r.value.superseded
                && r.value.recovered == |old(retired)|
                && r.value.sessionsAfter == r.value.sessionsBefore - r.value.removed
    {
      PruneCounts(c, crates, retired);
      assert Occupied([]) == {};
      hide Inspected, DistinctNames, Doomed, Keys, Without, Occupied, Count;
      var inspected := Inspect(c, crates, retired);
      match inspected
      case Failure(error) => r := Failure(error);
      case Success(before) =>
      var retiredBefore := |retired|;
      if !prune {
        var audit := Summarize(c, before, retiredBefore, before, retiredBefore, 0, 0);
        return Success(audit);
      }
      var recovered, removed := Prune(before.candidates);
      var again := Inspect(c, crates, retired);
      match again
      case Failure(error) => return Failure(error);
      case Success(after) =>
      var report := Summarize(c, before, retiredBefore, after, |retired|, removed, recovered);
      r := Success(report);
    }
  }
}
