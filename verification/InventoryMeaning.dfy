/** What an inspection of the whole cache counts, said of every session one by one. */
module InventoryMeaning {
  import opened Wrappers
  import opened Inodes
  import opened IncrementalCache
  import opened CacheMeaning

  /** All sessions, those whose lease the inspection gets, and those a prune removes. */
  datatype Group = Every | Weighed | Removed

  /** The `i`-th session of the `k`-th crate belongs to the group. */
  ghost predicate In(g: Group, c: Conditions, crates: seq<Crate>, k: int, i: int) {
    && 0 <= k < |crates| && 0 <= i < |crates[k].sessions|
    && match g
       case Every => true
       case Weighed => c.lease(crates[k].name, crates[k].sessions[i].lock) == Granted && FirstOfLock(c, crates, k, i)
       case Removed => Disposable(c, crates, k, crates[k].sessions[i]) && FirstOfLock(c, crates, k, i)
  }

  ghost function Places(g: Group, c: Conditions, crates: seq<Crate>, k: nat): set<int>
    requires k < |crates|
  {
    set i | 0 <= i < |crates[k].sessions| && In(g, c, crates, k, i)
  }

  ghost function HowMany(g: Group, c: Conditions, crates: seq<Crate>, n: nat): nat
    requires n <= |crates|
  {
    if n == 0 then 0 else HowMany(g, c, crates, n - 1) + |Places(g, c, crates, n - 1)|
  }

  // ---------------------------------------------------------------- one crate

  ghost function Indices(sessions: seq<Session>, some: seq<Session>): set<int> {
    set i | 0 <= i < |sessions| && sessions[i] in some
  }

  lemma IndicesNext(init: seq<Session>, last: Session, some: seq<Session>, taken: bool)
    requires last !in init && last !in some
    ensures |Indices(init + [last], if taken then some + [last] else some)| ==
            |Indices(init, some)| + if taken then 1 else 0
  {
    var more, all := init + [last], if taken then some + [last] else some;
    forall i: int
      ensures i in Indices(more, all) <==> i in Indices(init, some) || (taken && i == |init|)
    {
      assert 0 <= i < |init| ==> more[i] == init[i] && init[i] in init;
    }
    assert |init| !in Indices(init, some);
    var before := Indices(init, some);
    hide Indices;
    assert Indices(more, all) == if taken then before + {|init|} else before;
  }

  lemma NotBefore(init: seq<Session>, last: Session)
    requires DistinctSessions(init + [last])
    ensures last !in init && DistinctSessions(init)
  {
    var sessions := init + [last];
    assert sessions[|init|] == last;
    forall j | 0 <= j < |init|
      ensures init[j] == sessions[j] && init[j].name != last.name
    {
    }
  }

  /** Among distinct sessions a choice is as long as its places are many. */
  lemma {:induction false} ChoiceCounts(v: View, sessions: seq<Session>)
    requires DistinctSessions(sessions)
    ensures |Chosen(v, sessions)| == |Indices(sessions, Chosen(v, sessions))|
    ensures |Measured(v, sessions)| == |Indices(sessions, Measured(v, sessions))|
    ensures |sessions| == |Indices(sessions, sessions)|
  {
    if sessions == [] {
      assert Indices([], []) == {};
    } else {
      var init, last := sessions[..|sessions| - 1], sessions[|sessions| - 1];
      assert sessions == init + [last];
      NotBefore(init, last);
      ChoiceCounts(v, init);
      NotAmong(v, init, last);
      ChosenLast(v, init, last);
      MeasuredLast(v, init, last);
      hide Indices, Chosen, Measured, Locks;
      IndicesNext(init, last, init, true);
      IndicesNext(init, last, Chosen(v, init), v.Wants(last) && last.lock !in Locks(Chosen(v, init)));
      IndicesNext(init, last, Measured(v, init), v.Leases(last) && last.lock !in Locks(Chosen(v, init)));
    }
  }

  lemma CrateCounts(c: Conditions, crates: seq<Crate>, k: nat)
    requires DistinctNames(crates) && k < |crates|
    ensures
      var v, sessions := ViewOf(c, crates, k), crates[k].sessions;
      && |sessions| == |Places(Every, c, crates, k)|
      && |Measured(v, sessions)| == |Places(Weighed, c, crates, k)|
      && |Chosen(v, sessions)| == |Places(Removed, c, crates, k)|
  {
    var v, sessions := ViewOf(c, crates, k), crates[k].sessions;
    ChoiceCounts(v, sessions);
    forall i: nat | i < |sessions|
      ensures In(Weighed, c, crates, k, i) <==> sessions[i] in Measured(v, sessions)
      ensures In(Removed, c, crates, k, i) <==> sessions[i] in Chosen(v, sessions)
    {
      PlaceIs(c, crates, k, i);
    }
    assert Places(Every, c, crates, k) == Indices(sessions, sessions);
    hide In, Chosen, Measured, ViewOf;
    assert Places(Weighed, c, crates, k) == Indices(sessions, Measured(v, sessions));
    assert Places(Removed, c, crates, k) == Indices(sessions, Chosen(v, sessions));
  }

  lemma PlaceIs(c: Conditions, crates: seq<Crate>, k: nat, i: nat)
    requires DistinctNames(crates) && k < |crates| && i < |crates[k].sessions|
    ensures In(Weighed, c, crates, k, i) <==>
            crates[k].sessions[i] in Measured(ViewOf(c, crates, k), crates[k].sessions)
    ensures In(Removed, c, crates, k, i) <==>
            crates[k].sessions[i] in Chosen(ViewOf(c, crates, k), crates[k].sessions)
  {
    hide Disposable, FirstOfLock, Chosen, Measured, ViewOf, Locks;
    var v, sessions := ViewOf(c, crates, k), crates[k].sessions;
    DoomedExactly(c, crates, k, i);
    ChosenExactly(v, sessions, i);
    LockFree(c, crates, k, i);
    WantedExactly(c, crates, k, sessions[i]);
  }

  // ---------------------------------------------------------------- the whole cache

  /** Some session that was leased has the inode. */
  ghost predicate WeighedIn(c: Conditions, crates: seq<Crate>, k: int, inode: Inode) {
    exists i :: In(Weighed, c, crates, k, i) && inode in crates[k].sessions[i].payload
  }

  /** An inode is counted exactly if it belongs to an interrupted retirement or to a session that was leased. */
  ghost predicate Counted(c: Conditions, crates: seq<Crate>, n: nat, retired: seq<Retiree>, inode: Inode)
    requires n <= |crates|
  {
    || (exists r :: r in retired && inode in r.payload)
    || exists k :: 0 <= k < n && WeighedIn(c, crates, k, inode)
  }

  lemma {:induction false} RetiredFilesMean(retired: seq<Retiree>, inode: Inode)
    ensures inode in RetiredFiles(retired) <==> exists r :: r in retired && inode in r.payload
  {
    if retired != [] {
      var init, last := retired[..|retired| - 1], retired[|retired| - 1];
      assert retired == init + [last];
      RetiredFilesMean(init, inode);
    }
  }

  lemma {:induction false} PayloadsMean(sessions: seq<Session>, inode: Inode)
    ensures inode in Payloads(sessions) <==> exists s :: s in sessions && inode in s.payload
  {
    if sessions != [] {
      var init, last := sessions[..|sessions| - 1], sessions[|sessions| - 1];
      assert sessions == init + [last];
      PayloadsMean(init, inode);
    }
  }

  lemma WeighedHere(c: Conditions, crates: seq<Crate>, k: nat, inode: Inode)
    requires DistinctNames(crates) && k < |crates|
    ensures WeighedIn(c, crates, k, inode) <==>
            inode in Payloads(Measured(ViewOf(c, crates, k), crates[k].sessions))
  {
    var v, sessions := ViewOf(c, crates, k), crates[k].sessions;
    var measured := Measured(v, sessions);
    PayloadsMean(measured, inode);
    ChosenAreMeasured(v, sessions);
    forall i: nat | i < |sessions|
      ensures In(Weighed, c, crates, k, i) <==> sessions[i] in measured
    {
      PlaceIs(c, crates, k, i);
    }
    hide Measured, ViewOf, Payloads, DistinctNames;
    if inode in Payloads(measured) {
      var s :| s in measured && inode in s.payload;
      var i :| 0 <= i < |sessions| && sessions[i] == s;
      assert In(Weighed, c, crates, k, i);
    }
    if WeighedIn(c, crates, k, inode) {
      var i :| In(Weighed, c, crates, k, i) && inode in sessions[i].payload;
      assert sessions[i] in measured;
    }
  }

  lemma CountedNext(c: Conditions, crates: seq<Crate>, n: nat, retired: seq<Retiree>, inode: Inode)
    requires n < |crates|
    ensures Counted(c, crates, n + 1, retired, inode) <==>
            Counted(c, crates, n, retired, inode) || WeighedIn(c, crates, n, inode)
  {
    hide WeighedIn;
  }

  /** Over the first `n` crates. */
  ghost predicate Counts(c: Conditions, crates: seq<Crate>, n: nat, t: Tally)
    requires n <= |crates|
  {
    var every, removed := HowMany(Every, c, crates, n), HowMany(Removed, c, crates, n);
    && t.sessions == every && |t.candidates| == removed && t.protected == every - removed
    && t.unmeasured == every - HowMany(Weighed, c, crates, n)
  }

  ghost predicate Weighs(c: Conditions, crates: seq<Crate>, n: nat, retired: seq<Retiree>, files: map<Inode, nat>)
    requires n <= |crates|
  {
    forall inode :: inode in files <==> Counted(c, crates, n, retired, inode)
  }

  lemma CountsNext(c: Conditions, crates: seq<Crate>, n: nat, t: Tally)
    requires DistinctNames(crates) && n < |crates| && Counts(c, crates, n, t)
    ensures Counts(c, crates, n + 1, CrateTally(ViewOf(c, crates, n), t, crates[n].sessions))
  {
    CrateCounts(c, crates, n);
    hide Places, Measured, Chosen, ViewOf, DistinctNames, Payloads, Tagged;
  }

  lemma WeighsNext(c: Conditions, crates: seq<Crate>, n: nat, retired: seq<Retiree>, t: Tally)
    requires DistinctNames(crates) && n < |crates| && Weighs(c, crates, n, retired, t.files)
    ensures Weighs(c, crates, n + 1, retired, CrateTally(ViewOf(c, crates, n), t, crates[n].sessions).files)
  {
    var payloads := Payloads(Measured(ViewOf(c, crates, n), crates[n].sessions));
    forall inode
      ensures Counted(c, crates, n + 1, retired, inode) <==> Counted(c, crates, n, retired, inode) || inode in payloads
    {
      CountedNext(c, crates, n, retired, inode);
      WeighedHere(c, crates, n, inode);
    }
    hide Counted, Measured, Chosen, ViewOf, DistinctNames, Payloads, Tagged;
  }

  lemma NothingYet(c: Conditions, crates: seq<Crate>, retired: seq<Retiree>)
    ensures Counts(c, crates, 0, Tally(0, 0, 0, RetiredFiles(retired), []))
    ensures Weighs(c, crates, 0, retired, RetiredFiles(retired))
  {
    forall inode
      ensures inode in RetiredFiles(retired) <==> Counted(c, crates, 0, retired, inode)
    {
      RetiredFilesMean(retired, inode);
    }
  }

  lemma {:induction false} TalliesUpTo(c: Conditions, crates: seq<Crate>, n: nat, retired: seq<Retiree>)
    requires DistinctNames(crates) && n <= |crates|
    ensures
      var t := CacheTally(c, Tally(0, 0, 0, RetiredFiles(retired), []), crates, n);
      Counts(c, crates, n, t) && Weighs(c, crates, n, retired, t.files)
  {
    hide Counts, Weighs, CrateTally, ViewOf, RetiredFiles, DistinctNames;
    NothingYet(c, crates, retired);
    if n > 0 {
      TalliesUpTo(c, crates, n - 1, retired);
      var t := CacheTally(c, Tally(0, 0, 0, RetiredFiles(retired), []), crates, n - 1);
      CountsNext(c, crates, n - 1, t);
      WeighsNext(c, crates, n - 1, retired, t);
    }
  }

  /**
   What an inspection counts: every session once, as one a prune removes or as protected; as unmeasured
   those whose lease it does not get; and the inodes of interrupted retirements and of leased sessions.
   */
  lemma InspectedExactly(c: Conditions, crates: seq<Crate>, retired: seq<Retiree>)
    requires DistinctNames(crates)
    ensures Counts(c, crates, |crates|, Inspected(c, crates, retired))
    ensures Weighs(c, crates, |crates|, retired, Inspected(c, crates, retired).files)
  {
    TalliesUpTo(c, crates, |crates|, retired);
    hide Counts, Weighs, CacheTally;
  }
}
