/** Retention of support-tool generations: oldest first, and only until the budgets are met. */
module SupportCache {
  import opened Wrappers
  import opened Sequences
  import opened Orders
  import opened Inodes

  /** A generation directory; `recovering` marks the residue of an interrupted retirement. */
  datatype Generation = Generation(key: string, entries: nat, inodes: map<Inode, nat>, modified: int, recovering: bool)

  datatype Policy = Policy(bytes: nat, entries: nat, generations: nat, maximumAge: nat, grace: nat)

  datatype Totals = Totals(bytes: nat, entries: nat)

  datatype CacheError = EntryOverflow | ByteOverflow

  const U64_MAX := 0xFFFF_FFFF_FFFF_FFFF
  const USIZE_MAX := 0xFFFF_FFFF_FFFF_FFFF

  ghost predicate DistinctKeys(generations: seq<Generation>) {
    forall i, j | 0 <= i < j < |generations| :: generations[i].key != generations[j].key
  }

  /** One inode has one size, wherever it is met. */
  ghost predicate OneSizeEach(generations: seq<Generation>) {
    forall a, b, inode | a in generations && b in generations && inode in a.inodes && inode in b.inodes ::
      a.inodes[inode] == b.inodes[inode]
  }

  // ---------------------------------------------------------------- totals

  /** The generations that are not retired. */
  function Kept(generations: seq<Generation>, retired: set<string>): seq<Generation> {
    if generations == [] then []
    else
      var init, last := generations[..|generations| - 1], generations[|generations| - 1];
      if last.key in retired then Kept(init, retired) else Kept(init, retired) + [last]
  }

  ghost function Entries(generations: seq<Generation>): nat {
    if generations == [] then 0
    else Entries(generations[..|generations| - 1]) + generations[|generations| - 1].entries
  }

  ghost function Files(generations: seq<Generation>): map<Inode, nat> {
    if generations == [] then map[]
    else Files(generations[..|generations| - 1]) + generations[|generations| - 1].inodes
  }

  ghost function TotalsOf(generations: seq<Generation>, retired: set<string>): Result<Totals, CacheError> {
    var kept := Kept(generations, retired);
    if Entries(kept) > USIZE_MAX then Failure(EntryOverflow)
    else if Sum(Files(kept)) > U64_MAX then Failure(ByteOverflow)
    else Success(Totals(Sum(Files(kept)), Entries(kept)))
  }

  lemma {:induction false} EntriesGrow(generations: seq<Generation>, n: nat)
    requires n <= |generations|
    ensures Entries(generations[..n]) <= Entries(generations)
  {
    if n < |generations| {
      EntriesGrow(generations[..|generations| - 1], n);
      assert generations[..|generations| - 1][..n] == generations[..n];
    } else {
      assert generations[..n] == generations;
    }
  }

  lemma {:induction false} KeptGrow(generations: seq<Generation>, retired: set<string>, n: nat)
    requires n <= |generations|
    ensures Kept(generations[..n], retired) <= Kept(generations, retired)
  {
    if n < |generations| {
      KeptGrow(generations[..|generations| - 1], retired, n);
      assert generations[..|generations| - 1][..n] == generations[..n];
    } else {
      assert generations[..n] == generations;
    }
  }

  lemma LastOf<T>(init: seq<T>, last: T)
    ensures (init + [last])[..|init + [last]| - 1] == init
  {
  }

  /** The checked additions over the inode map: they overflow exactly if the sum is out of range. */
  method AddBytes(files: map<Inode, nat>) returns (total: Option<nat>)
    ensures total == if Sum(files) <= U64_MAX then Some(Sum(files)) else None
  {
    var sum := 0;
    var pending := files;
    while pending.Keys != {}
      invariant sum + Sum(pending) == Sum(files) && sum <= U64_MAX
      decreases |pending|
    {
      var inode :| inode in pending;
      SumWithout(pending, inode);
      if sum + pending[inode] > U64_MAX {
        return None;
      }
      sum := sum + pending[inode];
      pending := pending - {inode};
    }
    total := Some(sum);
  }

  /** One more generation in the loop of `totals`. */
  lemma TotalsNext(generations: seq<Generation>, retired: set<string>, i: nat)
    requires i < |generations|
    ensures
      var before, after, entry := Kept(generations[..i], retired), Kept(generations[..i + 1], retired), generations[i];
      if entry.key in retired then after == before
      else Entries(after) == Entries(before) + entry.entries && Files(after) == Files(before) + entry.inodes
  {
    assert generations[..i + 1][..i] == generations[..i];
    LastOf(Kept(generations[..i], retired), generations[i]);
  }

  lemma EntriesOfPrefix(generations: seq<Generation>, retired: set<string>, i: nat)
    requires i <= |generations|
    ensures Entries(Kept(generations[..i], retired)) <= Entries(Kept(generations, retired))
  {
    var reached, all := Kept(generations[..i], retired), Kept(generations, retired);
    KeptGrow(generations, retired, i);
    hide Kept, Entries;
    EntriesGrow(all, |reached|);
    assert all[..|reached|] == reached;
  }

  /** `totals`: every path, every inode once, of what is not retired. */
  method ComputeTotals(generations: seq<Generation>, retired: set<string>) returns (r: Result<Totals, CacheError>)
    ensures r == TotalsOf(generations, retired)
  {
    var paths := 0;
    var inodes: map<Inode, nat> := map[];
    assert generations[..0] == [] && generations[..|generations|] == generations;
    assert Entries(Kept(generations[..0], retired)) == 0 && Files(Kept(generations[..0], retired)) == map[];
    hide Kept, Entries, Files, Sum;
    for i := 0 to |generations|
      invariant paths == Entries(Kept(generations[..i], retired)) <= USIZE_MAX
      invariant inodes == Files(Kept(generations[..i], retired))
    {
      var entry := generations[i];
      TotalsNext(generations, retired, i);
      if entry.key !in retired {
        if paths + entry.entries > USIZE_MAX {
          EntriesOfPrefix(generations, retired, i + 1);
          return Failure(EntryOverflow);
        }
        paths := paths + entry.entries;
        inodes := inodes + entry.inodes;
      }
    }
    var bytes := AddBytes(inodes);
    r := if bytes.None? then Failure(ByteOverflow) else Success(Totals(bytes.value, paths));
  }

  lemma {:induction false} KeptElements(generations: seq<Generation>, retired: set<string>)
    ensures forall g :: g in Kept(generations, retired) <==> g in generations && g.key !in retired
  {
    if generations != [] {
      var init, last := generations[..|generations| - 1], generations[|generations| - 1];
      assert generations == init + [last];
      KeptElements(init, retired);
    }
  }

  lemma {:induction false} FilesMean(generations: seq<Generation>)
    ensures forall inode :: inode in Files(generations) <==> exists g :: g in generations && inode in g.inodes
    ensures OneSizeEach(generations) ==>
              forall g, inode | g in generations && inode in g.inodes :: Files(generations)[inode] == g.inodes[inode]
  {
    if generations != [] {
      var init, last := generations[..|generations| - 1], generations[|generations| - 1];
      assert generations == init + [last];
      FilesMean(init);
      forall inode
        ensures inode in Files(generations) <==> exists g :: g in generations && inode in g.inodes
      {
        if inode in Files(init) {
          var g :| g in init && inode in g.inodes;
          assert g in generations;
        }
        assert last in generations;
        if g :| g in generations && inode in g.inodes {
          assert g in init || g == last;
        }
      }
      if OneSizeEach(generations) {
        assert OneSizeEach(init);
      }
    }
  }

  lemma {:induction false} EntriesFall(generations: seq<Generation>, few: set<string>, many: set<string>)
    requires few <= many
    ensures Entries(Kept(generations, many)) <= Entries(Kept(generations, few))
  {
    if generations != [] {
      var init, last := generations[..|generations| - 1], generations[|generations| - 1];
      EntriesFall(init, few, many);
      LastOf(Kept(init, many), last);
      LastOf(Kept(init, few), last);
    }
  }

  /** Retiring more never raises a total, given one size per inode. */
  lemma TotalsFall(generations: seq<Generation>, few: set<string>, many: set<string>)
    requires OneSizeEach(generations) && few <= many
    ensures Entries(Kept(generations, many)) <= Entries(Kept(generations, few))
    ensures Sum(Files(Kept(generations, many))) <= Sum(Files(Kept(generations, few)))
    ensures TotalsOf(generations, few).Success? ==> TotalsOf(generations, many).Success?
  {
    EntriesFall(generations, few, many);
    FilesFall(generations, few, many);
    hide Kept, Files, Sum, Entries;
    SumMonotone(Files(Kept(generations, many)), Files(Kept(generations, few)));
  }

  lemma FilesFall(generations: seq<Generation>, few: set<string>, many: set<string>)
    requires OneSizeEach(generations) && few <= many
    ensures forall inode | inode in Files(Kept(generations, many)) ::
              && inode in Files(Kept(generations, few))
              && Files(Kept(generations, few))[inode] == Files(Kept(generations, many))[inode]
  {
    KeptElements(generations, few);
    KeptElements(generations, many);
    FilesMean(Kept(generations, few));
    FilesMean(Kept(generations, many));
    hide Kept, Files;
    assert OneSizeEach(Kept(generations, few)) && OneSizeEach(Kept(generations, many));
    forall inode | inode in Files(Kept(generations, many))
      ensures inode in Files(Kept(generations, few))
      ensures Files(Kept(generations, few))[inode] == Files(Kept(generations, many))[inode]
    {
      var g :| g in Kept(generations, many) && inode in g.inodes;
      assert g in Kept(generations, few);
    }
  }

  // ---------------------------------------------------------------- the plan

  predicate Aged(now: int, modified: int, age: nat) {
    now - modified >= age
  }

  /** Neither current nor, by its last modification, within the grace period. */
  predicate Eligible(g: Generation, current: string, policy: Policy, now: int) {
    g.key != current && Aged(now, g.modified, policy.grace)
  }

  function Candidates(generations: seq<Generation>, current: string, policy: Policy, now: int): seq<Generation> {
    if generations == [] then []
    else
      var init, last := generations[..|generations| - 1], generations[|generations| - 1];
      if Eligible(last, current, policy, now) then Candidates(init, current, policy, now) + [last]
      else Candidates(init, current, policy, now)
  }

  /** Oldest first, by key among equals. */
  predicate ByAge(a: Generation, b: Generation) {
    CompareInt(a.modified, b.modified).Then(CompareText(a.key, b.key)) != Greater
  }

  predicate Legacy(key: string) {
    "legacy-" <= key
  }

  predicate Expired(g: Generation, policy: Policy, now: int) {
    Aged(now, g.modified, policy.maximumAge)
  }

  /** Some budget is exceeded while this many generations with these totals remain. */
  predicate Over(totals: Totals, remaining: int, policy: Policy) {
    totals.bytes > policy.bytes || totals.entries > policy.entries || remaining > policy.generations
  }

  /** The greedy plan over the first `n` candidates. */
  ghost function Planned(generations: seq<Generation>, ordered: seq<Generation>, policy: Policy, now: int, n: nat)
    : Result<set<string>, CacheError>
    requires n <= |ordered|
  {
    if n == 0 then Success({})
    else
      match Planned(generations, ordered, policy, now, n - 1)
      case Failure(error) => Failure(error)
      case Success(retired) =>
        match TotalsOf(generations, retired)
        case Failure(error) => Failure(error)
        case Success(totals) =>
          var entry := ordered[n - 1];
          if Legacy(entry.key) || Expired(entry, policy, now) || Over(totals, |generations| - |retired|, policy)
          then Success(retired + {entry.key}) else Success(retired)
  }

  lemma {:induction false} CandidatesMean(generations: seq<Generation>, current: string, policy: Policy, now: int)
    requires DistinctKeys(generations)
    ensures forall g :: g in Candidates(generations, current, policy, now) <==>
                        g in generations && Eligible(g, current, policy, now)
    ensures Distinct(Candidates(generations, current, policy, now))
  {
    if generations != [] {
      var init, last := generations[..|generations| - 1], generations[|generations| - 1];
      assert generations == init + [last];
      CandidatesMean(init, current, policy, now);
      assert forall g | g in init :: g.key != last.key;
    }
  }

  lemma KeysIdentify(generations: seq<Generation>, a: Generation, b: Generation)
    requires DistinctKeys(generations) && a in generations && b in generations && a.key == b.key
    ensures a == b
  {
  }

  /** Oldest first is a total order on generations with distinct keys. */
  lemma ByAgeTotal(generations: seq<Generation>)
    requires DistinctKeys(generations)
    ensures TotalOn(ByAge, Elements(generations))
  {
    forall a, b | a in Elements(generations) && b in Elements(generations)
      ensures ByAge(a, b) || ByAge(b, a)
      ensures ByAge(a, b) && ByAge(b, a) ==> a == b
    {
      CompareTextLaws(a.key, b.key);
      if a.key == b.key {
        KeysIdentify(generations, a, b);
      }
    }
    forall a, b, c | a in Elements(generations) && b in Elements(generations) && c in Elements(generations) &&
                     ByAge(a, b) && ByAge(b, c)
      ensures ByAge(a, c)
    {
      if a.modified == b.modified == c.modified {
        CompareTextTransitive(a.key, b.key, c.key);
      }
    }
  }

  /** The order in which the plan considers candidates. */
  ghost function Ordered(generations: seq<Generation>, current: string, policy: Policy, now: int): seq<Generation>
    requires DistinctKeys(generations)
  {
    OrderedTotal(generations, current, policy, now);
    Arranged(ByAge, Elements(Candidates(generations, current, policy, now)))
  }

  lemma OrderedTotal(generations: seq<Generation>, current: string, policy: Policy, now: int)
    requires DistinctKeys(generations)
    ensures TotalOn(ByAge, Elements(Candidates(generations, current, policy, now)))
    ensures Distinct(Candidates(generations, current, policy, now))
  {
    ByAgeTotal(generations);
    CandidatesMean(generations, current, policy, now);
    TotalSubset(ByAge, Elements(generations), Elements(Candidates(generations, current, policy, now)));
  }

  ghost function PlanOf(generations: seq<Generation>, current: string, policy: Policy, now: int)
    : Result<set<string>, CacheError>
    requires DistinctKeys(generations)
  {
    var ordered := Ordered(generations, current, policy, now);
    Planned(generations, ordered, policy, now, |ordered|)
  }

  lemma {:induction false} PlannedFailureStays(generations: seq<Generation>, ordered: seq<Generation>, policy: Policy,
        now: int, i: nat, n: nat)
    requires i <= n <= |ordered| && Planned(generations, ordered, policy, now, i).Failure?
    ensures Planned(generations, ordered, policy, now, n) == Planned(generations, ordered, policy, now, i)
  {
    if i < n {
      PlannedFailureStays(generations, ordered, policy, now, i, n - 1);
    }
  }

  /** `plan`. */
  method Plan(generations: seq<Generation>, current: string, policy: Policy, now: int)
    returns (r: Result<set<string>, CacheError>)
    requires DistinctKeys(generations)
    ensures r == PlanOf(generations, current, policy, now)
  {
    OrderedTotal(generations, current, policy, now);
    var ordered := Sort(Candidates(generations, current, policy, now), ByAge);
    var retired: set<string> := {};
    for i := 0 to |ordered|
      invariant Planned(generations, ordered, policy, now, i) == Success(retired)
    {
      var entry := ordered[i];
      var computed := ComputeTotals(generations, retired);
      match computed {
        case Failure(error) =>
          PlannedFailureStays(generations, ordered, policy, now, i + 1, |ordered|);
          return Failure(error);
        case Success(totals) =>
          if Legacy(entry.key) || Expired(entry, policy, now) || Over(totals, |generations| - |retired|, policy) {
            retired := retired + {entry.key};
          }
      }
    }
    r := Success(retired);
  }

  // ---------------------------------------------------------------- what a plan guarantees

  ghost function KeySet(generations: seq<Generation>): set<string> {
    set g | g in generations :: g.key
  }

  /** Whatever is planned is a considered candidate, and a longer consideration only plans more. */
  lemma {:induction false} PlannedGrows(generations: seq<Generation>, ordered: seq<Generation>, policy: Policy,
        now: int, i: nat, n: nat)
    requires i <= n <= |ordered| && Planned(generations, ordered, policy, now, n).Success?
    ensures Planned(generations, ordered, policy, now, i).Success?
    ensures Planned(generations, ordered, policy, now, i).value <= Planned(generations, ordered, policy, now, n).value
    ensures forall key | key in Planned(generations, ordered, policy, now, n).value ::
              key in Planned(generations, ordered, policy, now, i).value || exists j ::
                  i <= j < n && ordered[j].key == key
  {
    if i < n {
      PlannedGrows(generations, ordered, policy, now, i, n - 1);
    }
  }

  /** Why a candidate is retired at its turn. */
  ghost predicate Takes(generations: seq<Generation>, retired: set<string>, g: Generation, policy: Policy, now: int) {
    && TotalsOf(generations, retired).Success?
    && (Legacy(g.key) || Expired(g, policy, now) ||
        Over(TotalsOf(generations, retired).value, |generations| - |retired|, policy))
  }

  lemma PlannedTurn(generations: seq<Generation>, ordered: seq<Generation>, policy: Policy, now: int, i: nat)
    requires i < |ordered| && Planned(generations, ordered, policy, now, i + 1).Success?
    ensures
      var before, after := Planned(generations, ordered, policy, now, i),
          Planned(generations, ordered, policy, now, i + 1);
      && before.Success? && TotalsOf(generations, before.value).Success?
      && after.value == before.value +
                        if Takes(generations, before.value, ordered[i], policy, now) then {ordered[i].key} else {}
  {
  }

  lemma PlannedEarlier(generations: seq<Generation>, ordered: seq<Generation>, policy: Policy, now: int, n: nat)
    requires n <= |ordered| && Planned(generations, ordered, policy, now, n).Success?
    ensures forall key | key in Planned(generations, ordered, policy, now, n).value ::
              exists j :: 0 <= j < n && ordered[j].key == key
  {
    PlannedGrows(generations, ordered, policy, now, 0, n);
  }

  /** A candidate's fate is decided at its turn. */
  lemma DecidedAtTurn(generations: seq<Generation>, ordered: seq<Generation>, policy: Policy, now: int, i: nat)
    requires i < |ordered| && Planned(generations, ordered, policy, now, |ordered|).Success?
    requires DistinctKeys(ordered)
    ensures
      var before, all := Planned(generations, ordered, policy, now, i),
          Planned(generations, ordered, policy, now, |ordered|);
      && before.Success? && before.value <= all.value && TotalsOf(generations, before.value).Success?
      && (ordered[i].key in all.value <==> Takes(generations, before.value, ordered[i], policy, now))
  {
    hide Planned, Takes, TotalsOf;
    PlannedGrows(generations, ordered, policy, now, i, |ordered|);
    PlannedGrows(generations, ordered, policy, now, i + 1, |ordered|);
    PlannedTurn(generations, ordered, policy, now, i);
    PlannedEarlier(generations, ordered, policy, now, i);
  }

  lemma OverFalls(generations: seq<Generation>, few: set<string>, many: set<string>, policy: Policy)
    requires OneSizeEach(generations) && few <= many
    requires TotalsOf(generations, few).Success?
    ensures TotalsOf(generations, many).Success?
    ensures Over(TotalsOf(generations, many).value, |generations| - |many|, policy) ==>
              Over(TotalsOf(generations, few).value, |generations| - |few|, policy)
  {
    TotalsFall(generations, few, many);
    assert |many| == |few| + |many - few|;
  }

  /** Within every budget once these keys are retired. */
  ghost predicate Settled(generations: seq<Generation>, retired: set<string>, policy: Policy) {
    && TotalsOf(generations, retired).Success?
    && !Over(TotalsOf(generations, retired).value, |generations| - |retired|, policy)
  }

  lemma OrderedMeans(generations: seq<Generation>, current: string, policy: Policy, now: int)
    requires DistinctKeys(generations)
    ensures DistinctKeys(Ordered(generations, current, policy, now))
    ensures Ascending(ByAge, Ordered(generations, current, policy, now))
    ensures forall g :: g in Ordered(generations, current, policy, now) <==>
                        g in generations && Eligible(g, current, policy, now)
  {
    OrderedTotal(generations, current, policy, now);
    CandidatesMean(generations, current, policy, now);
    var ordered := Ordered(generations, current, policy, now);
    forall i, j | 0 <= i < j < |ordered|
      ensures ordered[i].key != ordered[j].key
    {
      assert ordered[i] in ordered && ordered[j] in ordered;
      if ordered[i].key == ordered[j].key {
        KeysIdentify(generations, ordered[i], ordered[j]);
      }
    }
  }

  /** The plan, told over its order of consideration. */
  lemma PlanInOrder(generations: seq<Generation>, current: string, policy: Policy, now: int, g: Generation)
    returns (before: set<string>, i: nat)
    requires DistinctKeys(generations) && PlanOf(generations, current, policy, now).Success?
    requires g in generations && Eligible(g, current, policy, now)
    ensures i < |Ordered(generations, current, policy, now)| && Ordered(generations, current, policy, now)[i] == g
    ensures Planned(generations, Ordered(generations, current, policy, now), policy, now, i) == Success(before)
    ensures before <= PlanOf(generations, current, policy, now).value && TotalsOf(generations, before).Success?
    ensures g.key in PlanOf(generations, current, policy, now).value <==> Takes(generations, before, g, policy, now)
  {
    var ordered := Ordered(generations, current, policy, now);
    OrderedMeans(generations, current, policy, now);
    hide Ordered, Planned, TotalsOf, Takes;
    assert g in ordered;
    i :| 0 <= i < |ordered| && ordered[i] == g;
    DecidedAtTurn(generations, ordered, policy, now, i);
    before := Planned(generations, ordered, policy, now, i).value;
  }

  /** The current generation and those in the grace period are never planned. */
  lemma PlanSpares(generations: seq<Generation>, current: string, policy: Policy, now: int, key: string)
    requires DistinctKeys(generations) && PlanOf(generations, current, policy, now).Success?
    requires key in PlanOf(generations, current, policy, now).value
    ensures key != current && exists g :: g in generations && g.key == key && Aged(now, g.modified, policy.grace)
  {
    var ordered := Ordered(generations, current, policy, now);
    OrderedMeans(generations, current, policy, now);
    PlannedEarlier(generations, ordered, policy, now, |ordered|);
    hide Ordered, Planned;
    var j :| 0 <= j < |ordered| && ordered[j].key == key;
    assert ordered[j] in ordered;
  }

  /** Every legacy or expired candidate is planned. */
  lemma PlanTakesExpired(generations: seq<Generation>, current: string, policy: Policy, now: int, g: Generation)
    requires DistinctKeys(generations) && PlanOf(generations, current, policy, now).Success?
    requires g in generations && Eligible(g, current, policy, now)
    requires Legacy(g.key) || Expired(g, policy, now)
    ensures g.key in PlanOf(generations, current, policy, now).value
  {
    var before, i := PlanInOrder(generations, current, policy, now, g);
  }

  /** The plan ends within all three budgets or with every candidate retired. */
  lemma PlanSettles(generations: seq<Generation>, current: string, policy: Policy, now: int)
    requires DistinctKeys(generations) && OneSizeEach(generations) && PlanOf(generations, current, policy, now).Success?
    ensures var retired := PlanOf(generations, current, policy, now).value;
            || Settled(generations, retired, policy)
            || forall g | g in generations && Eligible(g, current, policy, now) :: g.key in retired
  {
    hide PlanOf, Eligible, TotalsOf, Over;
    var retired := PlanOf(generations, current, policy, now).value;
    if g :| g in generations && Eligible(g, current, policy, now) && g.key !in retired {
      var before, i := PlanInOrder(generations, current, policy, now, g);
      OverFalls(generations, before, retired, policy);
    }
  }

  /** Among candidates that are not legacy, retirements go oldest first without gaps. */
  lemma PlanIsPrefix(generations: seq<Generation>, current: string, policy: Policy, now: int, older: Generation,
        younger: Generation)
    requires DistinctKeys(generations) && OneSizeEach(generations) && PlanOf(generations, current, policy, now).Success?
    requires older in generations && Eligible(older, current, policy, now)
    requires younger in generations && Eligible(younger, current, policy, now) && ByAge(older, younger)
    requires !Legacy(younger.key) && younger.key in PlanOf(generations, current, policy, now).value
    ensures older.key in PlanOf(generations, current, policy, now).value
  {
    var before, i := PlanInOrder(generations, current, policy, now, older);
    var later, j := PlanInOrder(generations, current, policy, now, younger);
    TurnsByAge(generations, current, policy, now, i, j);
    assert Expired(younger, policy, now) ==> Expired(older, policy, now);
    if i < j {
      PlannedGrows(generations, Ordered(generations, current, policy, now), policy, now, i, j);
      hide Ordered, Planned, TotalsOf, Over, PlanOf, Eligible, Legacy, Expired;
      OverFalls(generations, before, later, policy);
    }
  }

  lemma TurnsByAge(generations: seq<Generation>, current: string, policy: Policy, now: int, i: nat, j: nat)
    requires DistinctKeys(generations)
    requires i < |Ordered(generations, current, policy, now)| && j < |Ordered(generations, current, policy, now)|
    requires ByAge(Ordered(generations, current, policy, now)[i], Ordered(generations, current, policy, now)[j])
    ensures i <= j
  {
    var ordered := Ordered(generations, current, policy, now);
    OrderedMeans(generations, current, policy, now);
    ByAgeTotal(generations);
    hide Ordered, ByAge;
    assert ordered[i] in ordered && ordered[j] in ordered;
    assert ordered[i] in Elements(generations) && ordered[j] in Elements(generations);
  }

  /** A candidate that is neither legacy nor expired goes only while some budget is exceeded. */
  lemma PlanIsFrugal(generations: seq<Generation>, current: string, policy: Policy, now: int, g: Generation)
    requires DistinctKeys(generations) && OneSizeEach(generations) && PlanOf(generations, current, policy, now).Success?
    requires g in generations && Eligible(g, current, policy, now)
    requires !Legacy(g.key) && !Expired(g, policy, now) && g.key in PlanOf(generations, current, policy, now).value
    ensures exists before :: before <= PlanOf(generations, current, policy, now).value && g.key !in before &&
                             !Settled(generations, before, policy) &&
                             forall key | key in before :: exists h :: h in generations && h.key == key && ByAge(h, g)
  {
    var ordered := Ordered(generations, current, policy, now);
    var before, i := PlanInOrder(generations, current, policy, now, g);
    OrderedMeans(generations, current, policy, now);
    PlannedEarlier(generations, ordered, policy, now, i);
    hide Ordered, ByAge, Planned, TotalsOf, PlanOf;
    forall key | key in before
      ensures key != g.key && exists h :: h in generations && h.key == key && ByAge(h, g)
    {
      var j :| 0 <= j < i && ordered[j].key == key;
      assert ordered[j] in ordered && ByAge(ordered[j], ordered[i]);
    }
    assert !Settled(generations, before, policy);
  }

  lemma {:induction false} PlannedSucceeds(generations: seq<Generation>, ordered: seq<Generation>, policy: Policy,
        now: int, n: nat)
    requires OneSizeEach(generations) && TotalsOf(generations, {}).Success? && n <= |ordered|
    ensures Planned(generations, ordered, policy, now, n).Success?
  {
    if n > 0 {
      PlannedSucceeds(generations, ordered, policy, now, n - 1);
      TotalsFall(generations, {}, Planned(generations, ordered, policy, now, n - 1).value);
    }
  }

  /** Planning fails exactly if there is a candidate and the untouched inventory already overflows. */
  lemma PlanFailsExactly(generations: seq<Generation>, current: string, policy: Policy, now: int)
    requires DistinctKeys(generations) && OneSizeEach(generations)
    ensures PlanOf(generations, current, policy, now).Failure? <==>
            TotalsOf(generations, {}).Failure? && exists g :: g in generations && Eligible(g, current, policy, now)
  {
    var ordered := Ordered(generations, current, policy, now);
    OrderedMeans(generations, current, policy, now);
    hide Ordered, Eligible, TotalsOf;
    if TotalsOf(generations, {}).Success? {
      PlannedSucceeds(generations, ordered, policy, now, |ordered|);
    } else if ordered != [] {
      assert ordered[0] in ordered;
      assert Planned(generations, ordered, policy, now, 1).Failure?;
      PlannedFailureStays(generations, ordered, policy, now, 1, |ordered|);
    }
  }

  // ---------------------------------------------------------------- planning again

  lemma {:induction false} KeptAgain(generations: seq<Generation>, retired: set<string>)
    ensures Kept(Kept(generations, retired), {}) == Kept(generations, retired)
  {
    if generations != [] {
      var init, last := generations[..|generations| - 1], generations[|generations| - 1];
      KeptAgain(init, retired);
      LastOf(Kept(init, retired), last);
    }
  }

  lemma {:induction false} KeptIgnores(generations: seq<Generation>, retired: set<string>, key: string)
    requires forall g | g in generations :: g.key != key
    ensures Kept(generations, retired - {key}) == Kept(generations, retired)
  {
    if generations != [] {
      var init, last := generations[..|generations| - 1], generations[|generations| - 1];
      assert generations == init + [last];
      KeptIgnores(init, retired, key);
    }
  }

  lemma KeptAt(generations: seq<Generation>, retired: set<string>)
    requires generations != []
    ensures
      var init, last := generations[..|generations| - 1], generations[|generations| - 1];
      Kept(generations, retired) == if last.key in retired then Kept(init, retired) else Kept(init, retired) + [last]
  {
  }

  lemma {:induction false} KeptCount(generations: seq<Generation>, retired: set<string>)
    requires DistinctKeys(generations) && retired <= KeySet(generations)
    ensures |Kept(generations, retired)| + |retired| == |generations|
  {
    if generations == [] {
      assert retired == {};
    } else {
      var init, last := generations[..|generations| - 1], generations[|generations| - 1];
      assert generations == init + [last];
      assert forall g | g in init :: g.key != last.key;
      KeptIgnores(init, retired, last.key);
      KeptAt(generations, retired);
      assert retired - {last.key} <= KeySet(init);
      hide Kept, KeySet;
      KeptCount(init, retired - {last.key});
    }
  }

  lemma {:induction false} KeptDistinct(generations: seq<Generation>, retired: set<string>)
    requires DistinctKeys(generations)
    ensures DistinctKeys(Kept(generations, retired))
  {
    if generations != [] {
      var init, last := generations[..|generations| - 1], generations[|generations| - 1];
      assert generations == init + [last];
      assert forall g | g in init :: g.key != last.key;
      KeptElements(init, retired);
      KeptAt(generations, retired);
      hide Kept;
      KeptDistinct(init, retired);
    }
  }

  lemma SettledAgain(generations: seq<Generation>, retired: set<string>, policy: Policy)
    requires DistinctKeys(generations) && retired <= KeySet(generations)
    ensures Settled(Kept(generations, retired), {}, policy) <==> Settled(generations, retired, policy)
  {
    KeptAgain(generations, retired);
    KeptCount(generations, retired);
    var none: set<string> := {};
    assert |none| == 0;
    hide Kept, Sum, Files, Entries;
  }

  lemma PlanWithinKeys(generations: seq<Generation>, current: string, policy: Policy, now: int)
    requires DistinctKeys(generations) && PlanOf(generations, current, policy, now).Success?
    ensures PlanOf(generations, current, policy, now).value <= KeySet(generations)
  {
    forall key | key in PlanOf(generations, current, policy, now).value
      ensures key in KeySet(generations)
    {
      PlanSpares(generations, current, policy, now, key);
    }
  }

  /** After the planned retirements either every budget holds or only protected generations remain. */
  lemma RetirementSettles(generations: seq<Generation>, current: string, policy: Policy, now: int)
    requires DistinctKeys(generations) && OneSizeEach(generations) && PlanOf(generations, current, policy, now).Success?
    ensures var rest := Kept(generations, PlanOf(generations, current, policy, now).value);
            && DistinctKeys(rest) && OneSizeEach(rest)
            && (Settled(rest, {}, policy) || forall g | g in rest :: !Eligible(g, current, policy, now))
  {
    var retired := PlanOf(generations, current, policy, now).value;
    PlanWithinKeys(generations, current, policy, now);
    PlanSettles(generations, current, policy, now);
    SettledAgain(generations, retired, policy);
    KeptDistinct(generations, retired);
    KeptElements(generations, retired);
    hide Kept, PlanOf, Settled, Eligible;
  }

  lemma {:induction false} NothingPlanned(generations: seq<Generation>, ordered: seq<Generation>, policy: Policy,
        now: int, n: nat)
    requires n <= |ordered| && (n > 0 ==> Settled(generations, {}, policy))
    requires forall g | g in ordered :: !Legacy(g.key) && !Expired(g, policy, now)
    ensures Planned(generations, ordered, policy, now, n) == Success({})
  {
    hide TotalsOf, Over, Legacy, Expired;
    if n > 0 {
      NothingPlanned(generations, ordered, policy, now, n - 1);
      assert ordered[n - 1] in ordered;
      var none: set<string> := {};
      assert |none| == 0;
    }
  }

  /** Maintenance is idempotent: after the planned retirements a second plan retires nothing. */
  lemma PlanIsIdempotent(generations: seq<Generation>, current: string, policy: Policy, now: int)
    requires DistinctKeys(generations) && OneSizeEach(generations) && PlanOf(generations, current, policy, now).Success?
    ensures var rest := Kept(generations, PlanOf(generations, current, policy, now).value);
            DistinctKeys(rest) && PlanOf(rest, current, policy, now) == Success({})
  {
    var retired := PlanOf(generations, current, policy, now).value;
    var rest := Kept(generations, retired);
    RetirementSettles(generations, current, policy, now);
    KeptElements(generations, retired);
    var ordered := Ordered(rest, current, policy, now);
    OrderedMeans(rest, current, policy, now);
    forall g | g in ordered
      ensures !Legacy(g.key) && !Expired(g, policy, now)
    {
      if Legacy(g.key) || Expired(g, policy, now) {
        PlanTakesExpired(generations, current, policy, now, g);
      }
    }
    hide PlanOf, Ordered, Settled, Eligible, Legacy, Expired, Planned;
    if ordered != [] {
      assert ordered[0] in ordered;
    }
    NothingPlanned(rest, ordered, policy, now, |ordered|);
    PlanUnfolds(rest, current, policy, now);
  }

  lemma PlanUnfolds(generations: seq<Generation>, current: string, policy: Policy, now: int)
    requires DistinctKeys(generations)
    ensures var ordered := Ordered(generations, current, policy, now);
            PlanOf(generations, current, policy, now) == Planned(generations, ordered, policy, now, |ordered|)
  {
  }

  // ---------------------------------------------------------------- maintenance

  function Live(generations: seq<Generation>): seq<Generation> {
    if generations == [] then []
    else
      var init, last := generations[..|generations| - 1], generations[|generations| - 1];
      if last.recovering then Live(init) else Live(init) + [last]
  }

  function Residue(generations: seq<Generation>): seq<string> {
    if generations == [] then []
    else
      var init, last := generations[..|generations| - 1], generations[|generations| - 1];
      if last.recovering then Residue(init) + [last.key] else Residue(init)
  }

  datatype Report = Report(
    before: Totals,
    after: Totals,
    generationsBefore: nat,
    generationsAfter: nat,
    retired: set<string>,
    recovered: seq<string>,
    budgetVerified: bool)

  lemma DropAt<T>(prefix: seq<T>, suffix: seq<T>)
    requires suffix != []
    ensures (prefix + suffix)[..|prefix|] + (prefix + suffix)[|prefix| + 1..] == prefix + suffix[1..]
    ensures (prefix + [suffix[0]]) + suffix[1..] == prefix + suffix
  {
  }

  /** A directory scan has reached its `i`-th entry and `kept` of those before it remain. */
  ghost predicate Scanned(snapshot: seq<Generation>, i: nat, kept: seq<Generation>, present: seq<Generation>) {
    i <= |snapshot| && present == kept + snapshot[i..]
  }

  /** Removing the next entry in place leaves what was kept; leaving it keeps it. */
  lemma ScannedNext(snapshot: seq<Generation>, i: nat, kept: seq<Generation>, present: seq<Generation>)
    requires Scanned(snapshot, i, kept, present) && i < |snapshot|
    ensures |kept| < |present|
    ensures Scanned(snapshot, i + 1, kept, present[..|kept|] + present[|kept| + 1..])
    ensures Scanned(snapshot, i + 1, kept + [snapshot[i]], present)
  {
    assert snapshot[i..][1..] == snapshot[i + 1..];
    DropAt(kept, snapshot[i..]);
  }

  lemma ScannedBounds(snapshot: seq<Generation>)
    ensures Scanned(snapshot, 0, [], snapshot)
    ensures forall kept, present | Scanned(snapshot, |snapshot|, kept, present) :: present == kept
  {
    assert snapshot[0..] == snapshot;
  }

  lemma KeptNext(snapshot: seq<Generation>, retired: set<string>, i: nat)
    requires i < |snapshot|
    ensures Kept(snapshot[..i + 1], retired) ==
            if snapshot[i].key in retired then Kept(snapshot[..i], retired)
                else Kept(snapshot[..i], retired) + [snapshot[i]]
  {
    assert snapshot[..i + 1][..i] == snapshot[..i];
  }

  lemma LiveNext(snapshot: seq<Generation>, i: nat)
    requires i < |snapshot|
    ensures Live(snapshot[..i + 1]) ==
            if snapshot[i].recovering then Live(snapshot[..i]) else Live(snapshot[..i]) + [snapshot[i]]
    ensures Residue(snapshot[..i + 1]) ==
            if snapshot[i].recovering then Residue(snapshot[..i]) + [snapshot[i].key] else Residue(snapshot[..i])
  {
    assert snapshot[..i + 1][..i] == snapshot[..i];
  }

  class Cache {
    const current: string
    var generations: seq<Generation>

    constructor (current: string, generations: seq<Generation>)
      ensures this.current == current && this.generations == generations
    {
      this.current, this.generations := current, generations;
    }

    /** Finishes interrupted retirements. */
    method Recover() returns (recovered: seq<string>)
      modifies this
      ensures generations == Live(old(generations)) && recovered == Residue(old(generations))
    {
      var snapshot, position := generations, 0;
      recovered := [];
      assert snapshot[..0] == [] && snapshot[..|snapshot|] == snapshot;
      ScannedBounds(snapshot);
      hide Scanned, Live, Residue;
      for i := 0 to |snapshot|
        invariant position == |Live(snapshot[..i])| && Scanned(snapshot, i, Live(snapshot[..i]), generations)
        invariant recovered == Residue(snapshot[..i])
      {
        LiveNext(snapshot, i);
        ScannedNext(snapshot, i, Live(snapshot[..i]), generations);
        if snapshot[i].recovering {
          generations := generations[..position] + generations[position + 1..];
          recovered := recovered + [snapshot[i].key];
        } else {
          position := position + 1;
        }
      }
    }

    /** Renames and unlinks every planned generation, in directory order. */
    method Retire(retired: set<string>)
      modifies this
      ensures generations == Kept(old(generations), retired)
    {
      var snapshot, position := generations, 0;
      assert snapshot[..0] == [] && snapshot[..|snapshot|] == snapshot;
      ScannedBounds(snapshot);
      hide Scanned, Kept;
      for i := 0 to |snapshot|
        invariant position == |Kept(snapshot[..i], retired)|
        invariant Scanned(snapshot, i, Kept(snapshot[..i], retired), generations)
      {
        KeptNext(snapshot, retired, i);
        ScannedNext(snapshot, i, Kept(snapshot[..i], retired), generations);
        if snapshot[i].key in retired {
          generations := generations[..position] + generations[position + 1..];
        } else {
          position := position + 1;
        }
      }
    }

    /** `maintain`: recovers first, plans on what is live, retires exactly the plan, and measures again. */
    method Maintain(policy: Policy, now: int) returns (r: Result<Report, CacheError>)
      requires DistinctKeys(Live(generations))
      modifies this
      ensures r.Success? ==>
                && PlanOf(Live(old(generations)), current, policy, now) == Success(r.value.retired)
                && generations == Kept(Live(old(generations)), r.value.retired)
                && r.value.recovered == Residue(old(generations))
                && TotalsOf(old(generations), {}) == Success(r.value.before)
                && TotalsOf(generations, {}) == Success(r.value.after)
                && r.value.generationsBefore == |old(generations)| && r.value.generationsAfter == |generations|
                && (r.value.budgetVerified <==> Settled(generations, {}, policy))
                && (r.value.budgetVerified <==>
                      r.value.after.bytes <= policy.bytes && r.value.after.entries <= policy.entries &&
                      |generations| <= policy.generations)
      ensures r.Failure? ==>
                || (generations == old(generations) && TotalsOf(old(generations), {}).Failure?)
                || (generations == Live(old(generations)) && PlanOf(generations, current, policy, now).Failure?)
                || TotalsOf(generations, {}).Failure?
    {
      var generationsBefore := |generations|;
      var before := ComputeTotals(generations, {});
      if before.Failure? {
        return Failure(before.error);
      }
      hide TotalsOf, PlanOf;
      var recovered := Recover();
      var planned := Plan(generations, current, policy, now);
      if planned.Failure? {
        return Failure(planned.error);
      }
      Retire(planned.value);
      var after := ComputeTotals(generations, {});
      if after.Failure? {
        return Failure(after.error);
      }
      r := Success(Report(before.value, after.value, generationsBefore, |generations|, planned.value, recovered,
                          !Over(after.value, |generations|, policy)));
    }
  }
}
