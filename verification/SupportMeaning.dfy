/** Which support generations a plan retires, decided one by one from keys, ages and budgets. */
module SupportMeaning {
  import opened Wrappers
  import opened Sequences
  import opened Orders
  import opened Inodes
  import opened SupportCache

  /** Another generation than the current one, untouched for at least the grace period. */
  ghost predicate Considered(g: Generation, current: string, policy: Policy, now: int) {
    g.key != current && g.modified + policy.grace <= now
  }

  ghost predicate LegacyOrExpired(g: Generation, policy: Policy, now: int) {
    (|g.key| >= 7 && g.key[..7] == "legacy-") || g.modified + policy.maximumAge <= now
  }

  /** `a` was last modified before `b`, or at the same time and has the smaller key. */
  ghost predicate Older(a: Generation, b: Generation) {
    a.modified < b.modified || (a.modified == b.modified && Sooner(a.key, b.key))
  }

  /** What remains without these keys is too large: in bytes, each inode once, in entries, or in number. */
  ghost predicate Exceeds(generations: seq<Generation>, removed: set<string>, policy: Policy) {
    var rest := Kept(generations, removed);
    Sum(Files(rest)) > policy.bytes || Entries(rest) > policy.entries || |rest| > policy.generations
  }

  /** The keys of this set whose generations are older than `g`. */
  ghost function OlderAmong(generations: seq<Generation>, retired: set<string>, g: Generation): set<string> {
    set h | h in generations && h.key in retired && Older(h, g) :: h.key
  }

  lemma OlderIs(a: Generation, b: Generation)
    ensures Older(a, b) <==> ByAge(a, b) && !(a.modified == b.modified && a.key == b.key)
  {
    CompareTextMeans(a.key, b.key);
    CompareTextLaws(a.key, b.key);
    hide Sooner, CompareText;
  }

  lemma ConsideredIs(g: Generation, current: string, policy: Policy, now: int)
    ensures Considered(g, current, policy, now) <==> Eligible(g, current, policy, now)
    ensures LegacyOrExpired(g, policy, now) <==> Legacy(g.key) || Expired(g, policy, now)
  {
    assert "legacy-" <= g.key <==> |g.key| >= 7 && g.key[..7] == "legacy-";
  }

  lemma ExceedsIs(generations: seq<Generation>, removed: set<string>, policy: Policy)
    requires DistinctKeys(generations) && removed <= KeySet(generations) && TotalsOf(generations, removed).Success?
    ensures Exceeds(generations, removed, policy) <==>
            Over(TotalsOf(generations, removed).value, |generations| - |removed|, policy)
  {
    KeptCount(generations, removed);
    hide Kept, Sum, Files, Entries;
  }

  /** What was retired before the turn of `g` is what the plan retires among the older. */
  lemma TurnIs(generations: seq<Generation>, current: string, policy: Policy, now: int, g: Generation,
               before: set<string>, i: nat)
    requires DistinctKeys(generations) && PlanOf(generations, current, policy, now).Success?
    requires i < |Ordered(generations, current, policy, now)| && Ordered(generations, current, policy, now)[i] == g
    requires Planned(generations, Ordered(generations, current, policy, now), policy, now, i) == Success(before)
    requires g in generations
    ensures before == OlderAmong(generations, PlanOf(generations, current, policy, now).value, g)
  {
    var ordered := Ordered(generations, current, policy, now);
    var retired := PlanOf(generations, current, policy, now).value;
    OrderedMeans(generations, current, policy, now);
    PlannedEarlier(generations, ordered, policy, now, i);
    PlannedGrows(generations, ordered, policy, now, i, |ordered|);
    PlannedEarlier(generations, ordered, policy, now, |ordered|);
    hide Ordered, Planned, PlanOf, ByAge, Older, Eligible;
    forall key
      ensures key in before <==> key in OlderAmong(generations, retired, g)
    {
      if key in before {
        var j :| 0 <= j < i && ordered[j].key == key;
        assert ordered[j] in ordered;
        OlderIs(ordered[j], g);
        assert ordered[j].key != g.key;
      }
      if key in OlderAmong(generations, retired, g) {
        var h :| h in generations && h.key == key && h.key in retired && Older(h, g);
        var j :| 0 <= j < |ordered| && ordered[j].key == key;
        assert ordered[j] in ordered;
        KeysIdentify(generations, h, ordered[j]);
        OlderIs(h, g);
        TurnsByAge(generations, current, policy, now, j, i);
        assert j != i ==> j < i;
        assert j == i ==> h.key == g.key && h.modified == g.modified;
        NotTwice(ordered, key, i);
      }
    }
  }

  lemma NotTwice(ordered: seq<Generation>, key: string, i: nat)
    requires DistinctKeys(ordered)
    ensures forall j, k | 0 <= j < i && i <= k < |ordered| :: ordered[j].key == key ==> ordered[k].key != key
  {
  }

  /**
   The plan, generation by generation: one is retired if and only if it is considered, and is legacy or
   expired, or what remains once the older ones of the plan are gone still exceeds a budget. Read from the
   oldest on, this says which are retired.
   */
  lemma PlanExactly(generations: seq<Generation>, current: string, policy: Policy, now: int, g: Generation)
    requires DistinctKeys(generations) && PlanOf(generations, current, policy, now).Success? && g in generations
    ensures
      var retired := PlanOf(generations, current, policy, now).value;
      g.key in retired <==>
        && Considered(g, current, policy, now)
        && (LegacyOrExpired(g, policy, now) || Exceeds(generations, OlderAmong(generations, retired, g), policy))
  {
    var retired := PlanOf(generations, current, policy, now).value;
    ConsideredIs(g, current, policy, now);
    PlanWithinKeys(generations, current, policy, now);
    if g.key in retired {
      PlanConsiders(generations, current, policy, now, g);
    }
    hide Considered, Eligible, LegacyOrExpired, Legacy, Expired, Exceeds, Over, PlanOf, Ordered, Planned, TotalsOf,
         OlderAmong, KeySet;
    if Eligible(g, current, policy, now) {
      var before, i := PlanInOrder(generations, current, policy, now, g);
      TurnIs(generations, current, policy, now, g, before, i);
      ExceedsIs(generations, before, policy);
    }
  }

  lemma PlanConsiders(generations: seq<Generation>, current: string, policy: Policy, now: int, g: Generation)
    requires DistinctKeys(generations) && PlanOf(generations, current, policy, now).Success? && g in generations
    requires g.key in PlanOf(generations, current, policy, now).value
    ensures Eligible(g, current, policy, now)
  {
    var ordered := Ordered(generations, current, policy, now);
    OrderedMeans(generations, current, policy, now);
    PlannedEarlier(generations, ordered, policy, now, |ordered|);
    hide Ordered, Planned, Eligible;
    var j :| 0 <= j < |ordered| && ordered[j].key == g.key;
    assert ordered[j] in ordered;
    KeysIdentify(generations, ordered[j], g);
  }

  // ---------------------------------------------------------------- recovery

  /** Recovery drops exactly the residues, keeps the rest as often and names what it dropped. */
  lemma {:induction false} LiveExactly(generations: seq<Generation>, g: Generation, key: string)
    ensures multiset(Live(generations))[g] == if g.recovering then 0 else multiset(generations)[g]
    ensures key in Residue(generations) <==> exists h :: h in generations && h.recovering && h.key == key
    ensures |Live(generations)| + |Residue(generations)| == |generations|
  {
    if generations != [] {
      var init, last := generations[..|generations| - 1], generations[|generations| - 1];
      assert generations == init + [last];
      LiveExactly(init, g, key);
    }
  }

  /** What is kept of a list is what is not retired, as often as before. */
  lemma {:induction false} KeptExactly(generations: seq<Generation>, retired: set<string>, g: Generation)
    ensures multiset(Kept(generations, retired))[g] == if g.key in retired then 0 else multiset(generations)[g]
  {
    if generations != [] {
      var init, last := generations[..|generations| - 1], generations[|generations| - 1];
      assert generations == init + [last];
      KeptExactly(init, retired, g);
    }
  }

  // ---------------------------------------------------------------- totals

  /** Entries add up: those of one generation are its own, and those of a list the sum over its parts. */
  lemma {:induction false} EntriesAdd(a: seq<Generation>, b: seq<Generation>, g: Generation)
    ensures Entries([]) == 0 && Entries([g]) == g.entries
    ensures Entries(a + b) == Entries(a) + Entries(b)
    decreases |b|
  {
    assert [g][..0] == [];
    if b == [] {
      assert a + b == a;
    } else {
      var init, last := b[..|b| - 1], b[|b| - 1];
      assert (a + b)[..|a + b| - 1] == a + init && (a + b)[|a + b| - 1] == last;
      EntriesAdd(a, init, g);
    }
  }

  // ---------------------------------------------------------------- overflow

  lemma {:induction false} KeptAll(generations: seq<Generation>)
    ensures Kept(generations, {}) == generations
  {
    if generations != [] {
      KeptAll(generations[..|generations| - 1]);
    }
  }

  /** Everything together is more than 64 bits count, entries before bytes. */
  ghost predicate Overflows(generations: seq<Generation>, error: CacheError) {
    if Entries(generations) > 18446744073709551615 then error == EntryOverflow
    else Sum(Files(generations)) > 18446744073709551615 && error == ByteOverflow
  }

  /** Planning fails exactly if there is something to consider and everything together overflows. */
  lemma FailsExactly(generations: seq<Generation>, current: string, policy: Policy, now: int, error: CacheError)
    requires DistinctKeys(generations) && OneSizeEach(generations)
    ensures PlanOf(generations, current, policy, now) == Failure(error) <==>
            Overflows(generations, error) && exists g :: g in generations && Considered(g, current, policy, now)
  {
    var ordered := Ordered(generations, current, policy, now);
    OrderedMeans(generations, current, policy, now);
    PlanFailsExactly(generations, current, policy, now);
    KeptAll(generations);
    assert Overflows(generations, error) <==> TotalsOf(generations, {}) == Failure(error) by {
      hide Sum, Files, Entries;
    }
    forall g
      ensures Considered(g, current, policy, now) <==> Eligible(g, current, policy, now)
    {
      ConsideredIs(g, current, policy, now);
    }
    hide Ordered, Eligible, TotalsOf, Considered, Overflows;
    if ordered != [] && TotalsOf(generations, {}).Failure? {
      assert Planned(generations, ordered, policy, now, 1) == Failure(TotalsOf(generations, {}).error);
      PlannedFailureStays(generations, ordered, policy, now, 1, |ordered|);
    }
    assert ordered != [] ==> ordered[0] in ordered;
  }
}
