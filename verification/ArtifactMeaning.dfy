/** Which sequences of build records are accepted, decided from the records alone, and which harnesses they give. */
module ArtifactMeaning {
  import opened Wrappers
  import opened ArtifactStream

  // ---------------------------------------------------------------- selected artifacts

  ghost predicate Chosen(e: Environment, record: Bytes) {
    e.parse(record).Some? && e.parse(record).value.Artifact? && e.selected(e.parse(record).value)
  }

  /** The selected artifacts among the records, in their order. */
  ghost function ChosenOf(e: Environment, records: seq<Bytes>): seq<Message> {
    if records == [] then []
    else
      var before, last := ChosenOf(e, records[..|records| - 1]), records[|records| - 1];
      if Chosen(e, last) then before + [e.parse(last).value] else before
  }

  /** What the manifests admitted so far make of the `j`-th selected artifact. */
  ghost function HarnessOf(e: Environment, chosen: seq<Message>, j: nat): Option<Harness>
    requires j < |chosen|
  {
    e.admit(chosen[..j], chosen[j])
  }

  /** A test target with a package; its harness is admitted, fresh where it must be, found, and taken by the caller. */
  ghost predicate Fit(e: Environment, known: seq<Message>, artifact: Message) {
    && artifact.Artifact? && artifact.test && artifact.package.Some?
    && e.admit(known, artifact).Some?
    && var harness := e.admit(known, artifact).value;
    && (e.requireFreshMain && harness.package == "terlan" && harness.kind == "lib" ==> artifact.upToDate)
    && e.canonical(harness.executable).Some? && e.notified(harness)
  }

  ghost predicate SameTarget(a: Message, b: Message) {
    a.Artifact? && b.Artifact? && a.package == b.package && a.name == b.name && a.kind == b.kind
  }

  /** Neither target nor executable of the two is the same. */
  ghost predicate Apart(e: Environment, chosen: seq<Message>, i: nat, j: nat)
    requires i < |chosen| && j < |chosen|
  {
    && !SameTarget(chosen[i], chosen[j])
    && (HarnessOf(e, chosen, i).Some? && HarnessOf(e, chosen, j).Some? ==>
          e.canonical(HarnessOf(e, chosen, i).value.executable) !=
          e.canonical(HarnessOf(e, chosen, j).value.executable))
  }

  /** At most 1024 selected artifacts, each sound, all apart. */
  ghost predicate AllAdmissible(e: Environment, chosen: seq<Message>) {
    && |chosen| <= 1024
    && (forall j | 0 <= j < |chosen| :: Fit(e, chosen[..j], chosen[j]))
    && forall i, j | 0 <= i < j < |chosen| :: Apart(e, chosen, i, j)
  }

  /** Every record is understood, and one that reports the build finished reports success and is the last. */
  ghost predicate Orderly(e: Environment, records: seq<Bytes>) {
    forall i | 0 <= i < |records| ::
      && e.parse(records[i]).Some? && !e.parse(records[i]).value.Unrecognized?
      && (e.parse(records[i]).value.BuildFinished? ==> e.parse(records[i]).value.success && i == |records| - 1)
  }

  // ---------------------------------------------------------------- the running state

  ghost predicate TargetUsed(chosen: seq<Message>, target: Target) {
    exists j :: 0 <= j < |chosen| && chosen[j].Artifact? && chosen[j].package == Some(target.0) &&
                chosen[j].name == target.1 && chosen[j].kind == target.2
  }

  ghost predicate ExecutableUsed(e: Environment, harnesses: seq<Harness>, x: string) {
    exists j :: 0 <= j < |harnesses| && e.canonical(harnesses[j].executable) == Some(x)
  }

  ghost predicate HarnessesMatch(e: Environment, chosen: seq<Message>, harnesses: seq<Harness>) {
    |harnesses| == |chosen| && forall j | 0 <= j < |chosen| :: HarnessOf(e, chosen, j) == Some(harnesses[j])
  }

  /** The state holds what the selected artifacts say. */
  ghost predicate Reflects(e: Environment, core: Core, chosen: seq<Message>) {
    && core.pending == [] && core.manifests == chosen && HarnessesMatch(e, chosen, core.harnesses)
    && (forall target :: target in core.targets <==> TargetUsed(chosen, target))
    && forall x :: x in core.executables <==> ExecutableUsed(e, core.harnesses, x)
  }

  lemma ChosenNext(e: Environment, records: seq<Bytes>, record: Bytes)
    ensures ChosenOf(e, records + [record]) ==
            if Chosen(e, record) then ChosenOf(e, records) + [e.parse(record).value] else ChosenOf(e, records)
  {
    assert (records + [record])[..|records|] == records;
  }

  lemma OrderlyNext(e: Environment, records: seq<Bytes>, record: Bytes)
    ensures Orderly(e, records + [record]) <==>
            && Orderly(e, records) && !(records != [] && Finishes(e, records[|records| - 1]))
            && e.parse(record).Some? && !e.parse(record).value.Unrecognized?
            && (e.parse(record).value.BuildFinished? ==> e.parse(record).value.success)
  {
    var more := records + [record];
    assert more[|records|] == record && forall i | 0 <= i < |records| :: more[i] == records[i];
    if Orderly(e, more) {
      assert forall i | 0 <= i < |records| :: e.parse(more[i]) == e.parse(records[i]);
    }
  }

  lemma HarnessNext(e: Environment, chosen: seq<Message>, artifact: Message)
    ensures HarnessOf(e, chosen + [artifact], |chosen|) == e.admit(chosen, artifact)
    ensures forall j | 0 <= j < |chosen| :: HarnessOf(e, chosen + [artifact], j) == HarnessOf(e, chosen, j)
  {
    var more := chosen + [artifact];
    assert more[..|chosen|] == chosen;
    forall j | 0 <= j < |chosen|
      ensures HarnessOf(e, more, j) == HarnessOf(e, chosen, j)
    {
      assert more[..j] == chosen[..j] && more[j] == chosen[j];
    }
  }

  ghost predicate ApartFromAll(e: Environment, chosen: seq<Message>, artifact: Message) {
    forall i | 0 <= i < |chosen| :: Apart(e, chosen + [artifact], i, |chosen|)
  }

  lemma AdmissibleNext(e: Environment, chosen: seq<Message>, artifact: Message)
    ensures AllAdmissible(e, chosen + [artifact]) <==>
            && AllAdmissible(e, chosen) && |chosen| < 1024 && Fit(e, chosen, artifact)
            && ApartFromAll(e, chosen, artifact)
  {
    var more := chosen + [artifact];
    HarnessNext(e, chosen, artifact);
    assert more[..|chosen|] == chosen;
    forall j | 0 <= j < |chosen|
      ensures Fit(e, more[..j], more[j]) <==> Fit(e, chosen[..j], chosen[j])
    {
      assert more[j] == chosen[j] && more[..j] == chosen[..j];
    }
    forall i, j | 0 <= i < j < |chosen|
      ensures Apart(e, more, i, j) <==> Apart(e, chosen, i, j)
    {
      assert more[i] == chosen[i] && more[j] == chosen[j];
    }
    hide Fit, Apart, HarnessOf;
  }

  // ---------------------------------------------------------------- one more artifact

  /** Admission, said of the running state. */
  lemma AdmitMeans(e: Environment, core: Core, artifact: Message)
    requires artifact.Artifact?
    ensures Admit(e, core, artifact).1 <==>
            && |core.harnesses| < 1024 && Fit(e, core.manifests, artifact)
            && (artifact.package.value, artifact.name, artifact.kind) !in core.targets
            && e.canonical(e.admit(core.manifests, artifact).value.executable).value !in core.executables
    ensures Admit(e, core, artifact).1 ==>
              var harness := e.admit(core.manifests, artifact).value;
              Admit(e, core, artifact).0 ==
              core.(manifests := core.manifests + [artifact], harnesses := core.harnesses + [harness],
                    targets := core.targets + {(artifact.package.value, artifact.name, artifact.kind)},
                    executables := core.executables + {e.canonical(harness.executable).value})
  {
  }

  lemma {:induction false} ApartMeans(e: Environment, core: Core, chosen: seq<Message>, artifact: Message)
    requires Reflects(e, core, chosen) && Fit(e, chosen, artifact)
    ensures ApartFromAll(e, chosen, artifact) <==>
            && (artifact.package.value, artifact.name, artifact.kind) !in core.targets
            && e.canonical(e.admit(chosen, artifact).value.executable).value !in core.executables
  {
    var target := (artifact.package.value, artifact.name, artifact.kind);
    var x := e.canonical(e.admit(chosen, artifact).value.executable).value;
    HarnessNext(e, chosen, artifact);
    forall i | 0 <= i < |chosen|
      ensures Apart(e, chosen + [artifact], i, |chosen|) <==>
              !(TargetOf(chosen[i]) == Some(target)) && e.canonical(core.harnesses[i].executable) != Some(x)
    {
      assert (chosen + [artifact])[i] == chosen[i];
    }
    hide Apart, HarnessOf, Fit;
    if !ApartFromAll(e, chosen, artifact) {
      var i :| 0 <= i < |chosen| && !Apart(e, chosen + [artifact], i, |chosen|);
      if TargetOf(chosen[i]) == Some(target) {
        assert TargetUsed(chosen, target);
      } else {
        assert ExecutableUsed(e, core.harnesses, x);
      }
    }
  }

  lemma ReflectsNext(e: Environment, core: Core, chosen: seq<Message>, artifact: Message)
    requires Reflects(e, core, chosen) && artifact.Artifact? && Admit(e, core, artifact).1
    ensures Reflects(e, Admit(e, core, artifact).0, chosen + [artifact])
  {
    AdmitMeans(e, core, artifact);
    HarnessNext(e, chosen, artifact);
    var next, more := Admit(e, core, artifact).0, chosen + [artifact];
    var harness := e.admit(chosen, artifact).value;
    hide Admit, HarnessOf;
    assert next.harnesses == core.harnesses + [harness];
    forall target: Target
      ensures target in next.targets <==> TargetUsed(more, target)
    {
      TargetUsedNext(chosen, artifact, target);
    }
    forall x
      ensures x in next.executables <==> ExecutableUsed(e, next.harnesses, x)
    {
      ExecutableUsedNext(e, core.harnesses, harness, x);
    }
    hide TargetUsed, ExecutableUsed, Fit;
  }

  lemma TargetUsedNext(chosen: seq<Message>, artifact: Message, target: Target)
    requires artifact.Artifact? && artifact.package.Some?
    ensures TargetUsed(chosen + [artifact], target) <==>
            TargetUsed(chosen, target) || target == (artifact.package.value, artifact.name, artifact.kind)
  {
    var more := chosen + [artifact];
    assert more[|chosen|] == artifact && forall j | 0 <= j < |chosen| :: more[j] == chosen[j];
  }

  lemma ExecutableUsedNext(e: Environment, harnesses: seq<Harness>, harness: Harness, x: string)
    ensures ExecutableUsed(e, harnesses + [harness], x) <==>
            ExecutableUsed(e, harnesses, x) || e.canonical(harness.executable) == Some(x)
  {
    var more := harnesses + [harness];
    assert more[|harnesses|] == harness && forall j | 0 <= j < |harnesses| :: more[j] == harnesses[j];
  }

  // ---------------------------------------------------------------- all records

  ghost predicate EndsBuild(e: Environment, records: seq<Bytes>) {
    records != [] && Finishes(e, records[|records| - 1])
  }

  ghost predicate Acceptable(e: Environment, records: seq<Bytes>) {
    Orderly(e, records) && AllAdmissible(e, ChosenOf(e, records))
  }

  /** What admitting acceptable records leaves. */
  ghost predicate Left(e: Environment, core: Core, records: seq<Bytes>) {
    Reflects(e, core, ChosenOf(e, records)) && (core.buildFinished <==> EndsBuild(e, records))
  }

  lemma OneAccepted(e: Environment, core: Core, records: seq<Bytes>, record: Bytes)
    requires Acceptable(e, records) && Left(e, core, records)
    ensures Recorded(e, core, record).1 <==> Acceptable(e, records + [record])
    ensures Recorded(e, core, record).1 ==> Left(e, Recorded(e, core, record).0, records + [record])
  {
    var chosen := ChosenOf(e, records);
    OrderlyNext(e, records, record);
    ChosenNext(e, records, record);
    assert (records + [record])[|records|] == record;
    if Chosen(e, record) {
      var artifact := e.parse(record).value;
      AdmissibleNext(e, chosen, artifact);
      AdmitMeans(e, core, artifact);
      if Fit(e, chosen, artifact) {
        ApartMeans(e, core, chosen, artifact);
      }
      if Admit(e, core, artifact).1 {
        ReflectsNext(e, core, chosen, artifact);
      }
    }
    hide Orderly, ChosenOf, AllAdmissible, Fit, ApartFromAll, Reflects, Admit;
  }

  lemma NoRecords(e: Environment)
    ensures Acceptable(e, []) && Left(e, FRESH, [])
  {
    assert forall target: Target :: !TargetUsed([], target);
    assert forall x :: !ExecutableUsed(e, [], x);
  }

  lemma AcceptablePrefix(e: Environment, records: seq<Bytes>, record: Bytes)
    requires Acceptable(e, records + [record])
    ensures Acceptable(e, records)
  {
    OrderlyNext(e, records, record);
    ChosenNext(e, records, record);
    if Chosen(e, record) {
      AdmissibleNext(e, ChosenOf(e, records), e.parse(record).value);
    }
    hide Orderly, ChosenOf, AllAdmissible, Fit, ApartFromAll;
  }

  /**
   Records are accepted exactly if each is understood, a report of the finished build is a success
   and comes last, and the selected artifacts are admissible; chatter and artifacts that are not
   selected are accepted and change nothing.
   */
  lemma {:induction false} RecordsAcceptedExactly(e: Environment, records: seq<Bytes>)
    ensures RecordedAll(e, FRESH, records).1 <==> Acceptable(e, records)
    ensures RecordedAll(e, FRESH, records).1 ==> Left(e, RecordedAll(e, FRESH, records).0, records)
  {
    if records == [] {
      NoRecords(e);
    } else {
      var init, last := records[..|records| - 1], records[|records| - 1];
      assert records == init + [last];
      RecordsAcceptedExactly(e, init);
      RecordedAllStep(e, FRESH, init, last);
      hide Recorded, RecordedAll, Acceptable, Left;
      if Acceptable(e, records) {
        AcceptablePrefix(e, init, last);
      }
      if Acceptable(e, init) {
        OneAccepted(e, RecordedAll(e, FRESH, init).0, init, last);
      }
    }
  }

  // ---------------------------------------------------------------- a whole stream

  ghost predicate WithinBytes(records: seq<Bytes>) {
    forall i | 0 <= i < |records| :: |records[i]| <= 1048576
  }

  /**
   However the bytes of records without a newline arrive, one newline behind each, `finish` succeeds
   exactly if they are at most 16 MiB in all and one MiB each, acceptable, and end in a finished
   build; it returns the harnesses of the selected artifacts, in their order.
   */
  lemma FinishMeans(e: Environment, chunks: seq<Bytes>, records: seq<Bytes>)
    requires Concat(chunks) == Printed(records) && forall record | record in records :: NEWLINE !in record
    ensures
      var finished := Finish(ObservedAll(e, START, chunks));
      && (finished.Success? <==>
            && |Printed(records)| <= 16777216 && WithinBytes(records)
            && Acceptable(e, records) && EndsBuild(e, records))
      && (finished.Success? ==> HarnessesMatch(e, ChosenOf(e, records), finished.value))
  {
    FinishExactly(e, chunks);
    PrintedFrames(records);
    RecordsAcceptedExactly(e, records);
    hide ObservedAll, Printed, Concat, Framed, RecordedAll, AllAdmissible, ChosenOf;
    assert forall record | record in records :: exists i :: 0 <= i < |records| && records[i] == record;
  }
}
