/** Collection: what joining one inspector does to the snapshot, and the run in list order
    that every threaded run is compared with. */
module Collect {
  import opened Types
  import opened RpmStates

  datatype InspectorId =
    | Rpm | Config | Services | Network | Storage | ScheduledTasks | Containers | NonRpmSoftware
    | KernelBoot | Selinux | UsersGroups | Subscription | Hardware | Ostree | OsRelease

  datatype SourceKind = PackageBased | RpmOstree | Bootc

  datatype Severity = Info | Caution | Error

  datatype Reporter = Inspector(id: InspectorId) | Other(name: string)

  datatype Warning = Warning(reporter: Reporter, message: string, severity: Option<Severity>)

  datatype Slot =
    | ConfigSlot | ServicesSlot | NetworkSlot | StorageSlot | ScheduledTasksSlot | ContainersSlot | NonRpmSoftwareSlot
    | KernelBootSlot | SelinuxSlot | UsersGroupsSlot | SubscriptionSlot

  datatype SectionData = RpmSection(rpm: RpmData) | Section(slot: Slot, content: string)

  datatype Output = Output(section: SectionData, warnings: seq<Warning>, hints: seq<string>)

  /** What joining an inspector's thread gives. */
  datatype Result =
    | Complete(output: Output)
    | Skipped(reason: string)
    | Degraded(partial: Output, reason: string)
    | Failed(reason: string)
    | Panicked

  datatype Inspector = Inspector(id: InspectorId, kinds: set<SourceKind>, inspect: Option<RpmState> -> Result)

  datatype Completeness =
    | AllComplete
    | Partial(degraded: seq<InspectorId>)
    | Incomplete(failed: seq<InspectorId>, degraded: seq<InspectorId>)

  /** Everything the joining thread fills in. */
  datatype Findings = Findings(
    rpm: Option<RpmData>,
    sections: map<Slot, string>,
    warnings: seq<Warning>,
    hints: seq<string>,
    failed: seq<InspectorId>,
    degraded: seq<InspectorId>,
    rpmState: RpmState,
    rpmPopulated: bool)

  const NO_FINDINGS := Findings(None, map[], [], [], [], [], NO_RPM_STATE, false)

  /** RPM and subscription need nothing from other inspectors; all others wait for RPM. */
  predicate IsWave2(id: InspectorId) {
    id != Rpm && id != Subscription
  }

  // ----- Joining one inspector -----

  function OutputOf(r: Result): Option<Output> {
    match r
    case Complete(output) => Some(output)
    case Degraded(partial, _) => Some(partial)
    case _ => None
  }

  /** The RPM data a join brings, if the RPM inspector brought any. */
  function RpmOf(id: InspectorId, r: Result): Option<RpmData> {
    var out := OutputOf(r);
    if id == Rpm && out.Some? && out.value.section.RpmSection? then Some(out.value.section.rpm) else None
  }

  function Routed(f: Findings, section: SectionData): Findings {
    match section
    case RpmSection(rpm) => f.(rpm := Some(rpm))
    case Section(slot, content) => f.(sections := f.sections[slot := content])
  }

  /** The remark a join leaves besides the inspector's own warnings. */
  function Remark(id: InspectorId, r: Result): seq<Warning> {
    match r
    case Complete(_) => []
    case Skipped(reason) => [Warning(Reporter.Inspector(id), "skipped: " + reason, Some(Info))]
    case Degraded(_, reason) => [Warning(Reporter.Inspector(id), "degraded: " + reason, Some(Caution))]
    case Failed(reason) => [Warning(Reporter.Inspector(id), "failed: " + reason, Some(Error))]
    case Panicked => [Warning(Reporter.Inspector(id), "inspector panicked", Some(Error))]
  }

  predicate HasFailed(r: Result) {
    r.Failed? || r.Panicked?
  }

  function Joined(f: Findings, id: InspectorId, r: Result): Findings {
    var rpm, out := RpmOf(id, r), OutputOf(r);
    var g := if rpm.Some? then f.(rpmState := Extracted(rpm.value, f.rpmState), rpmPopulated := true) else f;
    var h := if out.Some? then Routed(g, out.value.section) else g;
    h.(warnings := f.warnings + (if out.Some? then out.value.warnings else []) + Remark(id, r),
       hints := f.hints + (if out.Some? then out.value.hints else []),
       failed := if HasFailed(r) then f.failed + [id] else f.failed,
       degraded := if r.Degraded? then f.degraded + [id] else f.degraded)
  }

  // ----- Joining a list of inspectors -----

  datatype Join = Join(id: InspectorId, result: Result)

  function JoinedAll(f: Findings, joins: seq<Join>): Findings {
    if joins == [] then f
    else Joined(JoinedAll(f, joins[..|joins| - 1]), joins[|joins| - 1].id, joins[|joins| - 1].result)
  }

  /** What each inspector of a wave gives in the context `rpm`. */
  function JoinsOf(wave: seq<Inspector>, rpm: Option<RpmState>): (joins: seq<Join>)
    ensures |joins| == |wave|
  {
    seq(|wave|, i requires 0 <= i < |wave| => Join(wave[i].id, wave[i].inspect(rpm)))
  }

  /** The RPM facts the second wave is given. */
  function ContextOf(f: Findings): Option<RpmState> {
    if f.rpmPopulated then Some(f.rpmState) else None
  }

  /** A run in list order: the whole first wave, then the first `n` of the second. */
  function InOrder(start: Findings, first: seq<Inspector>, second: seq<Inspector>, n: nat): Findings
    requires n <= |second|
  {
    var f := JoinedAll(start, JoinsOf(first, None));
    JoinedAll(f, JoinsOf(second[..n], ContextOf(f)))
  }

  function CompletenessOf(f: Findings): Completeness {
    if f.failed == [] && f.degraded == [] then AllComplete
    else if f.failed == [] then Partial(f.degraded)
    else Incomplete(f.failed, f.degraded)
  }

  // ----- The collecting thread -----

  class Collector {
    var rpm: Option<RpmData>
    var sections: map<Slot, string>
    var warnings: seq<Warning>
    var hints: seq<string>
    var failed: seq<InspectorId>
    var degraded: seq<InspectorId>
    var rpmState: RpmState
    var rpmPopulated: bool

    function Now(): Findings
      reads this
    {
      Findings(rpm, sections, warnings, hints, failed, degraded, rpmState, rpmPopulated)
    }

    constructor ()
      ensures Now() == NO_FINDINGS
    {
      rpm, sections, warnings, hints, failed, degraded := None, map[], [], [], [], [];
      rpmState, rpmPopulated := NO_RPM_STATE, false;
    }

    /** Keep the inspectors that apply to this kind of source and split them in two waves;
        the others are only remarked on. */
    method Admit(inspectors: seq<Inspector>, kind: SourceKind, kindName: string)
      returns (first: seq<Inspector>, second: seq<Inspector>)
      modifies `warnings
      ensures first == Types.Filter(inspectors, (i: Inspector) => kind in i.kinds
                && (i.id == Rpm || i.id == Subscription))
      ensures second == Types.Filter(inspectors, (i: Inspector) => kind in i.kinds && i.id != Rpm
                && i.id != Subscription)
      ensures warnings == old(warnings) + Refusals(inspectors, kind, kindName)
    {
      first, second := [], [];
      for k := 0 to |inspectors|
        invariant first == Types.Filter(inspectors[..k], (i: Inspector) => kind in i.kinds
                    && (i.id == Rpm || i.id == Subscription))
        invariant second == Types.Filter(inspectors[..k], (i: Inspector) => kind in i.kinds && i.id != Rpm
                    && i.id != Subscription)
        invariant warnings == old(warnings) + Refusals(inspectors[..k], kind, kindName)
      {
        var inspector := inspectors[k];
        assert inspectors[..k + 1][..k] == inspectors[..k];
        if kind in inspector.kinds {
          if IsWave2(inspector.id) {
            second := second + [inspector];
          } else {
            first := first + [inspector];
          }
        } else {
          warnings := warnings + [Refusal(inspector.id, kindName)];
        }
      }
      assert inspectors[..|inspectors|] == inspectors;
    }

    /** Fold one join result into the snapshot; says whether it brought RPM data. */
    method HandleResult(id: InspectorId, result: Result) returns (rpmExtracted: bool)
      modifies this
      ensures Now().(rpmPopulated := old(rpmPopulated) || rpmExtracted) == Joined(old(Now()), id, result)
      ensures rpmPopulated == old(rpmPopulated) && rpmExtracted == RpmOf(id, result).Some?
    {
      hide Extracted;
      rpmExtracted := false;
      match result {
        case Complete(output) =>
          rpmExtracted := TakeOutput(id, output);
        case Skipped(reason) =>
          warnings := warnings + [Warning(Reporter.Inspector(id), "skipped: " + reason, Some(Info))];
        case Degraded(partial, reason) =>
          rpmExtracted := TakeOutput(id, partial);
          warnings := warnings + [Warning(Reporter.Inspector(id), "degraded: " + reason, Some(Caution))];
          degraded := degraded + [id];
        case Failed(reason) =>
          warnings := warnings + [Warning(Reporter.Inspector(id), "failed: " + reason, Some(Error))];
          failed := failed + [id];
        case Panicked =>
          failed := failed + [id];
          warnings := warnings + [Warning(Reporter.Inspector(id), "inspector panicked", Some(Error))];
      }
    }

    method TakeOutput(id: InspectorId, output: Output) returns (taken: bool)
      modifies this
      ensures taken == (id == Rpm && output.section.RpmSection?)
      ensures var f := old(Now());
              var g := if taken then f.(rpmState := Extracted(output.section.rpm, f.rpmState)) else f;
              Now() == Routed(g, output.section).(warnings := f.warnings + output.warnings,
                hints := f.hints + output.hints)
    {
      hide Extracted;
      taken := TakeRpm(id, output.section);
      Route(output.section);
      warnings := warnings + output.warnings;
      hints := hints + output.hints;
    }

    method TakeRpm(id: InspectorId, section: SectionData) returns (taken: bool)
      modifies `rpmState
      ensures taken == (id == Rpm && section.RpmSection?)
      ensures rpmState == if taken then Extracted(section.rpm, old(rpmState)) else old(rpmState)
    {
      taken := id == Rpm && section.RpmSection?;
      if taken {
        rpmState := ExtractRpmState(section.rpm, rpmState);
      }
    }

    method Route(section: SectionData)
      modifies `rpm, `sections
      ensures Now() == Routed(old(Now()), section)
    {
      match section {
        case RpmSection(data) => rpm := Some(data);
        case Section(slot, content) => sections := sections[slot := content];
      }
    }

    /** Both waves run one inspector at a time; the second stops after `n`. */
    method CollectInOrder(first: seq<Inspector>, second: seq<Inspector>, n: nat) returns (completeness: Completeness)
      requires n <= |second| && forall i :: 0 <= i < |second| ==> IsWave2(second[i].id)
      modifies this
      ensures Now() == InOrder(old(Now()), first, second, n)
      ensures completeness == CompletenessOf(Now())
    {
      hide Joined, RpmOf, Extracted;
      var joins := JoinsOf(first, None);
      for k := 0 to |first|
        invariant Now() == JoinedAll(old(Now()), joins[..k])
      {
        ghost var before := Now();
        var extracted := HandleResult(first[k].id, first[k].inspect(None));
        if extracted {
          rpmPopulated := true;
        }
        PopulatedByJoin(before, first[k].id, first[k].inspect(None));
        assert joins[..k + 1][..k] == joins[..k];
      }
      assert joins[..|first|] == joins;
      ghost var wave1 := Now();
      var context := if rpmPopulated then Some(rpmState) else None;
      joins := JoinsOf(second[..n], context);
      for k := 0 to n
        invariant Now() == JoinedAll(wave1, joins[..k])
      {
        NoRpmInWave2(Now(), second[k].id, second[k].inspect(context));
        var extracted := HandleResult(second[k].id, second[k].inspect(context));
        assert joins[..k + 1][..k] == joins[..k];
      }
      assert joins[..n] == joins;
      completeness := CompletenessOf(Now());
    }
  }

  function Refusal(id: InspectorId, kindName: string): Warning {
    Warning(Reporter.Inspector(id), "skipped: not applicable to " + kindName, Some(Info))
  }

  function Refusals(inspectors: seq<Inspector>, kind: SourceKind, kindName: string): seq<Warning> {
    if inspectors == [] then []
    else
      var before, last := Refusals(inspectors[..|inspectors| - 1], kind, kindName), inspectors[|inspectors| - 1];
      if kind in last.kinds then before else before + [Refusal(last.id, kindName)]
  }

  /** One remark for each inspector that does not apply, in list order. */
  lemma {:induction false} RefusalsAreExact(inspectors: seq<Inspector>, kind: SourceKind, kindName: string)
    ensures var out := Filter(inspectors, (i: Inspector) => kind !in i.kinds);
            var remarks := Refusals(inspectors, kind, kindName);
            && |remarks| == |out|
            && forall k :: 0 <= k < |out| ==>
                 remarks[k] == Warning(Reporter.Inspector(out[k].id), "skipped: not applicable to " + kindName,
                   Some(Info))
  {
    if inspectors != [] {
      RefusalsAreExact(inspectors[..|inspectors| - 1], kind, kindName);
    }
  }

  lemma PopulatedByJoin(f: Findings, id: InspectorId, r: Result)
    ensures Joined(f, id, r).rpmPopulated == (f.rpmPopulated || RpmOf(id, r).Some?)
  {
  }

  lemma NoRpmInWave2(f: Findings, id: InspectorId, r: Result)
    requires IsWave2(id)
    ensures RpmOf(id, r).None?
    ensures Joined(f, id, r).rpmPopulated == f.rpmPopulated && Joined(f, id, r).rpmState == f.rpmState
  {
  }

  // ----- What a list of joins leaves behind -----

  function FailedJoin(): Join -> bool {
    (j: Join) => HasFailed(j.result)
  }

  function DegradedJoin(): Join -> bool {
    (j: Join) => j.result.Degraded?
  }

  function IdsOf(joins: seq<Join>): seq<InspectorId> {
    seq(|joins|, i requires 0 <= i < |joins| => joins[i].id)
  }

  /** The failed and degraded lists are the ids of the joins with that outcome, in list order. */
  lemma {:induction false} ListsInOrder(f: Findings, joins: seq<Join>)
    ensures JoinedAll(f, joins).failed == f.failed + IdsOf(Filter(joins, FailedJoin()))
    ensures JoinedAll(f, joins).degraded == f.degraded + IdsOf(Filter(joins, DegradedJoin()))
  {
    if joins != [] {
      ListsInOrder(f, joins[..|joins| - 1]);
    }
  }

  /** The hints of every output, complete or partial, in list order. */
  function HintsOf(joins: seq<Join>): seq<string> {
    if joins == [] then []
    else
      HintsOf(joins[..|joins| - 1]) + HintsBy(joins[|joins| - 1].result)
  }

  function HintsBy(result: Result): seq<string> {
    match result
    case Complete(output) => output.hints
    case Degraded(partial, _) => partial.hints
    case _ => []
  }

  /** What one join adds to the warnings: the output's own, then a remark naming the inspector
      and the reason, graver the worse it went. */
  function WarningsBy(id: InspectorId, result: Result): seq<Warning> {
    match result
    case Complete(output) => output.warnings
    case Degraded(partial, reason) =>
      partial.warnings + [Warning(Reporter.Inspector(id), "degraded: " + reason, Some(Caution))]
    case Skipped(reason) => [Warning(Reporter.Inspector(id), "skipped: " + reason, Some(Info))]
    case Failed(reason) => [Warning(Reporter.Inspector(id), "failed: " + reason, Some(Error))]
    case Panicked => [Warning(Reporter.Inspector(id), "inspector panicked", Some(Error))]
  }

  function WarningsOf(joins: seq<Join>): seq<Warning> {
    if joins == [] then []
    else WarningsOf(joins[..|joins| - 1]) + WarningsBy(joins[|joins| - 1].id, joins[|joins| - 1].result)
  }

  /** Hints and warnings are those of the joins, in list order; none is lost. */
  lemma {:induction false} HintsAndWarningsInOrder(f: Findings, joins: seq<Join>)
    ensures JoinedAll(f, joins).hints == f.hints + HintsOf(joins)
    ensures JoinedAll(f, joins).warnings == f.warnings + WarningsOf(joins)
  {
    hide Joined, HintsBy, WarningsBy;
    if joins != [] {
      var n := |joins| - 1;
      HintsAndWarningsInOrder(f, joins[..n]);
      OneJoinAdds(JoinedAll(f, joins[..n]), joins[n].id, joins[n].result);
    }
  }

  lemma OneJoinAdds(f: Findings, id: InspectorId, r: Result)
    ensures Joined(f, id, r).hints == f.hints + HintsBy(r)
    ensures Joined(f, id, r).warnings == f.warnings + WarningsBy(id, r)
  {
    hide Extracted;
  }

  predicate BringsRpmSection(j: Join) {
    match j.result
    case Complete(output) => output.section.RpmSection?
    case Degraded(partial, _) => partial.section.RpmSection?
    case _ => false
  }

  /** The RPM section is the one the last join with RPM data brought. The RPM facts come from the
      RPM inspector alone: when one of the joins is its and brought data, they are what is
      extracted from that data. */
  lemma {:induction false} RpmDataIsKept(f: Findings, joins: seq<Join>, i: nat)
    requires i < |joins| && BringsRpmSection(joins[i])
    requires forall j :: i < j < |joins| ==> !BringsRpmSection(joins[j])
    ensures var rpm := OutputOf(joins[i].result).value.section.rpm;
            && JoinedAll(f, joins).rpm == Some(rpm)
            && (joins[i].id == Rpm && (forall j :: 0 <= j < i ==> !BringsRpmSection(joins[j])) ==>
                  JoinedAll(f, joins).rpmState == Extracted(rpm, f.rpmState) && JoinedAll(f, joins).rpmPopulated)
  {
    hide Extracted, Remark;
    var n := |joins| - 1;
    assert forall j :: 0 <= j < n ==> joins[..n][j] == joins[j];
    if i < n {
      RpmDataIsKept(f, joins[..n], i);
    } else if forall j :: 0 <= j < i ==> !BringsRpmSection(joins[j]) {
      NoRpmDataYet(f, joins[..n]);
    }
  }

  lemma {:induction false} NoRpmDataYet(f: Findings, joins: seq<Join>)
    requires forall j :: 0 <= j < |joins| ==> !BringsRpmSection(joins[j])
    ensures JoinedAll(f, joins).rpmState == f.rpmState && JoinedAll(f, joins).rpm == f.rpm
  {
    hide Extracted, Remark;
    if joins != [] {
      var n := |joins| - 1;
      assert forall j :: 0 <= j < n ==> joins[..n][j] == joins[j];
      NoRpmDataYet(f, joins[..n]);
    }
  }

  /** A report that is not complete lists who failed and who degraded, in list order. */
  lemma ReportListsTheUnclean(joins: seq<Join>, f: Findings)
    requires f.failed == [] && f.degraded == []
    ensures var report := CompletenessOf(JoinedAll(f, joins));
            && (report.Partial? ==> report.degraded == IdsOf(Filter(joins, DegradedJoin())))
            && (report.Incomplete? ==> report.failed == IdsOf(Filter(joins, FailedJoin()))
                                       && report.degraded == IdsOf(Filter(joins, DegradedJoin())))
  {
    ListsInOrder(f, joins);
  }

  /** A snapshot is complete exactly when no joined inspector failed, panicked or degraded;
      inspectors that cancellation kept from starting do not count. */
  lemma CompleteMeansCleanJoins(joins: seq<Join>, f: Findings)
    requires f.failed == [] && f.degraded == []
    ensures CompletenessOf(JoinedAll(f, joins)) == AllComplete <==>
            forall i :: 0 <= i < |joins| ==> joins[i].result.Complete? || joins[i].result.Skipped?
    ensures CompletenessOf(JoinedAll(f, joins)).Incomplete? <==>
              exists i :: 0 <= i < |joins| && HasFailed(joins[i].result)
  {
    ListsInOrder(f, joins);
    FilterFacts(joins, FailedJoin());
    FilterFacts(joins, DegradedJoin());
  }

  /** Each section is the one brought by the last join that brought it. */
  lemma {:induction false} LastSectionWins(f: Findings, joins: seq<Join>, slot: Slot, i: nat)
    requires i < |joins| && Brings(joins[i], slot) && forall j :: i < j < |joins| ==> !Brings(joins[j], slot)
    ensures slot in JoinedAll(f, joins).sections
    ensures JoinedAll(f, joins).sections[slot] == OutputOf(joins[i].result).value.section.content
  {
    hide Joined, JoinedAll;
    var n := |joins| - 1;
    OneMoreSection(f, joins, slot);
    if i < n {
      assert forall j :: 0 <= j < n ==> joins[..n][j] == joins[j];
      LastSectionWins(f, joins[..n], slot, i);
    }
  }

  /** A section no join brought is as it was before. */
  lemma {:induction false} UnbroughtSectionStays(f: Findings, joins: seq<Join>, slot: Slot)
    requires forall j :: 0 <= j < |joins| ==> !Brings(joins[j], slot)
    ensures slot in JoinedAll(f, joins).sections <==> slot in f.sections
    ensures slot in f.sections ==> JoinedAll(f, joins).sections[slot] == f.sections[slot]
  {
    hide Joined, Brings;
    if joins != [] {
      var n := |joins| - 1;
      assert forall j :: 0 <= j < n ==> joins[..n][j] == joins[j];
      UnbroughtSectionStays(f, joins[..n], slot);
      OneMoreSection(f, joins, slot);
    }
  }

  lemma OneMoreSection(f: Findings, joins: seq<Join>, slot: Slot)
    requires joins != []
    ensures var n := |joins| - 1;
            var g, h := JoinedAll(f, joins[..n]), JoinedAll(f, joins);
            if Brings(joins[n], slot)
            then slot in h.sections && h.sections[slot] == OutputOf(joins[n].result).value.section.content
            else (slot in h.sections <==> slot in g.sections)
                 && (slot in g.sections ==> h.sections[slot] == g.sections[slot])
  {
    hide Joined, Brings;
    OneSection(JoinedAll(f, joins[..|joins| - 1]), joins[|joins| - 1], slot);
  }

  lemma OneSection(f: Findings, join: Join, slot: Slot)
    ensures var g := Joined(f, join.id, join.result);
            if Brings(join, slot)
            then slot in g.sections && g.sections[slot] == OutputOf(join.result).value.section.content
            else (slot in g.sections <==> slot in f.sections)
                 && (slot in f.sections ==> g.sections[slot] == f.sections[slot])
  {
  }

  predicate Brings(j: Join, slot: Slot) {
    var out := OutputOf(j.result);
    out.Some? && out.value.section.Section? && out.value.section.slot == slot
  }

  /** RPM facts are there for the second wave exactly when the RPM inspector, complete or
      degraded, brought RPM data. */
  lemma {:induction false} ContextIsExact(f: Findings, joins: seq<Join>)
    requires !f.rpmPopulated
    ensures ContextOf(JoinedAll(f, joins)).Some? <==>
              exists i :: 0 <= i < |joins| && RpmOf(joins[i].id, joins[i].result).Some?
  {
    hide Extracted, Routed, Remark;
    if joins != [] {
      var n := |joins| - 1;
      ContextIsExact(f, joins[..n]);
      PopulatedByJoin(JoinedAll(f, joins[..n]), joins[n].id, joins[n].result);
      assert forall i :: 0 <= i < n ==> joins[..n][i] == joins[i];
    }
  }
}
