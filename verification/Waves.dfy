/** Threaded collection as a state machine. The collecting thread spawns a first wave, joins
    it in list order, then spawns a second wave unless cancelled and joins what it spawned;
    inspector threads start and finish whenever they like. */
module Waves {
  import opened Types
  import opened RpmStates
  import opened Collect

  datatype Plan = Plan(first: seq<Inspector>, second: seq<Inspector>, start: Findings)

  datatype Job = Waiting | Spawned | Running | Ended(result: Result) | Gone

  /** Where the collecting thread is; `k` is the next list position it looks at. */
  datatype Phase = Spawn1(k: nat) | Join1(k: nat) | Gate | Spawn2(k: nat) | Join2(k: nat) | Over

  /** An inspector by its place in its wave. */
  datatype Who = First(i: nat) | Second(i: nat)

  datatype Event = Started(who: Who) | Finished(who: Who, result: Result)

  datatype State = State(
    phase: Phase,
    first: seq<Job>,
    second: seq<Job>,
    handles: seq<nat>,
    context: Option<RpmState>,
    findings: Findings,
    cancelled: bool,
    log: seq<Event>)

  datatype Move = Cancel | Main | Begin(i: nat) | End1(i: nat) | End2(i: nat)

  // ----- Steps -----

  function Init(plan: Plan): State {
    State(Spawn1(0), seq(|plan.first|, i => Waiting), seq(|plan.second|, i => Waiting), [], None, plan.start, false, [])
  }

  predicate MainEnabled(plan: Plan, s: State) {
    match s.phase
    case Spawn1(k) => k <= |plan.first|
    case Join1(k) => k < |plan.first| ==> k < |s.first| && s.first[k].Ended?
    case Gate => true
    case Spawn2(k) => k <= |plan.second|
    case Join2(k) => k < |s.handles| ==> s.handles[k] < |s.second| && s.second[s.handles[k]].Ended?
    case Over => false
  }

  predicate Enabled(plan: Plan, s: State, m: Move) {
    && |s.first| == |plan.first| && |s.second| == |plan.second|
    && match m
       case Cancel => !s.cancelled
       case Main => MainEnabled(plan, s)
       case Begin(i) => i < |s.first| && s.first[i].Spawned?
       case End1(i) => i < |s.first| && s.first[i].Running?
       case End2(i) => i < |s.second| && s.second[i].Running?
  }

  function MainNext(plan: Plan, s: State): State
    requires Enabled(plan, s, Main)
  {
    match s.phase
    case Spawn1(k) =>
      if k == |plan.first| then s.(phase := Join1(0)) else s.(phase := Spawn1(k + 1), first := s.first[k := Spawned])
    case Join1(k) =>
      if k >= |plan.first| then s.(phase := Gate)
      else
        s.(phase := Join1(k + 1), first := s.first[k := Gone], log := s.log + [Finished(First(k), s.first[k].result)],
           findings := Joined(s.findings, plan.first[k].id, s.first[k].result))
    case Gate =>
      if plan.second == [] || s.cancelled then s.(phase := Over)
        else s.(phase := Spawn2(0), context := ContextOf(s.findings))
    case Spawn2(k) =>
      if k == |plan.second| then s.(phase := Join2(0))
      else if s.cancelled then s.(phase := Spawn2(k + 1))
      else s.(phase := Spawn2(k + 1), second := s.second[k := Running], handles := s.handles + [k],
        log := s.log + [Started(Second(k))])
    case Join2(k) =>
      if k >= |s.handles| then s.(phase := Over)
      else
        var j := s.handles[k];
        // No second-wave inspector is RPM, so this join extracts no RPM facts.
        s.(phase := Join2(k + 1), second := s.second[j := Gone],
          log := s.log + [Finished(Second(j), s.second[j].result)],
           findings := Joined(s.findings, plan.second[j].id, s.second[j].result))
    case Over => s
  }

  function Next(plan: Plan, s: State, m: Move): State
    requires Enabled(plan, s, m)
  {
    match m
    case Cancel => s.(cancelled := true)
    case Main => MainNext(plan, s)
    case Begin(i) => s.(first := s.first[i := Running], log := s.log + [Started(First(i))])
    case End1(i) => s.(first := s.first[i := Ended(plan.first[i].inspect(None))])
    case End2(i) => s.(second := s.second[i := Ended(plan.second[i].inspect(s.context))])
  }

  /** The state a schedule of moves leads to, if every move was possible. */
  function After(plan: Plan, moves: seq<Move>): Option<State> {
    if moves == [] then Some(Init(plan))
    else
      var before := After(plan, moves[..|moves| - 1]);
      if before.Some? && Enabled(plan, before.value, moves[|moves| - 1])
      then Some(Next(plan, before.value, moves[|moves| - 1])) else None
  }

  // ----- What every schedule keeps -----

  function AfterFirst(plan: Plan): Findings {
    JoinedAll(plan.start, JoinsOf(plan.first, None))
  }

  /** The RPM facts the first wave leaves. */
  function Context(plan: Plan): Option<RpmState> {
    ContextOf(AfterFirst(plan))
  }

  function Joins1(plan: Plan): seq<Join> {
    JoinsOf(plan.first, None)
  }

  function Joins2(plan: Plan): seq<Join> {
    JoinsOf(plan.second, Context(plan))
  }

  predicate IsLive(job: Job) {
    job.Spawned? || job.Running? || job.Ended?
  }

  predicate IsUnderWay(job: Job) {
    job.Running? || job.Ended?
  }

  /** First-wave threads are spawned in order, then joined in order, and are all gone after. */
  ghost predicate FirstInv(plan: Plan, s: State) {
    && |s.first| == |plan.first|
    && (forall i :: 0 <= i < |s.first| && s.first[i].Ended? ==> s.first[i].result == plan.first[i].inspect(None))
    && match s.phase
       case Spawn1(k) => k <= |s.first| && forall i :: 0 <= i < |s.first| ==> if i < k then IsLive(s.first[i])
         else s.first[i].Waiting?
       case Join1(k) => k <= |s.first| && forall i :: 0 <= i < |s.first| ==> if i < k then s.first[i].Gone?
         else IsLive(s.first[i])
       case _ => forall i :: 0 <= i < |s.first| ==> s.first[i].Gone?
  }

  /** Second-wave threads: the spawned ones are a prefix, which falls short only of a
      cancelled run, and they read the facts the first wave left. */
  ghost predicate SecondInv(plan: Plan, s: State) {
    var n := |s.handles|;
    && |s.second| == |plan.second| && n <= |s.second|
    && (forall i :: 0 <= i < n ==> s.handles[i] == i)
    && (forall i :: n <= i < |s.second| ==> s.second[i].Waiting?)
    && (forall i :: 0 <= i < |s.second| && s.second[i].Ended? ==>
      s.second[i].result == plan.second[i].inspect(Context(plan)))
    && match s.phase
       case Spawn2(k) =>
         s.context == Context(plan) && n <= k <= |s.second| && (n < k ==> s.cancelled) && forall i :: 0 <= i < n ==>
           IsUnderWay(s.second[i])
       case Join2(k) =>
         s.context == Context(plan) && k <= n && (n < |s.second| ==> s.cancelled)
         && forall i :: 0 <= i < n ==> if i < k then s.second[i].Gone? else IsUnderWay(s.second[i])
       case Over =>
         (n < |s.second| ==> s.cancelled) && forall i :: 0 <= i < n ==> s.second[i].Gone?
       case _ => n == 0
  }

  /** What has been folded in so far, in list order whatever the threads did. */
  ghost predicate FindingsInv(plan: Plan, s: State) {
    match s.phase
    case Spawn1(_) => s.findings == plan.start
    case Join1(k) => k <= |plan.first| && s.findings == JoinedAll(plan.start, Joins1(plan)[..k])
    case Join2(k) => k <= |plan.second| && s.findings == JoinedAll(AfterFirst(plan), Joins2(plan)[..k])
    case Over => |s.handles| <= |plan.second| && s.findings == JoinedAll(AfterFirst(plan), Joins2(plan)[..|s.handles|])
    case _ => s.findings == AfterFirst(plan)
  }

  ghost predicate Inv(plan: Plan, s: State) {
    FirstInv(plan, s) && SecondInv(plan, s) && FindingsInv(plan, s)
  }

  lemma InitInv(plan: Plan)
    ensures Inv(plan, Init(plan))
  {
  }

  lemma FirstKept(plan: Plan, s: State, m: Move)
    requires Enabled(plan, s, m) && FirstInv(plan, s)
    ensures FirstInv(plan, Next(plan, s, m))
  {
    hide Joined;
  }

  lemma SecondKept(plan: Plan, s: State, m: Move)
    requires Enabled(plan, s, m) && Inv(plan, s)
    ensures SecondInv(plan, Next(plan, s, m))
  {
    hide Joined, JoinedAll, JoinsOf, ContextOf, FirstInv;
    if m.Main? {
      hide SecondInv;
      SecondKeptByMain(plan, s);
    }
  }

  lemma SecondKeptByMain(plan: Plan, s: State)
    requires Enabled(plan, s, Main) && Inv(plan, s)
    ensures SecondInv(plan, MainNext(plan, s))
  {
    hide Joined, JoinedAll, JoinsOf, ContextOf, FirstInv;
  }

  lemma FindingsKept(plan: Plan, s: State, m: Move)
    requires Enabled(plan, s, m) && Inv(plan, s)
    ensures FindingsInv(plan, Next(plan, s, m))
  {
    hide Joined, ContextOf;
    assert Joins1(plan)[..0] == [] && Joins2(plan)[..0] == [] && Joins1(plan)[..|plan.first|] == Joins1(plan);
    if m.Main? {
      if s.phase.Join1? && s.phase.k < |plan.first| {
        assert Joins1(plan)[..s.phase.k + 1][..s.phase.k] == Joins1(plan)[..s.phase.k];
      }
      if s.phase.Join2? && s.phase.k < |s.handles| {
        assert Joins2(plan)[..s.phase.k + 1][..s.phase.k] == Joins2(plan)[..s.phase.k];
      }
    }
  }

  lemma {:induction false} EveryScheduleKeeps(plan: Plan, moves: seq<Move>)
    ensures After(plan, moves).Some? ==> Inv(plan, After(plan, moves).value)
  {
    hide Inv, Next, Enabled;
    InitInv(plan);
    if moves != [] && After(plan, moves).Some? {
      var n := |moves| - 1;
      EveryScheduleKeeps(plan, moves[..n]);
      StepKeeps(plan, After(plan, moves[..n]).value, moves[n]);
    }
  }

  lemma StepKeeps(plan: Plan, s: State, m: Move)
    requires Enabled(plan, s, m) && Inv(plan, s)
    ensures Inv(plan, Next(plan, s, m))
  {
    hide Next, Enabled, FirstInv, SecondInv, FindingsInv;
    FirstKept(plan, s, m);
    SecondKept(plan, s, m);
    FindingsKept(plan, s, m);
  }

  // ----- Schedules do not show -----

  /** However the threads interleave, a finished run leaves what the run in list order leaves:
      all of the first wave, then the part of the second that was spawned. */
  lemma InterleavingDoesNotShow(plan: Plan, moves: seq<Move>)
    requires After(plan, moves).Some? && After(plan, moves).value.phase.Over?
    ensures var s := After(plan, moves).value;
            |s.handles| <= |plan.second| && s.findings == InOrder(plan.start, plan.first, plan.second, |s.handles|)
  {
    hide After, Joined;
    EveryScheduleKeeps(plan, moves);
    var n := |After(plan, moves).value.handles|;
    assert JoinsOf(plan.second[..n], Context(plan)) == Joins2(plan)[..n];
  }

  /** Without cancellation the outcome is one and the same for every schedule. */
  lemma UncancelledRunsAgree(plan: Plan, moves: seq<Move>, moves': seq<Move>)
    requires After(plan, moves).Some? && After(plan, moves).value.phase.Over? && !After(plan, moves).value.cancelled
    requires After(plan, moves').Some? && After(plan, moves').value.phase.Over? && !After(plan, moves').value.cancelled
    ensures After(plan, moves).value.findings == After(plan, moves').value.findings
  {
    hide After, InOrder;
    EveryScheduleKeeps(plan, moves);
    EveryScheduleKeeps(plan, moves');
    InterleavingDoesNotShow(plan, moves);
    InterleavingDoesNotShow(plan, moves');
  }

  /** At every moment: no second-wave thread exists before every first-wave thread is joined;
      those spawned are a prefix of the second wave; each reads RPM facts exactly when the
      first wave brought RPM data. */
  lemma SecondWaveWaits(plan: Plan, moves: seq<Move>, j: nat)
    requires After(plan, moves).Some? && j < |plan.second| && !plan.start.rpmPopulated
    ensures var s := After(plan, moves).value;
            && |s.second| == |plan.second| && |s.first| == |plan.first|
            && (!s.second[j].Waiting? <==> j < |s.handles|)
            && (j < |s.handles| ==> forall i :: 0 <= i < |s.first| ==> s.first[i].Gone?)
            && (s.second[j].Running? ==> (s.context.Some? <==> exists i :: BringsRpm(plan, i)))
  {
    hide After, JoinedAll, ContextOf, RpmOf;
    EveryScheduleKeeps(plan, moves);
    ContextTells(plan);
  }

  ghost predicate BringsRpm(plan: Plan, i: nat) {
    i < |plan.first| && RpmOf(plan.first[i].id, plan.first[i].inspect(None)).Some?
  }

  lemma ContextTells(plan: Plan)
    requires !plan.start.rpmPopulated
    ensures Context(plan).Some? <==> exists i :: BringsRpm(plan, i)
  {
    hide JoinedAll, ContextOf, RpmOf;
    var joins := Joins1(plan);
    ContextIsExact(plan.start, joins);
    forall i: nat
      ensures BringsRpm(plan, i) <==> i < |joins| && RpmOf(joins[i].id, joins[i].result).Some?
    {
    }
    if i: nat :| BringsRpm(plan, i) {
      assert RpmOf(joins[i].id, joins[i].result).Some?;
    }
  }

  /** A finished run has kept every hint and warning, and listed every failure and degradation,
      of all of the first wave and of the started part of the second, in list order. */
  lemma FinishedRunKeepsAll(plan: Plan, moves: seq<Move>)
    requires After(plan, moves).Some? && After(plan, moves).value.phase.Over?
    ensures var s := After(plan, moves).value;
            && |s.handles| <= |plan.second|
            && var joins := JoinsOf(plan.first, None) + JoinsOf(plan.second[..|s.handles|], Context(plan));
               && s.findings.hints == plan.start.hints + HintsOf(joins)
               && s.findings.warnings == plan.start.warnings + WarningsOf(joins)
               && s.findings.failed == plan.start.failed + IdsOf(Filter(joins, FailedJoin()))
               && s.findings.degraded == plan.start.degraded + IdsOf(Filter(joins, DegradedJoin()))
  {
    hide After, JoinedAll, ContextOf, HintsOf, WarningsOf, IdsOf;
    InterleavingDoesNotShow(plan, moves);
    var n := |After(plan, moves).value.handles|;
    var a, b := Joins1(plan), JoinsOf(plan.second[..n], Context(plan));
    JoinedInTwo(plan.start, a, b);
    HintsAndWarningsInOrder(plan.start, a + b);
    ListsInOrder(plan.start, a + b);
  }

  // ----- Completeness -----

  predicate IsClean(r: Result) {
    r.Complete? || r.Skipped?
  }

  lemma {:induction false} JoinedInTwo(f: Findings, a: seq<Join>, b: seq<Join>)
    ensures JoinedAll(f, a + b) == JoinedAll(JoinedAll(f, a), b)
  {
    hide Joined;
    if b == [] {
      assert a + b == a;
    } else {
      JoinedInTwo(f, a, b[..|b| - 1]);
      assert (a + b)[..|a + b| - 1] == a + b[..|b| - 1];
    }
  }

  /** A finished run reports a complete snapshot exactly when every inspector it started came
      back complete or skipped; what cancellation kept from starting does not count. */
  lemma CompletenessIsOfTheStarted(plan: Plan, moves: seq<Move>)
    requires After(plan, moves).Some? && After(plan, moves).value.phase.Over?
    requires plan.start.failed == [] && plan.start.degraded == []
    ensures var s := After(plan, moves).value;
            && |s.handles| <= |plan.second|
            && (CompletenessOf(s.findings) == AllComplete <==>
                  (forall i :: 0 <= i < |plan.first| ==> IsClean(plan.first[i].inspect(None)))
                  && (forall j :: 0 <= j < |s.handles| ==> IsClean(plan.second[j].inspect(Context(plan)))))
  {
    hide After, JoinedAll, CompletenessOf, ContextOf;
    InterleavingDoesNotShow(plan, moves);
    var n := |After(plan, moves).value.handles|;
    var a, b := Joins1(plan), JoinsOf(plan.second[..n], Context(plan));
    JoinedInTwo(plan.start, a, b);
    CompleteMeansCleanJoins(a + b, plan.start);
    assert forall i :: 0 <= i < |a| ==> (a + b)[i] == Join(plan.first[i].id, plan.first[i].inspect(None));
    assert forall j :: 0 <= j < |b| ==>
      (a + b)[|a| + j] == Join(plan.second[j].id, plan.second[j].inspect(Context(plan)));
    assert forall k :: |a| <= k < |a + b| ==> (a + b)[k] == b[k - |a|];
  }

  /** So a run cancelled before its second wave, with inspectors left unstarted, can be
      reported complete. */
  lemma CancelledRunCanBeComplete(later: Inspector)
    ensures var run := After(Plan([], [later], NO_FINDINGS), [Cancel, Main, Main, Main]);
            run.Some? && run.value.phase.Over? && run.value.handles == []
              && CompletenessOf(run.value.findings) == AllComplete
  {
    var plan := Plan([], [later], NO_FINDINGS);
    var s0 := Init(plan);
    assert [Cancel, Main, Main, Main][..3] == [Cancel, Main, Main] && [Cancel, Main, Main][..2] == [Cancel, Main];
    assert [Cancel, Main][..1] == [Cancel] && [Cancel][..0] == [];
    assert After(plan, []) == Some(s0);
    assert After(plan, [Cancel]) == Some(s0.(cancelled := true));
    assert After(plan, [Cancel, Main]) == Some(s0.(cancelled := true, phase := Join1(0)));
    assert After(plan, [Cancel, Main, Main]) == Some(s0.(cancelled := true, phase := Gate));
  }
}
