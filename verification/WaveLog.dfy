/** What observers of a threaded collection see: its progress events, and that it ends. */
module WaveLog {
  import opened Types
  import opened Collect
  import opened Waves

  // ----- Events -----

  function JobOf(s: State, who: Who): Job {
    match who
    case First(i) => if i < |s.first| then s.first[i] else Waiting
    case Second(i) => if i < |s.second| then s.second[i] else Waiting
  }

  function Starts(log: seq<Event>, who: Who): nat {
    if log == [] then 0
    else Starts(log[..|log| - 1], who) + if log[|log| - 1] == Started(who) then 1 else 0
  }

  predicate IsFinish(e: Event, who: Who) {
    e.Finished? && e.who == who
  }

  function Finishes(log: seq<Event>, who: Who): nat {
    if log == [] then 0
    else Finishes(log[..|log| - 1], who) + if IsFinish(log[|log| - 1], who) then 1 else 0
  }

  predicate HasStarted(job: Job) {
    job.Running? || job.Ended? || job.Gone?
  }

  /** A started thread has one start event, a joined one has one finish event, no others. */
  ghost predicate CountsInv(s: State) {
    && (forall who :: Starts(s.log, who) == if HasStarted(JobOf(s, who)) then 1 else 0)
    && (forall who :: Finishes(s.log, who) == if JobOf(s, who).Gone? then 1 else 0)
  }

  /** First-wave finishes stand before second-wave starts, and starts before their finishes. */
  ghost predicate OrderInv(s: State) {
    && (forall p, q ::
          0 <= p < |s.log| && 0 <= q < |s.log| && s.log[p].Started? && s.log[p].who.Second?
          && s.log[q].Finished? && s.log[q].who.First?
          ==> q < p)
    && (forall p, q ::
          0 <= p < |s.log| && 0 <= q < |s.log| && s.log[p].Started? && s.log[q].Finished?
          && s.log[p].who == s.log[q].who
          ==> p < q)
  }

  /** A step logs at most one event: a start of a thread that had not started, or a finish of
      one that had ended. */
  ghost predicate LogStep(s: State, t: State) {
    || (t.log == s.log && forall who ::
      HasStarted(JobOf(t, who)) == HasStarted(JobOf(s, who)) && JobOf(t, who).Gone? == JobOf(s, who).Gone?)
    || (exists who :: IsStartStep(s, t, who))
    || (exists who, r :: IsFinishStep(s, t, who, r))
  }

  ghost predicate SameMarks(s: State, t: State, who: Who) {
    forall other :: other != who ==>
      HasStarted(JobOf(t, other)) == HasStarted(JobOf(s, other)) && JobOf(t, other).Gone? == JobOf(s, other).Gone?
  }

  ghost predicate IsStartStep(s: State, t: State, who: Who) {
    && t.log == s.log + [Started(who)] && SameMarks(s, t, who)
    && !HasStarted(JobOf(s, who)) && IsUnderWay(JobOf(t, who))
    && (who.First? ==> forall j :: !HasStarted(JobOf(s, Second(j))))
  }

  ghost predicate IsFinishStep(s: State, t: State, who: Who, r: Result) {
    && t.log == s.log + [Finished(who, r)] && SameMarks(s, t, who)
    && JobOf(s, who).Ended? && JobOf(t, who).Gone?
    && (who.First? ==> forall j :: !HasStarted(JobOf(s, Second(j))))
  }

  lemma SecondNotStarted(plan: Plan, s: State)
    requires SecondInv(plan, s) && s.handles == []
    ensures forall j :: !HasStarted(JobOf(s, Second(j)))
  {
  }

  lemma StepLogs(plan: Plan, s: State, m: Move)
    requires Enabled(plan, s, m) && Inv(plan, s)
    ensures LogStep(s, Next(plan, s, m))
  {
    hide Joined, FindingsInv, LogStep;
    var t := Next(plan, s, m);
    match m {
      case Cancel => Unlogged(s, t);
      case Begin(i) => BeginLogs(plan, s, i);
      case End1(i) => Unlogged(s, t);
      case End2(i) => Unlogged(s, t);
      case Main => MainLogs(plan, s);
    }
  }

  lemma Unlogged(s: State, t: State)
    requires t.log == s.log && |t.first| == |s.first| && |t.second| == |s.second|
    requires forall i :: 0 <= i < |s.first| ==>
              HasStarted(t.first[i]) == HasStarted(s.first[i]) && t.first[i].Gone? == s.first[i].Gone?
    requires forall i :: 0 <= i < |s.second| ==>
              HasStarted(t.second[i]) == HasStarted(s.second[i]) && t.second[i].Gone? == s.second[i].Gone?
    ensures LogStep(s, t)
  {
  }

  lemma BeginLogs(plan: Plan, s: State, i: nat)
    requires Enabled(plan, s, Begin(i)) && Inv(plan, s)
    ensures LogStep(s, Next(plan, s, Begin(i)))
  {
    hide FindingsInv;
    assert s.handles == [];
    SecondNotStarted(plan, s);
    assert IsStartStep(s, Next(plan, s, Begin(i)), First(i));
  }

  lemma MainLogs(plan: Plan, s: State)
    requires Enabled(plan, s, Main) && Inv(plan, s)
    ensures LogStep(s, MainNext(plan, s))
  {
    hide Joined, FindingsInv, LogStep;
    var t := MainNext(plan, s);
    match s.phase {
      case Spawn1(k) => Unlogged(s, t);
      case Join1(k) =>
        if k < |plan.first| {
          SecondNotStarted(plan, s);
          assert IsFinishStep(s, t, First(k), s.first[k].result);
          FinishLogs(s, t, First(k), s.first[k].result);
        } else {
          Unlogged(s, t);
        }
      case Gate => Unlogged(s, t);
      case Spawn2(k) => Spawn2Logs(plan, s);
      case Join2(k) => Join2Logs(plan, s);
    }
  }

  lemma FinishLogs(s: State, t: State, who: Who, r: Result)
    requires IsFinishStep(s, t, who, r)
    ensures LogStep(s, t)
  {
  }

  lemma Spawn2Logs(plan: Plan, s: State)
    requires Enabled(plan, s, Main) && SecondInv(plan, s) && s.phase.Spawn2?
    ensures LogStep(s, MainNext(plan, s))
  {
    var t, k := MainNext(plan, s), s.phase.k;
    if k < |plan.second| && !s.cancelled {
      assert IsStartStep(s, t, Second(k));
    } else {
      Unlogged(s, t);
    }
  }

  lemma Join2Logs(plan: Plan, s: State)
    requires Enabled(plan, s, Main) && SecondInv(plan, s) && s.phase.Join2?
    ensures LogStep(s, MainNext(plan, s))
  {
    hide Joined;
    var t, k := MainNext(plan, s), s.phase.k;
    if k < |s.handles| {
      assert IsFinishStep(s, t, Second(k), s.second[k].result);
    } else {
      Unlogged(s, t);
    }
  }

  lemma {:induction false} CountsAreMembers(log: seq<Event>, who: Who)
    ensures Starts(log, who) == 0 <==> forall p :: 0 <= p < |log| ==> log[p] != Started(who)
    ensures Finishes(log, who) == 0 <==> forall p :: 0 <= p < |log| ==> !IsFinish(log[p], who)
  {
    if log != [] {
      var n := |log| - 1;
      CountsAreMembers(log[..n], who);
      assert forall p :: 0 <= p < n ==> log[..n][p] == log[p];
    }
  }

  lemma CountOneMore(log: seq<Event>, e: Event)
    ensures forall who :: Starts(log + [e], who) == Starts(log, who) + if e == Started(who) then 1 else 0
    ensures forall who :: Finishes(log + [e], who) == Finishes(log, who) + if IsFinish(e, who) then 1 else 0
  {
    assert (log + [e])[..|log|] == log;
  }

  lemma LogKept(s: State, t: State)
    requires LogStep(s, t) && CountsInv(s) && OrderInv(s)
    ensures CountsInv(t) && OrderInv(t)
  {
    hide Starts, Finishes;
    if who :| IsStartStep(s, t, who) {
      StartKeepsOrder(s, t, who);
      CountOneMore(s.log, Started(who));
      StartKeepsCounts(s, t, who);
    } else if who, r :| IsFinishStep(s, t, who, r) {
      FinishKeepsOrder(s, t, who, r);
      CountOneMore(s.log, Finished(who, r));
      FinishKeepsCounts(s, t, who, r);
    }
  }

  lemma StartKeepsCounts(s: State, t: State, who: Who)
    requires IsStartStep(s, t, who) && CountsInv(s)
    requires forall other :: Starts(t.log, other) == Starts(s.log, other) + if other == who then 1 else 0
    requires forall other :: Finishes(t.log, other) == Finishes(s.log, other)
    ensures CountsInv(t)
  {
    hide Starts, Finishes;
  }

  lemma FinishKeepsCounts(s: State, t: State, who: Who, r: Result)
    requires IsFinishStep(s, t, who, r) && CountsInv(s)
    requires forall other :: Starts(t.log, other) == Starts(s.log, other)
    requires forall other :: Finishes(t.log, other) == Finishes(s.log, other) + if other == who then 1 else 0
    ensures CountsInv(t)
  {
    hide Starts, Finishes;
  }

  lemma StartKeepsOrder(s: State, t: State, who: Who)
    requires IsStartStep(s, t, who) && CountsInv(s) && OrderInv(s)
    ensures OrderInv(t)
  {
    CountsAreMembers(s.log, who);
    assert Finishes(s.log, who) == 0;
    hide JobOf, SameMarks, Starts, Finishes, CountsInv;
    assert forall q :: 0 <= q < |s.log| ==> t.log[q] == s.log[q] && !IsFinish(s.log[q], who);
    assert t.log[|s.log|] == Started(who);
  }

  lemma FinishKeepsOrder(s: State, t: State, who: Who, r: Result)
    requires IsFinishStep(s, t, who, r) && CountsInv(s) && OrderInv(s)
    ensures OrderInv(t)
  {
    if who.First? {
      forall j
        ensures forall p :: 0 <= p < |s.log| ==> s.log[p] != Started(Second(j))
      {
        assert Starts(s.log, Second(j)) == 0;
        CountsAreMembers(s.log, Second(j));
      }
    }
    hide JobOf, SameMarks, Starts, Finishes, CountsInv;
    assert forall q :: 0 <= q < |s.log| ==> t.log[q] == s.log[q];
    assert t.log[|s.log|] == Finished(who, r);
  }

  lemma EmptyLog(plan: Plan)
    ensures CountsInv(Init(plan)) && OrderInv(Init(plan))
  {
  }

  lemma {:induction false} EveryLog(plan: Plan, moves: seq<Move>)
    ensures After(plan, moves).Some? ==> CountsInv(After(plan, moves).value) && OrderInv(After(plan, moves).value)
  {
    hide Next, Enabled, Inv, CountsInv, OrderInv, LogStep;
    if moves == [] {
      EmptyLog(plan);
    } else if After(plan, moves).Some? {
      var n := |moves| - 1;
      EveryLog(plan, moves[..n]);
      EveryScheduleKeeps(plan, moves[..n]);
      var s := After(plan, moves[..n]).value;
      StepLogs(plan, s, moves[n]);
      LogKept(s, Next(plan, s, moves[n]));
    }
  }

  /** What the log of a run shows: every first-wave finish stands before every second-wave
      start; and once the run is over every spawned inspector has exactly one start and one
      finish, in that order, and no other inspector has either. */
  lemma LogIsExact(plan: Plan, moves: seq<Move>)
    requires After(plan, moves).Some?
    ensures OrderInv(After(plan, moves).value)
    ensures var s := After(plan, moves).value;
            s.phase.Over? ==>
              forall who :: Starts(s.log, who) == Finishes(s.log, who) == if WasSpawned(plan, s, who) then 1 else 0
  {
    hide After, Starts, Finishes, OrderInv, FindingsInv;
    EveryScheduleKeeps(plan, moves);
    EveryLog(plan, moves);
  }

  predicate WasSpawned(plan: Plan, s: State, who: Who) {
    match who
    case First(i) => i < |plan.first|
    case Second(i) => i < |s.handles|
  }

  // ----- Every run ends -----

  function Todo(job: Job): nat {
    match job
    case Waiting => 3
    case Spawned => 2
    case Running => 1
    case _ => 0
  }

  function TodoAll(jobs: seq<Job>): nat {
    if jobs == [] then 0 else TodoAll(jobs[..|jobs| - 1]) + Todo(jobs[|jobs| - 1])
  }

  lemma {:induction false} TodoUpdate(jobs: seq<Job>, i: nat, job: Job)
    requires i < |jobs|
    ensures TodoAll(jobs[i := job]) == TodoAll(jobs) - Todo(jobs[i]) + Todo(job)
  {
    var n := |jobs| - 1;
    if i == n {
      assert jobs[i := job][..n] == jobs[..n];
    } else {
      TodoUpdate(jobs[..n], i, job);
      assert jobs[i := job][..n] == jobs[..n][i := job];
    }
  }

  lemma {:induction false} TodoWaiting(jobs: seq<Job>)
    requires forall i :: 0 <= i < |jobs| ==> jobs[i].Waiting?
    ensures TodoAll(jobs) == 3 * |jobs|
  {
    if jobs != [] {
      TodoWaiting(jobs[..|jobs| - 1]);
    }
  }

  /** Moves the collecting thread still has to make, at most. */
  function MainTodo(plan: Plan, phase: Phase): int {
    var f, s := |plan.first|, |plan.second|;
    match phase
    case Spawn1(k) => (f - k) + f + 2 * s + 5
    case Join1(k) => (f - k) + 2 * s + 4
    case Gate => 2 * s + 3
    case Spawn2(k) => (s - k) + s + 2
    case Join2(k) => (s - k) + 1
    case Over => 0
  }

  function Remaining(plan: Plan, s: State): int {
    MainTodo(plan, s.phase) + TodoAll(s.first) + TodoAll(s.second) + if s.cancelled then 0 else 1
  }

  lemma StepShrinks(plan: Plan, s: State, m: Move)
    requires Enabled(plan, s, m) && Inv(plan, s)
    ensures Remaining(plan, Next(plan, s, m)) < Remaining(plan, s)
  {
    hide Joined, TodoAll, FindingsInv;
    match m {
      case Cancel =>
      case Begin(i) => TodoUpdate(s.first, i, Running);
      case End1(i) => TodoUpdate(s.first, i, Next(plan, s, m).first[i]);
      case End2(i) => TodoUpdate(s.second, i, Next(plan, s, m).second[i]);
      case Main => MainShrinks(plan, s);
    }
  }

  lemma MainShrinks(plan: Plan, s: State)
    requires Enabled(plan, s, Main) && Inv(plan, s)
    ensures Remaining(plan, MainNext(plan, s)) < Remaining(plan, s)
  {
    hide Joined, TodoAll, FindingsInv;
    match s.phase {
      case Spawn1(k) => if k < |s.first| { TodoUpdate(s.first, k, Spawned); }
      case Join1(k) => if k < |s.first| { TodoUpdate(s.first, k, Gone); }
      case Gate =>
      case Spawn2(k) => if k < |s.second| { TodoUpdate(s.second, k, Running); }
      case Join2(k) => if k < |s.handles| { TodoUpdate(s.second, k, Gone); }
    }
  }

  /** No schedule is longer than five moves an inspector and a few more. */
  lemma {:induction false} RunsAreBounded(plan: Plan, moves: seq<Move>)
    requires After(plan, moves).Some?
    ensures |moves| + Remaining(plan, After(plan, moves).value) <= 5 * (|plan.first| + |plan.second|) + 6
    ensures |moves| <= 5 * (|plan.first| + |plan.second|) + 6
  {
    hide Next, Enabled, Inv, Remaining;
    EveryScheduleKeeps(plan, moves);
    if moves == [] {
      StartRemaining(plan);
    } else {
      var n := |moves| - 1;
      RunsAreBounded(plan, moves[..n]);
      EveryScheduleKeeps(plan, moves[..n]);
      StepShrinks(plan, After(plan, moves[..n]).value, moves[n]);
    }
    RemainingIsNat(plan, After(plan, moves).value);
  }

  lemma StartRemaining(plan: Plan)
    ensures Remaining(plan, Init(plan)) == 5 * (|plan.first| + |plan.second|) + 6
  {
    TodoWaiting(Init(plan).first);
    TodoWaiting(Init(plan).second);
  }

  lemma RemainingIsNat(plan: Plan, s: State)
    requires Inv(plan, s)
    ensures Remaining(plan, s) >= 0
  {
  }

  /** A run that is not over can always go on without outside help, so with the bound above
      every run that keeps moving reaches its end. */
  lemma NeverStuck(plan: Plan, moves: seq<Move>)
    requires After(plan, moves).Some? && !After(plan, moves).value.phase.Over?
    ensures exists m :: m != Cancel && After(plan, moves + [m]).Some?
  {
    hide FindingsInv;
    var s := After(plan, moves).value;
    EveryScheduleKeeps(plan, moves);
    var m := NextMove(plan, s);
    assert (moves + [m])[..|moves|] == moves;
  }

  lemma NextMove(plan: Plan, s: State) returns (m: Move)
    requires Inv(plan, s) && !s.phase.Over?
    ensures m != Cancel && Enabled(plan, s, m)
  {
    hide FindingsInv;
    m := Main;
    if s.phase.Join1? && s.phase.k < |s.first| {
      var k := s.phase.k;
      m := if s.first[k].Spawned? then Begin(k) else if s.first[k].Running? then End1(k) else Main;
    }
    if s.phase.Join2? && s.phase.k < |s.handles| {
      var k := s.phase.k;
      m := if s.second[k].Running? then End2(k) else Main;
    }
  }
}
