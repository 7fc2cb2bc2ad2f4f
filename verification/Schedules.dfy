/** How many second-wave inspectors a run starts, read off its schedule alone. */
module Schedules {
  import opened Types
  import opened Collect
  import opened Waves

  /** Moves of the collecting thread in a schedule. */
  function MainMoves(moves: seq<Move>): nat {
    if moves == [] then 0 else MainMoves(moves[..|moves| - 1]) + if moves[|moves| - 1] == Main then 1 else 0
  }

  /** Moves the collecting thread had made when the cancel flag went up. */
  function CancelledAt(moves: seq<Move>): Option<nat> {
    if moves == [] then None
    else
      var before := CancelledAt(moves[..|moves| - 1]);
      if before.None? && moves[|moves| - 1] == Cancel then Some(MainMoves(moves[..|moves| - 1])) else before
  }

  /** The moves it takes to spawn and join the first wave and pass the gate. */
  function FirstWaveMoves(plan: Plan): nat {
    2 * |plan.first| + 3
  }

  /** Of the first `k` second-wave inspectors, those whose turn comes before the flag. */
  function StartedOf(plan: Plan, cancelled: Option<nat>, k: nat): nat {
    if cancelled.None? then k
    else if cancelled.value < FirstWaveMoves(plan) then 0
    else if cancelled.value - FirstWaveMoves(plan) < k then cancelled.value - FirstWaveMoves(plan)
    else k
  }

  /** The flag stays down until the last second-wave inspector is spawned. */
  predicate EveryoneStarts(plan: Plan, moves: seq<Move>) {
    var cancelled := CancelledAt(moves);
    plan.second == [] || cancelled.None? || cancelled.value >= FirstWaveMoves(plan) + |plan.second|
  }

  /** Where the collecting thread is after `m` moves, with the flag up since `cancelled`. */
  ghost predicate Tracks(plan: Plan, s: State, m: nat, cancelled: Option<nat>) {
    var f, n := |plan.first|, |plan.second|;
    && (s.cancelled <==> cancelled.Some?)
    && (cancelled.Some? ==> cancelled.value <= m)
    && match s.phase
       case Spawn1(k) => k <= f && m == k && s.handles == []
       case Join1(k) => k <= f && m == f + 1 + k && s.handles == []
       case Gate => m == 2 * f + 2 && s.handles == []
       case Spawn2(k) => k <= n && m == FirstWaveMoves(plan) + k && |s.handles| == StartedOf(plan, cancelled, k)
       case Join2(_) => m >= FirstWaveMoves(plan) + n && |s.handles| == StartedOf(plan, cancelled, n)
       case Over => (cancelled.None? ==> m >= FirstWaveMoves(plan) + n) && |s.handles| == StartedOf(plan, cancelled, n)
  }

  lemma TracksOn(plan: Plan, s: State, move: Move, m: nat, cancelled: Option<nat>)
    requires Enabled(plan, s, move) && Tracks(plan, s, m, cancelled)
    ensures Tracks(plan, Next(plan, s, move), if move == Main then m + 1 else m,
                   if cancelled.None? && move == Cancel then Some(m) else cancelled)
  {
    hide Joined, ContextOf;
  }

  lemma {:induction false} EveryScheduleTracks(plan: Plan, moves: seq<Move>)
    ensures After(plan, moves).Some? ==> Tracks(plan, After(plan, moves).value, MainMoves(moves), CancelledAt(moves))
  {
    hide Next, Enabled;
    if moves != [] && After(plan, moves).Some? {
      hide Tracks;
      var n := |moves| - 1;
      EveryScheduleTracks(plan, moves[..n]);
      TracksOn(plan, After(plan, moves[..n]).value, moves[n], MainMoves(moves[..n]), CancelledAt(moves[..n]));
    }
  }

  /** A finished run has started exactly the second-wave inspectors whose turn came before the
      cancel flag went up, and so all of them if and only if the flag came too late. */
  lemma StartedIsExact(plan: Plan, moves: seq<Move>)
    requires After(plan, moves).Some? && After(plan, moves).value.phase.Over?
    ensures var s := After(plan, moves).value;
            && |s.handles| == StartedOf(plan, CancelledAt(moves), |plan.second|)
            && (|s.handles| == |plan.second| <==> EveryoneStarts(plan, moves))
  {
    hide After, CancelledAt, MainMoves;
    EveryScheduleTracks(plan, moves);
  }

  /** What a complete report is worth: every admitted inspector ran and came back clean if and
      only if the report is complete and the cancel flag, if it ever went up, came too late. */
  lemma CompleteReportIsExact(plan: Plan, moves: seq<Move>)
    requires After(plan, moves).Some? && After(plan, moves).value.phase.Over?
    requires plan.start.failed == [] && plan.start.degraded == []
    ensures var s := After(plan, moves).value;
            EveryoneStarts(plan, moves) && CompletenessOf(s.findings) == AllComplete <==>
              |s.handles| == |plan.second|
              && (forall i :: 0 <= i < |plan.first| ==> IsClean(plan.first[i].inspect(None)))
              && (forall j :: 0 <= j < |plan.second| ==> IsClean(plan.second[j].inspect(Context(plan))))
  {
    hide After, EveryoneStarts, CompletenessOf, IsClean;
    StartedIsExact(plan, moves);
    CompletenessIsOfTheStarted(plan, moves);
  }

  /** The outcome of a finished run is settled by the plan and by when the flag went up. */
  lemma OutcomeIsOfTheSchedule(plan: Plan, moves: seq<Move>)
    requires After(plan, moves).Some? && After(plan, moves).value.phase.Over?
    ensures After(plan, moves).value.findings ==
            InOrder(plan.start, plan.first, plan.second, StartedOf(plan, CancelledAt(moves), |plan.second|))
  {
    hide After, InOrder, CancelledAt;
    StartedIsExact(plan, moves);
    InterleavingDoesNotShow(plan, moves);
  }
}
