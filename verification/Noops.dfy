/** The refusal of group and repo ops that would change nothing is exact. */
module Noops {
  import opened Types
  import opened RepoIndex
  import opened Replay
  import opened ClosedForms
  import opened GroupState
  import opened SessionState
  import opened Views
  import opened Safety

  /** The projection if `op` were recorded now. */
  ghost function AfterOp(s: State, op: Op): Snapshot
    requires s.cursor <= |s.timeline|
  {
    Projection(s.original, s.index, Active(s) + [Single(op)])
  }

  lemma AfterOpIsProjected(s: State, op: Op)
    requires s.cursor <= |s.timeline|
    ensures Projected(Record(s, Single(op))) == AfterOp(s, op)
  {
    assert Active(Record(s, Single(op))) == Active(s) + [Single(op)];
  }

  /** No projected package changes its include state. */
  ghost predicate ChangesNoPackage(now: Snapshot, next: Snapshot)
    requires |now.packages| == |next.packages|
  {
    forall i :: 0 <= i < |now.packages| ==>
      next.packages[i].disposition.IsIncluded() == now.packages[i].disposition.IsIncluded()
  }

  lemma FoldEmpty(s: string)
    ensures Fold(s) == "" <==> s == ""
  {
    assert |Fold(s)| == |s|;
  }

  /** Cascade membership and effective membership are the same thing for unlocked packages. */
  lemma CountedIsWritten(s: State, op: Op, i: nat)
    requires WellFormed(s) && (op.item.GroupItem? || op.item.RepoItem?) && TargetError(s, op).None?
    requires i < |s.original.packages|
    ensures var p := Projected(s).packages[i];
            p in Counted(s, op.item) <==>
              !s.original.packages[i].locked && PackageWrite(s.original, op, i) == Some(op.keep)
  {
    hide Projection, IndexFor, UniquePackages;
    ProjectionKeepsPackages(s.original, s.index, Active(s));
    var p := Projected(s).packages[i];
    assert p == s.original.packages[i].(disposition := p.disposition);
    assert IsEffective(p) <==> !s.original.packages[i].locked;
    if op.item.RepoItem? {
      FoldEmpty(p.sourceRepo);
      FoldEmpty(op.item.section);
    }
  }

  lemma WritesItsFlag(orig: Snapshot, op: Op, i: nat)
    requires i < |orig.packages|
    ensures PackageWrite(orig, op, i) == None || PackageWrite(orig, op, i) == Some(op.keep)
  {
  }

  /** After the op every counted package is at `keep` and every other one is as it was. */
  lemma OpMovesCounted(s: State, op: Op, i: nat)
    requires WellFormed(s) && (op.item.GroupItem? || op.item.RepoItem?) && TargetError(s, op).None?
    requires i < |s.original.packages|
    ensures var now := Projected(s).packages[i];
            var next := AfterOp(s, op).packages[i];
            next.disposition == if now in Counted(s, op.item) then Actionable(op.keep) else now.disposition
  {
    hide Projection, IndexFor, UniquePackages, TargetError, Counted, PackageWrite;
    CountedIsWritten(s, op, i);
    WritesItsFlag(s.original, op, i);
    AppendOp(s.original, s.index, Active(s), op, PackageSlot(i));
    LastWriteDecides(s.original, s.index, Active(s), PackageSlot(i));
  }

  /** A validated group or repo op is refused as a no-op exactly when recording it would leave
      every projected package's include state as it is. */
  lemma NoopRefusalIsExact(s: State, op: Op)
    requires WellFormed(s) && (op.item.GroupItem? || op.item.RepoItem?) && TargetError(s, op).None?
    ensures SessionState.Apply(s, op).1 == Rejected(NoopTarget) <==> ChangesNoPackage(Projected(s), AfterOp(s, op))
    ensures SessionState.Apply(s, op).1 == Done <==> SessionState.Apply(s, op).0 == Record(s, Single(op))
  {
    hide Projection, IndexFor, UniquePackages, TargetError, Counted, AllActionable;
    var now, next := Projected(s), AfterOp(s, op);
    forall i | 0 <= i < |now.packages|
      ensures next.packages[i].disposition == if now.packages[i] in Counted(s, op.item) then Actionable(op.keep)
                else now.packages[i].disposition
    {
      OpMovesCounted(s, op, i);
    }
    assert RefusedAsNoop(s, op) <==> ChangesNoPackage(now, next);
  }

  /** An accepted group or repo op changes an effective member, leaves every effective member
      at the requested value, and is refused when repeated at once. */
  lemma AcceptedOpSettles(s: State, op: Op)
    requires WellFormed(s) && (op.item.GroupItem? || op.item.RepoItem?)
    requires SessionState.Apply(s, op).1 == Done
    ensures var now := Projected(s);
            var next := AfterOp(s, op);
            var t := SessionState.Apply(s, op).0;
            && Projected(t) == next
            && (exists i :: 0 <= i < |now.packages| && now.packages[i] in Counted(s, op.item)
                  && next.packages[i].disposition.IsIncluded() != now.packages[i].disposition.IsIncluded())
            && (forall i :: 0 <= i < |next.packages| && next.packages[i] in Counted(s, op.item) ==>
              next.packages[i].disposition == Actionable(op.keep))
            && SessionState.Apply(t, op).1 == Rejected(NoopTarget)
  {
    hide Projection, IndexFor, UniquePackages, AllActionable, TargetError;
    var now, next := Projected(s), AfterOp(s, op);
    var t := Record(s, Single(op));
    AfterOpIsProjected(s, op);
    forall i | 0 <= i < |now.packages|
      ensures next.packages[i].disposition == if now.packages[i] in Counted(s, op.item) then Actionable(op.keep)
                else now.packages[i].disposition
      ensures next.packages[i] in Counted(s, op.item) <==> now.packages[i] in Counted(s, op.item)
    {
      OpMovesCounted(s, op, i);
      CountedStays(s, op, i);
    }
    TargetErrorStays(s, t, op);
  }

  lemma CountedStays(s: State, op: Op, i: nat)
    requires WellFormed(s) && (op.item.GroupItem? || op.item.RepoItem?) && TargetError(s, op).None?
    requires i < |s.original.packages|
    ensures AfterOp(s, op).packages[i] in Counted(s, op.item) <==> Projected(s).packages[i] in Counted(s, op.item)
  {
    hide Projection, IndexFor, UniquePackages;
    var t := Record(s, Single(op));
    AfterOpIsProjected(s, op);
    CountedIsWritten(s, op, i);
    CountedIsWritten(t, op, i);
  }

  lemma TargetErrorStays(s: State, t: State, op: Op)
    requires s.cursor <= |s.timeline| && t.cursor <= |t.timeline|
    requires s.original == t.original && s.index == t.index && (op.item.GroupItem? || op.item.RepoItem?)
    ensures TargetError(s, op) == TargetError(t, op)
    ensures !Skipped(s.original, op)
  {
  }
}
