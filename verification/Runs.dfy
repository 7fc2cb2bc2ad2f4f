/** Runs of the session: any sequence of public calls, and what every such run keeps. */
module Runs {
  import opened Types
  import opened RepoIndex
  import opened Replay
  import opened GroupState
  import opened SessionState
  import opened Views
  import opened Session

  datatype Command =
    | ApplyOp(op: Op)
    | ApplyBatch(ops: seq<Op>)
    | ApplyDirective(group: string)
    | Undo
    | Redo
    | Reset
    | SetUploaded(canonical: string, path: string, version: Option<string>)
    | UnmarkUploaded(name: string, arch: string, fileOk: bool)

  /** Calling `cmd` in state `s` leaves state `t`. */
  ghost predicate Step(s: State, cmd: Command, t: State)
    requires s.cursor <= |s.timeline|
  {
    match cmd
    case ApplyOp(op) => t == SessionState.Apply(s, op).0
    case ApplyBatch(ops) => t == SessionState.ApplyBatch(s, ops)
    case ApplyDirective(g) => t == SessionState.ApplyDirective(s, g).0
    case Undo => t == SessionState.Undo(s).0
    case Redo => t == SessionState.Redo(s).0
    case Reset => t == SessionState.Reset(s).0
    case SetUploaded(c, p, v) => IsSetUploaded(s, c, p, v, t)
    case UnmarkUploaded(n, a, ok) => exists r :: IsUnmark(s, n, a, ok, t, r)
  }

  ghost predicate IsRun(states: seq<State>, cmds: seq<Command>) {
    && |states| == |cmds| + 1
    && (forall k :: 0 <= k < |states| ==> states[k].cursor <= |states[k].timeline|)
    && (forall k :: 0 <= k < |cmds| ==> Step(states[k], cmds[k], states[k + 1]))
  }

  // ----- The four things a step can do -----

  /** Identity fields and decisions of the original survive; uploads touch cache fields only. */
  ghost predicate SameButCache(p: Package, q: Package) {
    q == WithCache(p, CacheOf(q), q.uploaded)
  }

  ghost predicate SameOriginal(a: Snapshot, b: Snapshot) {
    && b == a.(packages := b.packages)
    && |a.packages| == |b.packages|
    && forall i :: 0 <= i < |a.packages| ==> SameButCache(a.packages[i], b.packages[i])
  }

  ghost predicate IsRecorded(s: State, t: State)
    requires s.cursor <= |s.timeline|
  {
    exists entry :: t == Record(s, entry)
  }

  ghost predicate IsCursorMove(s: State, t: State) {
    && t == s.(cursor := t.cursor, generation := s.generation + 1)
    && t.cursor <= |s.timeline|
    && (t.cursor + 1 == s.cursor || t.cursor == s.cursor + 1)
  }

  ghost predicate IsReset(s: State, t: State) {
    t == s.(timeline := [], cursor := 0, generation := s.generation + 1)
  }

  ghost predicate IsUploadChange(s: State, t: State) {
    t == WithPackages(s, t.original.packages, t.priorCache) && SameOriginal(s.original, t.original)
  }

  lemma StepShapes(s: State, cmd: Command, t: State)
    requires s.cursor <= |s.timeline| && Step(s, cmd, t)
    ensures t == s || IsRecorded(s, t) || IsCursorMove(s, t) || IsReset(s, t) || IsUploadChange(s, t)
  {
    match cmd {
      case ApplyOp(op) =>
        assert t != s ==> t == Record(s, Single(op));
      case ApplyBatch(ops) =>
        assert t != s ==> t == Record(s, Batch(BatchOps(s.original, ops)));
      case ApplyDirective(g) =>
        assert t != s ==> t == Record(s, Types.Ungroup(g));
      case SetUploaded(c, p, v) =>
        UploadShape(s, c, p, v, t);
      case UnmarkUploaded(n, a, ok) =>
        var r :| IsUnmark(s, n, a, ok, t, r);
        UnmarkShape(s, n, a, ok, t, r);
      case _ =>
    }
  }

  lemma UploadShape(s: State, canonical: string, path: string, version: Option<string>, t: State)
    requires IsSetUploaded(s, canonical, path, version, t)
    ensures IsUploadChange(s, t)
  {
    var i := FirstExists(s.original.packages, CanonicalKey(canonical));
  }

  lemma UnmarkShape(s: State, name: string, arch: string, fileOk: bool, t: State, r: Removal)
    requires IsUnmark(s, name, arch, fileOk, t, r)
    ensures t == s || IsUploadChange(s, t)
  {
    var i := FirstExists(s.original.packages, PackageKey(name, arch));
  }

  lemma StepKeepsWellFormed(s: State, cmd: Command, t: State)
    requires WellFormed(s) && Step(s, cmd, t)
    ensures WellFormed(t)
  {
    StepShapes(s, cmd, t);
    if IsUploadChange(s, t) {
      UploadKeepsWellFormed(s, t.original.packages, t.priorCache);
    }
  }

  lemma {:induction false} RunStaysWellFormed(states: seq<State>, cmds: seq<Command>, n: nat)
    requires IsRun(states, cmds) && WellFormed(states[0]) && n < |states|
    ensures WellFormed(states[n])
  {
    hide Step, IndexFor, UniquePackages, AllActionable;
    if n > 0 {
      RunStaysWellFormed(states, cmds, n - 1);
      StepKeepsWellFormed(states[n - 1], cmds[n - 1], states[n]);
    }
  }

  lemma SameOriginalTransitive(a: Snapshot, b: Snapshot, c: Snapshot)
    requires SameOriginal(a, b) && SameOriginal(b, c)
    ensures SameOriginal(a, c)
  {
  }

  /** No run changes the original beyond the cache fields of its packages. */
  lemma {:induction false} RunKeepsOriginal(states: seq<State>, cmds: seq<Command>, n: nat)
    requires IsRun(states, cmds) && n < |states|
    ensures SameOriginal(states[0].original, states[n].original)
    ensures states[n].index == states[0].index
  {
    if n > 0 {
      RunKeepsOriginal(states, cmds, n - 1);
      StepShapes(states[n - 1], cmds[n - 1], states[n]);
      SameOriginalTransitive(states[0].original, states[n - 1].original, states[n].original);
    }
  }

  // ----- Generation identifies state -----

  lemma {:induction false} GenerationGrows(states: seq<State>, cmds: seq<Command>, i: nat, j: nat)
    requires IsRun(states, cmds) && i <= j < |states|
    ensures states[i].generation <= states[j].generation
    ensures states[i].generation == states[j].generation ==> states[i] == states[j]
    decreases j
  {
    if i < j {
      GenerationGrows(states, cmds, i, j - 1);
      StepShapes(states[j - 1], cmds[j - 1], states[j]);
    }
  }

  /** Equal generations at two moments of any run mean equal states: same timeline, cursor and
      original, so the same projection. */
  lemma GenerationIdentifiesState(states: seq<State>, cmds: seq<Command>, i: nat, j: nat)
    requires IsRun(states, cmds) && i < |states| && j < |states|
    requires states[i].generation == states[j].generation
    ensures states[i] == states[j]
  {
    if i <= j {
      GenerationGrows(states, cmds, i, j);
    } else {
      GenerationGrows(states, cmds, j, i);
    }
  }

  /** A plan asked for with the generation a caller read off a view is built from exactly the
      projection that view showed. */
  lemma ExportMatchesView(states: seq<State>, cmds: seq<Command>, seen: nat, now: nat, v: View)
    requires IsRun(states, cmds) && seen < |states| && now < |states|
    requires IsViewOf(states[seen], v) && states[now].generation == v.generation
    ensures Projected(states[now]) == Projected(states[seen])
    ensures IsViewOf(states[now], v)
  {
    GenerationIdentifiesState(states, cmds, seen, now);
  }

  // ----- A past/future editor -----

  datatype Editor = Editor(past: seq<Entry>, future: seq<Entry>)

  function EditorOf(s: State): Editor
    requires s.cursor <= |s.timeline|
  {
    Editor(s.timeline[..s.cursor], s.timeline[s.cursor..])
  }

  /** Stay, type (dropping the future), step back, step forward, or clear. */
  ghost predicate EditorStep(a: Editor, b: Editor) {
    || a == b
    || (exists e :: b == Editor(a.past + [e], []))
    || (a.past != [] && b == Editor(a.past[..|a.past| - 1], [a.past[|a.past| - 1]] + a.future))
    || (a.future != [] && b == Editor(a.past + [a.future[0]], a.future[1..]))
    || b == Editor([], [])
  }

  /** Every call is a step of the two-stack editor. */
  lemma StepIsEditorStep(s: State, cmd: Command, t: State)
    requires s.cursor <= |s.timeline| && Step(s, cmd, t)
    ensures t.cursor <= |t.timeline| && EditorStep(EditorOf(s), EditorOf(t))
  {
    StepShapes(s, cmd, t);
    hide Step, SameOriginal, IsUploadChange;
    if IsRecorded(s, t) {
      RecordIsEditorStep(s, t);
    } else if IsCursorMove(s, t) {
      CursorMoveIsEditorStep(s, t);
    } else if IsReset(s, t) {
      assert EditorOf(t) == Editor([], []);
    }
  }

  lemma RecordIsEditorStep(s: State, t: State)
    requires s.cursor <= |s.timeline| && IsRecorded(s, t)
    ensures t.cursor <= |t.timeline| && EditorStep(EditorOf(s), EditorOf(t))
  {
    var entry :| t == Record(s, entry);
    assert EditorOf(t) == Editor(EditorOf(s).past + [entry], []);
  }

  /** Undo and redo are exactly the backward and forward steps. */
  lemma UndoRedoAreEditorSteps(s: State)
    requires s.cursor <= |s.timeline|
    ensures var a := EditorOf(s);
            s.cursor > 0 ==>
              EditorOf(SessionState.Undo(s).0) == Editor(a.past[..|a.past| - 1], [a.past[|a.past| - 1]] + a.future)
    ensures var a := EditorOf(s);
            s.cursor < |s.timeline| ==>
              EditorOf(SessionState.Redo(s).0) == Editor(a.past + [a.future[0]], a.future[1..])
  {
    if s.cursor > 0 {
      CursorMoveIsEditorStep(s, SessionState.Undo(s).0);
    }
    if s.cursor < |s.timeline| {
      CursorMoveIsEditorStep(s, SessionState.Redo(s).0);
    }
  }

  lemma CursorMoveIsEditorStep(s: State, t: State)
    requires s.cursor <= |s.timeline| && IsCursorMove(s, t)
    ensures var a := EditorOf(s);
            EditorOf(t) == if t.cursor < s.cursor then Editor(a.past[..|a.past| - 1], [a.past[|a.past| - 1]] + a.future)
                           else Editor(a.past + [a.future[0]], a.future[1..])
  {
    var a, b := EditorOf(s), EditorOf(t);
    if t.cursor < s.cursor {
      assert b.past == a.past[..|a.past| - 1];
      assert b.future == [a.past[|a.past| - 1]] + a.future;
    } else {
      assert b.past == a.past + [a.future[0]];
      assert b.future == a.future[1..];
    }
  }

  function UndoTimes(s: State, k: nat): State
    decreases k
  {
    if k == 0 then s else UndoTimes(SessionState.Undo(s).0, k - 1)
  }

  function RedoTimes(s: State, k: nat): State
    decreases k
  {
    if k == 0 then s else RedoTimes(SessionState.Redo(s).0, k - 1)
  }

  lemma {:induction false} UndoTimesMoves(s: State, k: nat)
    requires k <= s.cursor
    ensures UndoTimes(s, k) == s.(cursor := s.cursor - k, generation := s.generation + k)
    decreases k
  {
    if k > 0 {
      UndoTimesMoves(SessionState.Undo(s).0, k - 1);
    }
  }

  lemma {:induction false} RedoTimesMoves(s: State, k: nat)
    requires s.cursor + k <= |s.timeline|
    ensures RedoTimes(s, k) == s.(cursor := s.cursor + k, generation := s.generation + k)
    decreases k
  {
    if k > 0 {
      RedoTimesMoves(SessionState.Redo(s).0, k - 1);
    }
  }

  /** `k` undos and then `k` redos change nothing but the generation, which moves by `2k`. */
  lemma UndosThenRedos(s: State, k: nat)
    requires k <= s.cursor <= |s.timeline|
    ensures RedoTimes(UndoTimes(s, k), k) == s.(generation := s.generation + 2 * k)
    ensures Projected(RedoTimes(UndoTimes(s, k), k)) == Projected(s)
  {
    UndoTimesMoves(s, k);
    RedoTimesMoves(UndoTimes(s, k), k);
  }

  /** Whatever a call recorded, one undo brings back the projection from before it; a reset
      projects the clamped original. */
  lemma UndoRestoresProjection(s: State, cmd: Command, t: State)
    requires s.cursor <= |s.timeline| && Step(s, cmd, t) && IsRecorded(s, t)
    ensures Projected(SessionState.Undo(t).0) == Projected(s)
    ensures |t.timeline| == t.cursor
    ensures s.timeline != [] ==> Projected(SessionState.Reset(s).0) == Clamp(s.original)
  {
    var entry :| t == Record(s, entry);
    assert Active(SessionState.Undo(t).0) == Active(s);
  }

  // ----- What never enters a timeline -----

  /** No entry includes a directly locked target, single or batched. */
  ghost predicate NoLockedInclude(orig: Snapshot, timeline: seq<Entry>) {
    forall i, k :: 0 <= i < |timeline| && 0 <= k < |OpsOf(timeline[i])| ==> !Skipped(orig, OpsOf(timeline[i])[k])
  }

  /** No group is dissolved twice. */
  ghost predicate UngroupsOnce(timeline: seq<Entry>) {
    forall i, j :: 0 <= i < j < |timeline| && timeline[i].Ungroup? ==> timeline[j] != timeline[i]
  }

  lemma {:induction false} BatchOpsUnlocked(orig: Snapshot, ops: seq<Op>)
    ensures forall op :: op in BatchOps(orig, ops) ==> op in ops && !Skipped(orig, op)
    ensures forall op :: op in ops && !Skipped(orig, op) ==> op in BatchOps(orig, ops)
  {
    if ops != [] {
      BatchOpsUnlocked(orig, ops[..|ops| - 1]);
      assert ops == ops[..|ops| - 1] + [ops[|ops| - 1]];
    }
  }

  lemma SameOriginalSameLocks(a: Snapshot, b: Snapshot, item: ItemId)
    requires SameOriginal(a, b)
    ensures ItemLocked(a, item) <==> ItemLocked(b, item)
  {
    if item.PackageItem? {
      var key := PackageKey(item.name, item.arch);
      assert forall i :: 0 <= i < |a.packages| ==> key(a.packages[i]) == key(b.packages[i]);
      assert forall i :: IsFirst(a.packages, key, i) <==> IsFirst(b.packages, key, i);
    }
  }

  lemma StepKeepsRecords(s: State, cmd: Command, t: State)
    requires s.cursor <= |s.timeline| && Step(s, cmd, t)
    requires NoLockedInclude(s.original, s.timeline) && UngroupsOnce(s.timeline)
    ensures NoLockedInclude(t.original, t.timeline) && UngroupsOnce(t.timeline)
  {
    match cmd {
      case ApplyOp(op) =>
        if t != s {
          RecordKeeps(s, Single(op));
        }
      case ApplyBatch(ops) =>
        BatchOpsUnlocked(s.original, ops);
        if t != s {
          RecordKeeps(s, Batch(BatchOps(s.original, ops)));
        }
      case ApplyDirective(g) =>
        if t != s {
          RecordKeeps(s, Types.Ungroup(g));
        }
      case SetUploaded(c, p, v) =>
        UploadShape(s, c, p, v, t);
        LocksFollow(s, t);
      case UnmarkUploaded(n, a, ok) =>
        var r :| IsUnmark(s, n, a, ok, t, r);
        UnmarkShape(s, n, a, ok, t, r);
        LocksFollow(s, t);
      case _ =>
    }
  }

  lemma RecordKeeps(s: State, entry: Entry)
    requires s.cursor <= |s.timeline|
    requires NoLockedInclude(s.original, s.timeline) && UngroupsOnce(s.timeline)
    requires forall op :: op in OpsOf(entry) ==> !Skipped(s.original, op)
    requires entry.Ungroup? ==> entry !in Active(s)
    ensures NoLockedInclude(s.original, Record(s, entry).timeline) && UngroupsOnce(Record(s, entry).timeline)
  {
    var timeline := Record(s, entry).timeline;
    assert forall i :: 0 <= i < s.cursor ==> timeline[i] == s.timeline[i] && timeline[i] in Active(s);
  }

  lemma LocksFollow(s: State, t: State)
    requires t == s || IsUploadChange(s, t)
    requires NoLockedInclude(s.original, s.timeline)
    ensures NoLockedInclude(t.original, t.timeline)
  {
    if IsUploadChange(s, t) {
      forall i, k | 0 <= i < |t.timeline| && 0 <= k < |OpsOf(t.timeline[i])|
        ensures !Skipped(t.original, OpsOf(t.timeline[i])[k])
      {
        SameOriginalSameLocks(s.original, t.original, OpsOf(s.timeline[i])[k].item);
      }
    }
  }

  /** From a fresh session, no run of any calls ever records an include of a directly locked
      target or dissolves a group twice, redo tail included. */
  lemma {:induction false} RunRecords(states: seq<State>, cmds: seq<Command>, n: nat)
    requires IsRun(states, cmds) && states[0].timeline == [] && n < |states|
    ensures NoLockedInclude(states[n].original, states[n].timeline) && UngroupsOnce(states[n].timeline)
  {
    hide Step, Skipped;
    if n > 0 {
      RunRecords(states, cmds, n - 1);
      StepKeepsRecords(states[n - 1], cmds[n - 1], states[n]);
    }
  }
}
