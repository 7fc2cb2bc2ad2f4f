/** Appending one op to a timeline, and the drop-in rule that survives every single-op run at
    every cursor position. */
module Safety {
  import opened Types
  import opened RepoIndex
  import opened Replay
  import opened ClosedForms
  import opened SessionState
  import opened Session
  import opened Runs
  import Uploads

  // ----- One more op -----

  lemma ActiveOpsSnoc(entries: seq<Entry>, entry: Entry)
    ensures ActiveOps(entries + [entry]) == ActiveOps(entries) + OpsOf(entry)
  {
    assert (entries + [entry])[..|entries|] == entries;
  }

  lemma {:induction false} LastOfConcat(ws: seq<Option<bool>>, vs: seq<Option<bool>>)
    ensures LastOf(ws + vs) == if LastOf(vs).Some? then LastOf(vs) else LastOf(ws)
  {
    hide IsLast, AllNone;
    if vs == [] {
      assert ws + vs == ws;
    } else {
      var n := |vs| - 1;
      LastOfConcat(ws, vs[..n]);
      assert (ws + vs)[..|ws| + n] == ws + vs[..n];
    }
  }

  /** Slots whose writes do not depend on which sections end up excluded. */
  predicate IsPlain(slot: Slot) {
    !slot.RepoFileSlot? && !slot.GpgKeySlot?
  }

  /** What the ops of one entry write to a plain slot. */
  ghost function EntryWrites(orig: Snapshot, idx: Index, ops: seq<Op>, slot: Slot): (ws: seq<Option<bool>>)
    requires HasSlot(orig, slot)
  {
    Writes(orig, idx, {}, ops, slot)
  }

  /** What one more entry does to a slot's projected disposition. */
  lemma AppendEntry(orig: Snapshot, idx: Index, entries: seq<Entry>, entry: Entry, slot: Slot)
    requires HasSlot(orig, slot) && IsPlain(slot)
    ensures Disposition(Projection(orig, idx, entries + [entry]), slot) ==
            if Locked(orig, slot) then Actionable(false)
            else Write(slot, Disposition(Projection(orig, idx, entries), slot),
              LastOf(EntryWrites(orig, idx, OpsOf(entry), slot)))
  {
    hide Projection, WriteOf, SameFrame, EntryWrites;
    var more := entries + [entry];
    LastWriteDecides(orig, idx, entries, slot);
    LastWriteDecides(orig, idx, more, slot);
    ActiveWritesConcat(orig, idx, entries, entry, slot);
    LastOfConcat(ActiveWrites(orig, idx, entries, slot), EntryWrites(orig, idx, OpsOf(entry), slot));
  }

  lemma ActiveWritesConcat(orig: Snapshot, idx: Index, entries: seq<Entry>, entry: Entry, slot: Slot)
    requires HasSlot(orig, slot) && IsPlain(slot)
    ensures ActiveWrites(orig, idx, entries + [entry], slot) ==
            ActiveWrites(orig, idx, entries, slot) + EntryWrites(orig, idx, OpsOf(entry), slot)
  {
    hide WriteOf, ActiveOps, ExcludedSections;
    ActiveOpsSnoc(entries, entry);
    forall o, e, e'
      ensures WriteOf(orig, idx, e, o, slot) == WriteOf(orig, idx, e', o, slot)
    {
      PlainWrite(orig, idx, e, e', o, slot);
    }
  }

  /** What recording one more single op does. */
  lemma AppendOp(orig: Snapshot, idx: Index, entries: seq<Entry>, op: Op, slot: Slot)
    requires HasSlot(orig, slot) && IsPlain(slot)
    ensures Disposition(Projection(orig, idx, entries + [Single(op)]), slot) ==
            if Locked(orig, slot) then Actionable(false)
            else Write(slot, Disposition(Projection(orig, idx, entries), slot), WriteOf(orig, idx, {}, op, slot))
  {
    hide Projection, WriteOf, SameFrame;
    AppendEntry(orig, idx, entries, Single(op), slot);
    var w := WriteOf(orig, idx, {}, op, slot);
    assert EntryWrites(orig, idx, [op], slot) == [] + [w];
    LastOfConcat([], [w]);
    assert [w][..0] == [] && LastOf([w]) == if w.Some? then w else LastOf([]);
  }

  lemma PlainWrite(orig: Snapshot, idx: Index, excluded: set<RepoId>, excluded': set<RepoId>, op: Op, slot: Slot)
    requires HasSlot(orig, slot) && IsPlain(slot)
    ensures WriteOf(orig, idx, excluded, op, slot) == WriteOf(orig, idx, excluded', op, slot)
  {
  }

  // ----- The rule -----

  predicate IsExcludedRow(r: ServiceRow) {
    r.disposition == Actionable(false)
  }

  /** No included drop-in belongs to a unit with an explicitly excluded row. */
  ghost predicate DropInsFollowUnits(snap: Snapshot) {
    forall d, r :: 0 <= d < |snap.dropIns| && 0 <= r < |snap.rows| && snap.dropIns[d].unit == snap.rows[r].unit
      ==> !(snap.dropIns[d].disposition.IsIncluded() && IsExcludedRow(snap.rows[r]))
  }

  /** A row that is not the first of its unit is out of reach of every op; none is excluded. */
  ghost predicate ShadowedRowsOpen(orig: Snapshot) {
    forall r :: 0 <= r < |orig.rows| && !IsFirst(orig.rows, UnitKey(orig.rows[r].unit), r) ==>
      !orig.rows[r].locked && !IsExcludedRow(orig.rows[r])
  }

  ghost predicate SafeAt(s: State, p: nat)
    requires p <= |s.timeline|
  {
    DropInsFollowUnits(Projection(s.original, s.index, s.timeline[..p]))
  }

  /** The rule holds wherever undo and redo can put the cursor. */
  ghost predicate SafeEverywhere(s: State) {
    ShadowedRowsOpen(s.original) && forall p :: 0 <= p <= |s.timeline| ==> SafeAt(s, p)
  }

  // ----- One accepted op -----

  lemma ShadowedRowsStayOpen(orig: Snapshot, idx: Index, entries: seq<Entry>, r: nat)
    requires ShadowedRowsOpen(orig) && r < |orig.rows| && !IsFirst(orig.rows, UnitKey(orig.rows[r].unit), r)
    ensures !IsExcludedRow(Projection(orig, idx, entries).rows[r])
  {
    LastWriteDecides(orig, idx, entries, RowSlot(r));
    var ws := ActiveWrites(orig, idx, entries, RowSlot(r));
    assert AllNone(ws);
  }

  lemma ServiceOpIsSafe(orig: Snapshot, idx: Index, entries: seq<Entry>, op: Op, d: nat, r: nat)
    requires op.item.ServiceItem? && !Skipped(orig, op) && ShadowedRowsOpen(orig)
    requires DropInsFollowUnits(Projection(orig, idx, entries))
    requires d < |orig.dropIns| && r < |orig.rows| && orig.dropIns[d].unit == orig.rows[r].unit
    ensures var next := Projection(orig, idx, entries + [Single(op)]);
            !(next.dropIns[d].disposition.IsIncluded() && IsExcludedRow(next.rows[r]))
  {
    var now := Projection(orig, idx, entries);
    assert now.dropIns[d].unit == now.rows[r].unit;
    AppendOp(orig, idx, entries, op, DropInSlot(d));
    AppendOp(orig, idx, entries, op, RowSlot(r));
    if orig.dropIns[d].unit == op.item.unit {
      if !IsFirst(orig.rows, UnitKey(op.item.unit), r) {
        ShadowedRowsStayOpen(orig, idx, entries + [Single(op)], r);
      } else if op.keep {
        assert !orig.rows[r].locked;
      }
    }
  }

  lemma DropInOpIsSafe(orig: Snapshot, idx: Index, entries: seq<Entry>, op: Op, d: nat, r: nat)
    requires op.item.DropInItem? && DropInsFollowUnits(Projection(orig, idx, entries))
    requires op.keep ==> !ParentExcluded(Projection(orig, idx, entries), op.item.path)
    requires d < |orig.dropIns| && r < |orig.rows| && orig.dropIns[d].unit == orig.rows[r].unit
    ensures var next := Projection(orig, idx, entries + [Single(op)]);
            !(next.dropIns[d].disposition.IsIncluded() && IsExcludedRow(next.rows[r]))
  {
    var now := Projection(orig, idx, entries);
    var key := DropInKey(op.item.path);
    assert now.dropIns[d].unit == now.rows[r].unit;
    AppendOp(orig, idx, entries, op, DropInSlot(d));
    AppendOp(orig, idx, entries, op, RowSlot(r));
    assert forall j :: 0 <= j < |now.dropIns| ==> key(now.dropIns[j]) == key(orig.dropIns[j]);
    assert IsFirst(orig.dropIns, key, d) <==> IsFirst(now.dropIns, key, d);
  }

  lemma OtherOpIsSafe(orig: Snapshot, idx: Index, entries: seq<Entry>, op: Op, d: nat, r: nat)
    requires !op.item.ServiceItem? && !op.item.DropInItem? && DropInsFollowUnits(Projection(orig, idx, entries))
    requires d < |orig.dropIns| && r < |orig.rows| && orig.dropIns[d].unit == orig.rows[r].unit
    ensures var next := Projection(orig, idx, entries + [Single(op)]);
            !(next.dropIns[d].disposition.IsIncluded() && IsExcludedRow(next.rows[r]))
  {
    var now := Projection(orig, idx, entries);
    assert now.dropIns[d].unit == now.rows[r].unit;
    AppendOp(orig, idx, entries, op, DropInSlot(d));
    AppendOp(orig, idx, entries, op, RowSlot(r));
  }

  lemma AcceptedOpIsSafe(s: State, op: Op)
    requires s.cursor <= |s.timeline| && SafeEverywhere(s)
    requires op.item.DropInItem? && op.keep ==> !ParentExcluded(Projected(s), op.item.path)
    requires !Skipped(s.original, op)
    ensures DropInsFollowUnits(Projection(s.original, s.index, Active(s) + [Single(op)]))
  {
    hide Projection, ApplyOps, TargetError;
    assert SafeAt(s, s.cursor);
    var next := Projection(s.original, s.index, Active(s) + [Single(op)]);
    forall d, r | 0 <= d < |next.dropIns| && 0 <= r < |next.rows| && next.dropIns[d].unit == next.rows[r].unit
      ensures !(next.dropIns[d].disposition.IsIncluded() && IsExcludedRow(next.rows[r]))
    {
      if op.item.ServiceItem? {
        ServiceOpIsSafe(s.original, s.index, Active(s), op, d, r);
      } else if op.item.DropInItem? {
        DropInOpIsSafe(s.original, s.index, Active(s), op, d, r);
      } else {
        OtherOpIsSafe(s.original, s.index, Active(s), op, d, r);
      }
    }
  }

  // ----- Every step, every run -----

  /** A recorded entry keeps every earlier prefix and adds one. */
  lemma RecordIsSafe(s: State, entry: Entry)
    requires s.cursor <= |s.timeline| && SafeEverywhere(s)
    requires DropInsFollowUnits(Projection(s.original, s.index, Active(s) + [entry]))
    ensures SafeEverywhere(Record(s, entry))
  {
    hide Projection, DropInsFollowUnits;
    var t := Record(s, entry);
    forall p | 0 <= p <= |t.timeline|
      ensures SafeAt(t, p)
    {
      if p <= s.cursor {
        assert t.timeline[..p] == s.timeline[..p];
        assert SafeAt(s, p);
      } else {
        assert t.timeline[..p] == Active(s) + [entry];
      }
    }
  }

  lemma ViewEntryKeepsProjection(orig: Snapshot, idx: Index, entries: seq<Entry>, group: string)
    ensures Projection(orig, idx, entries + [Ungroup(group)]) == Projection(orig, idx, entries)
  {
    hide ApplyOps, Clamp, ExcludedSections, SameFrame, ActiveOps;
    ActiveOpsSnoc(entries, Ungroup(group));
    assert ActiveOps(entries) + [] == ActiveOps(entries);
  }

  lemma ViewEntryIsSafe(s: State, group: string)
    requires s.cursor <= |s.timeline| && SafeEverywhere(s)
    ensures SafeEverywhere(Record(s, Ungroup(group)))
  {
    hide Projection, DropInsFollowUnits;
    assert SafeAt(s, s.cursor);
    ViewEntryKeepsProjection(s.original, s.index, Active(s), group);
    RecordIsSafe(s, Ungroup(group));
  }

  lemma SameDropIns(a: Snapshot, b: Snapshot, idx: Index, entries: seq<Entry>)
    requires SameOriginal(a, b) && DropInsFollowUnits(Projection(a, idx, entries))
    ensures DropInsFollowUnits(Projection(b, idx, entries))
  {
    hide Projection;
    var p, q := Projection(a, idx, entries), Projection(b, idx, entries);
    forall d, r | 0 <= d < |q.dropIns| && 0 <= r < |q.rows| && q.dropIns[d].unit == q.rows[r].unit
      ensures !(q.dropIns[d].disposition.IsIncluded() && IsExcludedRow(q.rows[r]))
    {
      Uploads.UploadsKeepDecisions(a, b, idx, entries, DropInSlot(d));
      Uploads.UploadsKeepDecisions(a, b, idx, entries, RowSlot(r));
      assert p.dropIns[d].unit == p.rows[r].unit;
    }
  }

  lemma UploadIsSafe(s: State, t: State)
    requires SafeEverywhere(s) && IsUploadChange(s, t)
    ensures SafeEverywhere(t)
  {
    hide Projection;
    forall p | 0 <= p <= |t.timeline|
      ensures SafeAt(t, p)
    {
      assert SafeAt(s, p);
      SameDropIns(s.original, t.original, s.index, s.timeline[..p]);
    }
  }

  lemma StepIsSafe(s: State, cmd: Command, t: State)
    requires s.cursor <= |s.timeline| && SafeEverywhere(s) && Step(s, cmd, t) && !cmd.ApplyBatch?
    ensures SafeEverywhere(t)
  {
    hide Projection, DropInsFollowUnits, ShadowedRowsOpen;
    if t != s {
      match cmd {
        case ApplyOp(op) =>
          AcceptedOpIsSafe(s, op);
          RecordIsSafe(s, Single(op));
        case ApplyDirective(g) =>
          ViewEntryIsSafe(s, g);
        case SetUploaded(c, p, v) =>
          UploadShape(s, c, p, v, t);
          UploadIsSafe(s, t);
        case UnmarkUploaded(n, a, ok) =>
          var r :| IsUnmark(s, n, a, ok, t, r);
          UnmarkShape(s, n, a, ok, t, r);
          UploadIsSafe(s, t);
        case _ =>
          MoveIsSafe(s, t);
      }
    }
  }

  lemma MoveIsSafe(s: State, t: State)
    requires SafeEverywhere(s) && (IsCursorMove(s, t) || IsReset(s, t))
    ensures SafeEverywhere(t)
  {
    hide Projection, DropInsFollowUnits, ShadowedRowsOpen;
    forall p | 0 <= p <= |t.timeline|
      ensures SafeAt(t, p)
    {
      assert SafeAt(s, p);
      assert t.timeline[..p] == s.timeline[..p];
    }
  }

  /** From a start state that meets the rule, every run without batches meets it at every
      prefix of the timeline, so at every cursor position undo and redo can reach. */
  lemma {:induction false} RunIsSafe(states: seq<State>, cmds: seq<Command>, n: nat)
    requires IsRun(states, cmds) && n < |states|
    requires states[0].timeline == [] && ShadowedRowsOpen(states[0].original)
    requires DropInsFollowUnits(Clamp(states[0].original))
    requires forall k :: 0 <= k < |cmds| ==> !cmds[k].ApplyBatch?
    ensures SafeEverywhere(states[n])
  {
    hide Step, Clamp, DropInsFollowUnits, ShadowedRowsOpen;
    if n == 0 {
      assert states[0].timeline[..0] == [];
    } else {
      RunIsSafe(states, cmds, n - 1);
      StepIsSafe(states[n - 1], cmds[n - 1], states[n]);
    }
  }

  // ----- Batches -----

  /** Op `k` of the batch includes drop-in `d` directly and nothing later in the batch writes it. */
  ghost predicate IsFinalInclude(orig: Snapshot, ops: seq<Op>, k: int, d: int) {
    && 0 <= k < |ops| && 0 <= d < |orig.dropIns|
    && ops[k].keep && ops[k].item.DropInItem?
    && IsFirst(orig.dropIns, DropInKey(ops[k].item.path), d)
    && forall m :: k < m < |ops| ==> DropInWrite(orig, ops[m], d).None?
  }

  /** At the point op `k` comes up in the batch, a single call would have refused it. */
  ghost predicate WouldBeRefused(orig: Snapshot, idx: Index, entries: seq<Entry>, ops: seq<Op>, k: int)
    requires 0 <= k < |ops| && ops[k].item.DropInItem?
  {
    ParentExcluded(Projection(orig, idx, entries + [Batch(ops[..k])]), ops[k].item.path)
  }

  ghost predicate BatchPassesValidation(orig: Snapshot, idx: Index, entries: seq<Entry>, ops: seq<Op>) {
    forall k, d :: IsFinalInclude(orig, ops, k, d) ==> !WouldBeRefused(orig, idx, entries, ops, k)
  }

  /** No service op from `k` on means the unit's rows are settled by then. */
  lemma RowSettled(orig: Snapshot, idx: Index, entries: seq<Entry>, ops: seq<Op>, k: nat, r: nat)
    requires r < |orig.rows| && k <= |ops|
    requires forall m :: k <= m < |ops| ==> RowWrite(orig, ops[m], r).None?
    ensures Projection(orig, idx, entries + [Batch(ops)]).rows[r].disposition ==
            Projection(orig, idx, entries + [Batch(ops[..k])]).rows[r].disposition
  {
    hide Projection, RowWrite, SameFrame;
    var slot := RowSlot(r);
    AppendEntry(orig, idx, entries, Batch(ops), slot);
    AppendEntry(orig, idx, entries, Batch(ops[..k]), slot);
    var ws := EntryWrites(orig, idx, ops, slot);
    assert ws[..k] == EntryWrites(orig, idx, ops[..k], slot);
    assert AllNone(ws[k..]);
    assert ws == ws[..k] + ws[k..];
    LastOfConcat(ws[..k], ws[k..]);
  }

  lemma FinalWriteRules(orig: Snapshot, idx: Index, entries: seq<Entry>, ops: seq<Op>, slot: Slot, k: nat)
    requires HasSlot(orig, slot) && !slot.ConfigSlot? && IsPlain(slot) && !Locked(orig, slot)
    requires k < |ops| && WriteOf(orig, idx, {}, ops[k], slot).Some?
    requires forall m :: k < m < |ops| ==> WriteOf(orig, idx, {}, ops[m], slot).None?
    ensures Disposition(Projection(orig, idx, entries + [Batch(ops)]), slot) ==
            Actionable(WriteOf(orig, idx, {}, ops[k], slot).value)
  {
    hide Projection, WriteOf, SameFrame;
    AppendEntry(orig, idx, entries, Batch(ops), slot);
    LastIsLast(EntryWrites(orig, idx, ops, slot), k);
  }

  lemma UntouchedByBatch(orig: Snapshot, idx: Index, entries: seq<Entry>, ops: seq<Op>, slot: Slot)
    requires HasSlot(orig, slot) && IsPlain(slot)
    requires forall m :: 0 <= m < |ops| ==> WriteOf(orig, idx, {}, ops[m], slot).None?
    ensures Disposition(Projection(orig, idx, entries + [Batch(ops)]), slot) ==
            Disposition(Projection(orig, idx, entries), slot)
  {
    hide Projection, WriteOf, SameFrame;
    AppendEntry(orig, idx, entries, Batch(ops), slot);
    assert AllNone(EntryWrites(orig, idx, ops, slot));
    LastWriteDecides(orig, idx, entries, slot);
  }

  /** A unit's service op writes all its drop-ins, so where no drop-in write comes later,
      no row write does either. */
  lemma RowWritesReachDropIns(orig: Snapshot, op: Op, d: nat, r: nat)
    requires d < |orig.dropIns| && r < |orig.rows| && orig.dropIns[d].unit == orig.rows[r].unit
    ensures DropInWrite(orig, op, d).None? ==> RowWrite(orig, op, r).None?
    ensures op.item.ServiceItem? && IsFirst(orig.rows, UnitKey(orig.rows[r].unit), r) ==>
              DropInWrite(orig, op, d) == RowWrite(orig, op, r)
    ensures DropInWrite(orig, op, d) == Some(true) && op.item.ServiceItem?
            && IsFirst(orig.rows, UnitKey(orig.rows[r].unit), r)
            ==> !orig.rows[r].locked
  {
  }

  /** One drop-in and one row of its unit after a batch that passes validation. */
  lemma ValidatedPairIsSafe(orig: Snapshot, idx: Index, entries: seq<Entry>, ops: seq<Op>, d: nat, r: nat)
    requires ShadowedRowsOpen(orig) && DropInsFollowUnits(Projection(orig, idx, entries))
    requires BatchPassesValidation(orig, idx, entries, ops)
    requires d < |orig.dropIns| && r < |orig.rows| && orig.dropIns[d].unit == orig.rows[r].unit
    ensures var next := Projection(orig, idx, entries + [Batch(ops)]);
            !(next.dropIns[d].disposition.IsIncluded() && IsExcludedRow(next.rows[r]))
  {
    hide Projection, DropInWrite, RowWrite, ShadowedRowsOpen, BatchPassesValidation;
    forall m | 0 <= m < |ops|
      ensures DropInWrite(orig, ops[m], d).None? ==> RowWrite(orig, ops[m], r).None?
    {
      RowWritesReachDropIns(orig, ops[m], d, r);
    }
    var now := Projection(orig, idx, entries);
    AppendEntry(orig, idx, entries, Batch(ops), DropInSlot(d));
    var ws := EntryWrites(orig, idx, ops, DropInSlot(d));
    if AllNone(ws) {
      UntouchedByBatch(orig, idx, entries, ops, DropInSlot(d));
      UntouchedByBatch(orig, idx, entries, ops, RowSlot(r));
      assert now.dropIns[d].unit == now.rows[r].unit;
    } else {
      var m :| 0 <= m < |ws| && ws[m].Some?;
      var k := LastIndex(ws, m);
      if !orig.dropIns[d].locked && ws[k] == Some(true) {
        LastIncludeIsSafe(orig, idx, entries, ops, d, r, k);
      }
    }
  }

  lemma LastIncludeIsSafe(orig: Snapshot, idx: Index, entries: seq<Entry>, ops: seq<Op>, d: nat, r: nat, k: nat)
    requires ShadowedRowsOpen(orig) && BatchPassesValidation(orig, idx, entries, ops)
    requires d < |orig.dropIns| && r < |orig.rows| && orig.dropIns[d].unit == orig.rows[r].unit
    requires k < |ops| && DropInWrite(orig, ops[k], d) == Some(true)
    requires forall m :: k < m < |ops| ==> DropInWrite(orig, ops[m], d).None? && RowWrite(orig, ops[m], r).None?
    ensures !IsExcludedRow(Projection(orig, idx, entries + [Batch(ops)]).rows[r])
  {
    hide Projection, ShadowedRowsOpen, SameFrame, RowWrite;
    RowWritesReachDropIns(orig, ops[k], d, r);
    if !IsFirst(orig.rows, UnitKey(orig.rows[r].unit), r) {
      ShadowedRowsStayOpen(orig, idx, entries + [Batch(ops)], r);
    } else if ops[k].item.ServiceItem? {
      FinalWriteRules(orig, idx, entries, ops, RowSlot(r), k);
    } else {
      assert IsFinalInclude(orig, ops, k, d);
      DropInOpsSpareRows(orig, ops[k], r);
      RowSettled(orig, idx, entries, ops, k, r);
      NotRefusedMeansOpen(orig, idx, entries + [Batch(ops[..k])], ops[k].item.path, d, r);
    }
  }

  lemma DropInOpsSpareRows(orig: Snapshot, op: Op, r: nat)
    requires r < |orig.rows| && op.item.DropInItem?
    ensures RowWrite(orig, op, r).None?
  {
  }

  lemma NotRefusedMeansOpen(orig: Snapshot, idx: Index, entries: seq<Entry>, path: string, d: nat, r: nat)
    requires d < |orig.dropIns| && r < |orig.rows| && orig.dropIns[d].unit == orig.rows[r].unit
    requires IsFirst(orig.dropIns, DropInKey(path), d)
    ensures IsExcludedRow(Projection(orig, idx, entries).rows[r]) ==>
              ParentExcluded(Projection(orig, idx, entries), path)
    ensures ParentExcluded(Projection(orig, idx, entries), path) ==>
              exists q :: 0 <= q < |orig.rows| && orig.rows[q].unit == orig.dropIns[d].unit
                && IsExcludedRow(Projection(orig, idx, entries).rows[q])
  {
    hide Projection;
    var proj, key := Projection(orig, idx, entries), DropInKey(path);
    assert forall j :: 0 <= j < |proj.dropIns| ==> key(proj.dropIns[j]) == key(orig.dropIns[j]);
    assert IsFirst(proj.dropIns, key, d);
    assert proj.rows[r].unit == proj.dropIns[d].unit;
    if ParentExcluded(proj, path) {
      var e, q :| IsFirst(proj.dropIns, key, e) && 0 <= q < |proj.rows|
                  && proj.rows[q].unit == proj.dropIns[e].unit && proj.rows[q].disposition == Actionable(false);
      assert e == d;
      assert IsExcludedRow(proj.rows[q]);
    }
  }

  lemma RefusedIncludeBreaks(orig: Snapshot, idx: Index, entries: seq<Entry>, ops: seq<Op>, k: nat, d: nat)
    requires IsFinalInclude(orig, ops, k, d) && !Skipped(orig, ops[k]) && WouldBeRefused(orig, idx, entries, ops, k)
    ensures !DropInsFollowUnits(Projection(orig, idx, entries + [Batch(ops)]))
  {
    hide Projection, SameFrame;
    var mid := entries + [Batch(ops[..k])];
    var r := ExcludedParentRow(orig, idx, mid, ops[k].item.path, d);
    forall m | k <= m < |ops|
      ensures RowWrite(orig, ops[m], r).None?
    {
      RowWritesReachDropIns(orig, ops[m], d, r);
      if m == k {
        DropInOpsSpareRows(orig, ops[m], r);
      }
    }
    RowSettled(orig, idx, entries, ops, k, r);
    FinalWriteRules(orig, idx, entries, ops, DropInSlot(d), k);
    var next := Projection(orig, idx, entries + [Batch(ops)]);
    FrameLengths(orig, next);
    FrameUnits(orig, next, d, r);
  }

  lemma FrameUnits(a: Snapshot, b: Snapshot, d: nat, r: nat)
    requires SameFrame(a, b) && d < |a.dropIns| && r < |a.rows|
    ensures b.dropIns[d].unit == a.dropIns[d].unit && b.rows[r].unit == a.rows[r].unit
  {
  }

  lemma ExcludedParentRow(orig: Snapshot, idx: Index, entries: seq<Entry>, path: string, d: nat) returns (r: nat)
    requires d < |orig.dropIns| && IsFirst(orig.dropIns, DropInKey(path), d)
    requires ParentExcluded(Projection(orig, idx, entries), path)
    ensures r < |orig.rows| && orig.rows[r].unit == orig.dropIns[d].unit
              && IsExcludedRow(Projection(orig, idx, entries).rows[r])
  {
    hide Projection;
    var proj, key := Projection(orig, idx, entries), DropInKey(path);
    assert forall j :: 0 <= j < |proj.dropIns| ==> key(proj.dropIns[j]) == key(orig.dropIns[j]);
    assert IsFirst(proj.dropIns, key, d);
    var e, q :| IsFirst(proj.dropIns, key, e) && 0 <= q < |proj.rows|
                && proj.rows[q].unit == proj.dropIns[e].unit && proj.rows[q].disposition == Actionable(false);
    assert e == d;
    r := q;
  }

  /** `apply_batch` skips the drop-in check, so a batch can break the rule; it keeps the rule
      exactly when each drop-in it finally includes would have passed that check in its turn. */
  lemma BatchSafetyIsExact(s: State, ops: seq<Op>)
    requires s.cursor <= |s.timeline| && SafeEverywhere(s)
    ensures var kept := BatchOps(s.original, ops);
            kept != [] ==>
              (SafeEverywhere(SessionState.ApplyBatch(s, ops)) <==>
                BatchPassesValidation(s.original, s.index, Active(s), kept))
  {
    hide Projection, ShadowedRowsOpen, SameFrame;
    var kept := BatchOps(s.original, ops);
    BatchOpsUnlocked(s.original, ops);
    if kept != [] {
      var entry := Batch(kept);
      var next := Projection(s.original, s.index, Active(s) + [entry]);
      assert SafeAt(s, s.cursor);
      if BatchPassesValidation(s.original, s.index, Active(s), kept) {
        ValidatedBatchIsSafe(s.original, s.index, Active(s), kept);
        RecordIsSafe(s, entry);
      } else {
        var k, d :| IsFinalInclude(s.original, kept, k, d) && WouldBeRefused(s.original, s.index, Active(s), kept, k);
        RefusedIncludeBreaks(s.original, s.index, Active(s), kept, k, d);
        assert Record(s, entry).timeline[..s.cursor + 1] == Active(s) + [entry];
        assert !SafeAt(Record(s, entry), s.cursor + 1);
      }
    }
  }

  lemma ValidatedBatchIsSafe(orig: Snapshot, idx: Index, entries: seq<Entry>, ops: seq<Op>)
    requires ShadowedRowsOpen(orig) && DropInsFollowUnits(Projection(orig, idx, entries))
    requires BatchPassesValidation(orig, idx, entries, ops)
    ensures DropInsFollowUnits(Projection(orig, idx, entries + [Batch(ops)]))
  {
    hide Projection, ShadowedRowsOpen, BatchPassesValidation, SameFrame;
    var next := Projection(orig, idx, entries + [Batch(ops)]);
    forall d, r | 0 <= d < |next.dropIns| && 0 <= r < |next.rows| && next.dropIns[d].unit == next.rows[r].unit
      ensures !(next.dropIns[d].disposition.IsIncluded() && IsExcludedRow(next.rows[r]))
    {
      assert d < |orig.dropIns| && r < |orig.rows| by {
        FrameLengths(orig, next);
      }
      FrameUnits(orig, next, d, r);
      ValidatedPairIsSafe(orig, idx, entries, ops, d, r);
    }
  }

  lemma FrameLengths(a: Snapshot, b: Snapshot)
    requires SameFrame(a, b)
    ensures |b.dropIns| == |a.dropIns| && |b.rows| == |a.rows|
  {
  }

  /** A batch is not validated: excluding a unit and including its drop-in in one batch breaks
      the rule from a state that met it everywhere. */
  lemma BatchCanBreakTheRule(idx: Index, facts: Facts) returns (s: State, ops: seq<Op>)
    ensures s.timeline == [] && s.cursor == 0 && SafeEverywhere(s)
    ensures !SafeEverywhere(SessionState.ApplyBatch(s, ops))
  {
    var orig := OneUnit(facts);
    s := State(orig, idx, [], 0, 0, map[]);
    FreshUnitIsSafe(s, idx, facts);
    ops := [SetInclude(ServiceItem("a.service"), false), SetInclude(DropInItem("/etc/a.conf"), true)];
    hide Projection, DropInsFollowUnits, ShadowedRowsOpen;
    assert !Skipped(orig, ops[0]) && !Skipped(orig, ops[1]);
    BatchKeepsBoth(orig, ops);
    BatchSafetyIsExact(s, ops);
    assert IsFinalInclude(orig, ops, 1, 0) by {
      assert DropInKey("/etc/a.conf")(orig.dropIns[0]);
    }
    SecondIsRefused(orig, idx, facts, ops);
    assert Active(s) == [];
    assert !BatchPassesValidation(orig, idx, Active(s), ops);
  }

  lemma SecondIsRefused(orig: Snapshot, idx: Index, facts: Facts, ops: seq<Op>)
    requires orig == OneUnit(facts)
    requires ops == [SetInclude(ServiceItem("a.service"), false), SetInclude(DropInItem("/etc/a.conf"), true)]
    ensures WouldBeRefused(orig, idx, [], ops, 1)
  {
    hide Projection;
    var first := ops[..1];
    assert RowWrite(orig, ops[0], 0) == Some(false) by {
      assert IsFirst(orig.rows, UnitKey("a.service"), 0);
    }
    FinalWriteRules(orig, idx, [], first, RowSlot(0), 0);
    assert IsFirst(orig.dropIns, DropInKey("/etc/a.conf"), 0);
    NotRefusedMeansOpen(orig, idx, [] + [Batch(first)], "/etc/a.conf", 0, 0);
  }

  lemma BatchKeepsBoth(orig: Snapshot, ops: seq<Op>)
    requires |ops| == 2 && !Skipped(orig, ops[0]) && !Skipped(orig, ops[1])
    ensures BatchOps(orig, ops) == ops
  {
    hide Skipped;
    assert ops[..1][..0] == [];
    assert BatchOps(orig, ops[..1]) == [ops[0]];
  }

  function OneUnit(facts: Facts): Snapshot {
    Snapshot([], [], [], [], [],
             [ServiceRow("a.service", UnitEnabled, None, None, Actionable(true), false)],
             [DropIn("/etc/a.conf", "a.service", false, Actionable(true), false)],
             facts)
  }

  lemma FreshUnitIsSafe(s: State, idx: Index, facts: Facts)
    requires s == State(OneUnit(facts), idx, [], 0, 0, map[])
    ensures SafeEverywhere(s)
  {
    assert s.timeline[..0] == [];
    assert Projection(s.original, idx, []) == Clamp(s.original);
    assert SafeAt(s, 0);
  }
}
