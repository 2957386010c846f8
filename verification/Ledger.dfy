/** Notes and reviews over whole runs: every field converges, and what an edit overwrites or drops is kept
    in the conflict ledger exactly when the field has a clock row of another device. */
module Ledger {
  import opened Wrappers
  import opened Text
  import opened Library
  import opened MergeRules
  import opened Lww

  /** An op on note or review `id`. */
  predicate OnAnnotation(op: Op, entity: EntityType, id: Id)
  {
    (entity.NoteEntity? || entity.ReviewEntity?) && op.entity == entity && op.entityId == id
  }

  predicate LiveAt(t: Tables, entity: EntityType, id: Id)
  {
    match entity
    case NoteEntity => id in t.notes && t.notes[id].tombstone.None?
    case ReviewEntity => id in t.reviews && t.reviews[id].tombstone.None?
    case _ => false
  }

  /** The stored value of one field. */
  function LocalCell(t: Tables, entity: EntityType, id: Id, field: Key): Cell
  {
    if entity == NoteEntity && id in t.notes && field == Content then Str(t.notes[id].content)
    else if entity == ReviewEntity && id in t.reviews && field == Content then TextCell(t.reviews[id].content)
    else if entity == ReviewEntity && id in t.reviews && field == Rating then IntCell(t.reviews[id].rating)
    else Nil
  }

  /** The op reaches the field-by-field rule. */
  predicate Edits(t: Tables, op: Op)
  {
    LiveAt(t, op.entity, op.entityId) && op.opType != Delete && op.fields.Some?
  }

  predicate IsField(field: Key)
  {
    field == Content || field == Rating
  }

  function Local(t: Tables, op: Op, field: Key): Cell
  {
    LocalCell(t, op.entity, op.entityId, field)
  }

  function SettleBoth(t: Tables, op: Op): Marks
    requires op.fields.Some?
  {
    Settle(Settle(MarksOf(t), op, Content, Local(t, op, Content)), op, Rating, Local(t, op, Rating))
  }

  /** Settling one field leaves the other's clock and ledger rows alone. */
  lemma SettleOther(m: Marks, op: Op, field: Key, other: Key, local: Cell)
    requires op.fields.Some? && other != field
    ensures var n := Settle(m, op, field, local);
      && Wins(n, op, other) == Wins(m, op, other)
      && ClockIn(n.clocks, FieldKey(op, other)) == ClockIn(m.clocks, FieldKey(op, other))
      && SameAt(m.clocks, n.clocks, FieldKey(op, other)) && SameAt(m.conflicts, n.conflicts, LedgerKey(op, other))
  {
    hide Delivered, Newer, Collides, Report;
    SettleOtherClock(m, op, field, other, local);
  }

  lemma SettleOtherClock(m: Marks, op: Op, field: Key, other: Key, local: Cell)
    requires op.fields.Some? && other != field
    ensures SameAt(m.clocks, Settle(m, op, field, local).clocks, FieldKey(op, other))
  {
    hide Delivered, Newer, Collides, Report;
  }

  /** Two tables agree at one key. */
  predicate SameAt<K(==), V(==)>(a: map<K, V>, b: map<K, V>, key: K)
  {
    (key in a <==> key in b) && (key in a ==> a[key] == b[key])
  }

  /** `u` is `t` after the field-by-field rule. */
  ghost predicate Edited(t: Tables, op: Op, u: Tables)
    requires op.fields.Some?
  {
    && LiveAt(u, op.entity, op.entityId)
    && MarksOf(u) == SettleBoth(t, op)
    && forall field :: IsField(field) ==>
        Local(u, op, field) == if Wins(MarksOf(t), op, field) then Delivered(op, field).value else Local(t, op, field)
  }

  lemma NoteEdit(t: Tables, op: Op)
    requires op.entity == NoteEntity && Edits(t, op)
    ensures Edited(t, op, NoteUpdate(t, op).0)
  {
    hide TextField, IntField, Newer, Collides, Report, OnlyNote;
    NoteHasNoRating(Settle(MarksOf(t), op, Content, Local(t, op, Content)), op, Local(t, op, Rating));
  }

  /** A note op carries no rating. */
  lemma NoteHasNoRating(m: Marks, op: Op, local: Cell)
    requires op.entity == NoteEntity && op.fields.Some?
    ensures Settle(m, op, Rating, local) == m && !Wins(m, op, Rating)
  {
    hide TextField, IntField, Newer;
  }

  lemma ReviewEdit(t: Tables, op: Op)
    requires op.entity == ReviewEntity && Edits(t, op)
    ensures Edited(t, op, ReviewUpdate(t, op).0)
  {
    hide Report, Settle, Wins, Delivered;
    SettleOther(MarksOf(t), op, Content, Rating, Local(t, op, Content));
    DeliveredFields(MarksOf(t), op);
  }

  lemma DeliveredFields(m: Marks, op: Op)
    requires op.entity == ReviewEntity && op.fields.Some?
    ensures Wins(m, op, Content) ==> Delivered(op, Content) == Some(TextCell(TextField(op.fields.value, Content)))
    ensures Wins(m, op, Rating) ==> Delivered(op, Rating) == Some(IntCell(IntField(op.fields.value, Rating)))
  {
  }

  lemma StepEdits(t: Tables, op: Op, newId: Id)
    ensures Edits(t, op) ==> Edited(t, op, Step(t, op, newId))
    ensures !Edits(t, op) ==> MarksOf(Step(t, op, newId)) == MarksOf(t)
  {
    hide Edited;
    if op.entity == NoteEntity {
      if Edits(t, op) {
        assert Step(t, op, newId) == NoteUpdate(t, op).0;
        NoteEdit(t, op);
      } else {
        UneditedNote(t, op, newId);
      }
    } else if op.entity == ReviewEntity {
      if Edits(t, op) {
        assert Step(t, op, newId) == ReviewUpdate(t, op).0;
        ReviewEdit(t, op);
      } else {
        UneditedReview(t, op, newId);
      }
    } else {
      hide Step;
      StepFrame(t, op, newId);
    }
  }

  lemma UneditedNote(t: Tables, op: Op, newId: Id)
    requires op.entity == NoteEntity && !Edits(t, op)
    ensures MarksOf(Step(t, op, newId)) == MarksOf(t)
  {
    hide Merge, NoteUpdate, TextField, OnlyNote;
    NoteMerge(t, op, newId);
    if op.opType == Update || (op.opType == Create && op.entityId in t.notes) {
      UnchangedNote(t, op);
    }
  }

  lemma UnchangedNote(t: Tables, op: Op)
    requires op.entity == NoteEntity && (!LiveAt(t, NoteEntity, op.entityId) || op.fields.None?)
    ensures NoteUpdate(t, op) == (t, SKIPPED)
  {
    hide Settle, Wins, Report, TextField;
  }

  lemma UneditedReview(t: Tables, op: Op, newId: Id)
    requires op.entity == ReviewEntity && !Edits(t, op)
    ensures MarksOf(Step(t, op, newId)) == MarksOf(t)
  {
    hide Merge, ReviewUpdate, TextField, IntField, OnlyReview;
    ReviewMerge(t, op, newId);
    if op.opType == Update || (op.opType == Create && op.entityId in t.reviews) {
      UnchangedReview(t, op);
    }
  }

  lemma UnchangedReview(t: Tables, op: Op)
    requires op.entity == ReviewEntity && (!LiveAt(t, ReviewEntity, op.entityId) || op.fields.None?)
    ensures ReviewUpdate(t, op) == (t, SKIPPED)
  {
    hide Settle, Wins, Report, TextField, IntField;
  }

  // ---------------------------------------------------------------------------
  // Convergence
  // ---------------------------------------------------------------------------

  /** A field's value and the device that wrote it. */
  datatype Held = Held(cell: Cell, device: Option<Id>)

  function HeldSlot(t: Tables, entity: EntityType, id: Id, field: Key): Slot<Held>
  {
    var ck := ClockKey(entity, id, field);
    Slot(Held(LocalCell(t, entity, id, field), if ck in t.clocks then t.clocks[ck].device else None),
         ClockIn(t.clocks, ck))
  }

  function IsLiveAt(entity: EntityType, id: Id): Tables -> bool
  {
    (t: Tables) => LiveAt(t, entity, id)
  }

  /** One field of one note or review. */
  function FieldSlot(entity: EntityType, id: Id, field: Key): Tables -> Slot<Held>
  {
    (t: Tables) => HeldSlot(t, entity, id, field)
  }

  /** The write an op makes to the field, if any. */
  function WriteOf(op: Op, entity: EntityType, id: Id, field: Key): seq<Write<Held>>
  {
    if OnAnnotation(op, entity, id) && op.opType != Delete && op.fields.Some? && Delivered(op, field).Some?
    then [Write(op.hlc, Held(Delivered(op, field).value, Some(op.device)))] else []
  }

  function WriteTo(entity: EntityType, id: Id, field: Key): Op -> seq<Write<Held>>
  {
    (op: Op) => WriteOf(op, entity, id, field)
  }

  lemma StepPutsField(t: Tables, op: Op, newId: Id, entity: EntityType, id: Id, field: Key)
    requires LiveAt(t, entity, id) && IsField(field)
    requires OnAnnotation(op, entity, id) ==> op.opType != Delete
    ensures LiveAt(Step(t, op, newId), entity, id)
    ensures HeldSlot(Step(t, op, newId), entity, id, field) ==
      PutAll(HeldSlot(t, entity, id, field), WriteOf(op, entity, id, field))
  {
    hide Step;
    if !OnAnnotation(op, entity, id) {
      StepElsewhere(t, op, newId, entity, id, field);
    } else if op.fields.None? {
      StepWithoutFields(t, op, newId);
    } else {
      StepEdits(t, op, newId);
      var m := MarksOf(t);
      var m1 := Settle(m, op, Content, Local(t, op, Content));
      SettledSlot(m, op, Content, Local(t, op, Content));
      SettledSlot(m1, op, Rating, Local(t, op, Rating));
      SettleOther(m, op, Content, Rating, Local(t, op, Content));
      SettleOther(m1, op, Rating, Content, Local(t, op, Rating));
      hide Settle, Wins, Delivered, LiveAt, LocalCell;
      var put := PutAll(HeldSlot(t, entity, id, field), WriteOf(op, entity, id, field));
      OneWrite(m, op, field, HeldSlot(t, entity, id, field));
    }
  }

  lemma OneWrite(m: Marks, op: Op, field: Key, s: Slot<Held>)
    requires OnAnnotation(op, op.entity, op.entityId) && op.opType != Delete && op.fields.Some?
    requires s.clock == ClockIn(m.clocks, FieldKey(op, field))
    ensures PutAll(s, WriteOf(op, op.entity, op.entityId, field)) ==
      if Wins(m, op, field) then Slot(Held(Delivered(op, field).value, Some(op.device)), Some(op.hlc)) else s
  {
    hide Delivered;
    var ws := WriteOf(op, op.entity, op.entityId, field);
    if ws != [] {
      assert ws[1..] == [];
    }
  }

  lemma SettledSlot(m: Marks, op: Op, field: Key, local: Cell)
    requires op.fields.Some?
    ensures var n, ck := Settle(m, op, field, local), FieldKey(op, field);
      if Wins(m, op, field) then ck in n.clocks && n.clocks[ck] == FieldClock(op.hlc, Some(op.device))
      else (ck in n.clocks <==> ck in m.clocks) && (ck in m.clocks ==> n.clocks[ck] == m.clocks[ck])
  {
    hide Delivered, Newer;
  }

  lemma StepElsewhere(t: Tables, op: Op, newId: Id, entity: EntityType, id: Id, field: Key)
    requires LiveAt(t, entity, id) && !OnAnnotation(op, entity, id)
    requires entity.NoteEntity? || entity.ReviewEntity?
    ensures LiveAt(Step(t, op, newId), entity, id)
    ensures HeldSlot(Step(t, op, newId), entity, id, field) == HeldSlot(t, entity, id, field)
  {
    hide Step, LiveAt, HeldSlot;
    if op.entity == NoteEntity {
      NoteFrame(t, op, newId);
    } else if op.entity == ReviewEntity {
      ReviewFrame(t, op, newId);
    } else {
      StepFrame(t, op, newId);
    }
    SlotFrame(t, Step(t, op, newId), entity, id, field);
  }

  lemma SlotFrame(t: Tables, u: Tables, entity: EntityType, id: Id, field: Key)
    requires entity.NoteEntity? ==> (id in t.notes <==> id in u.notes) && (id in t.notes ==> t.notes[id] == u.notes[id])
    requires entity.ReviewEntity? ==>
      (id in t.reviews <==> id in u.reviews) && (id in t.reviews ==> t.reviews[id] == u.reviews[id])
    requires SameAt(t.clocks, u.clocks, ClockKey(entity, id, field))
    ensures LiveAt(t, entity, id) == LiveAt(u, entity, id)
    ensures HeldSlot(t, entity, id, field) == HeldSlot(u, entity, id, field)
  {
  }

  lemma StepWithoutFields(t: Tables, op: Op, newId: Id)
    requires LiveAt(t, op.entity, op.entityId) && op.opType != Delete && op.fields.None?
    ensures Step(t, op, newId) == t
  {
    if op.entity == NoteEntity {
      assert Step(t, op, newId) == NoteUpdate(t, op).0;
    } else {
      assert Step(t, op, newId) == ReviewUpdate(t, op).0;
    }
  }

  predicate NeverDeleted(ops: set<Op>, entity: EntityType, id: Id)
  {
    forall op :: op in ops && OnAnnotation(op, entity, id) ==> op.opType != Delete
  }

  lemma EditsTrackField(ops: set<Op>, entity: EntityType, id: Id, field: Key)
    requires IsField(field) && NeverDeleted(ops, entity, id)
    ensures Tracks(ops, IsLiveAt(entity, id), FieldSlot(entity, id, field), WriteTo(entity, id, field))
    ensures WritesOnce(WriteTo(entity, id, field))
  {
    hide Step, LiveAt, HeldSlot, Delivered;
    forall t, op, newId | IsLiveAt(entity, id)(t) && op in ops
      ensures IsLiveAt(entity, id)(Step(t, op, newId))
      ensures FieldSlot(entity, id, field)(Step(t, op, newId)) ==
        PutAll(FieldSlot(entity, id, field)(t), WriteTo(entity, id, field)(op))
    {
      StepPutsField(t, op, newId, entity, id, field);
    }
  }

  /** Convergence. From the same live note or review, two runs that deliver the same ops, in any order
      and any number of times, mixed with ops on other entities, end with the same value, clock and
      writing device in each field: those of the greatest clock, or the start. */
  lemma FieldsConverge(t: Tables, ds: seq<Delivery>, es: seq<Delivery>, entity: EntityType, id: Id, field: Key)
    requires LiveAt(t, entity, id) && IsField(field) && Ops(ds) == Ops(es)
    requires NeverDeleted(Ops(ds), entity, id) && DistinctHlcs(Ops(ds), WriteTo(entity, id, field))
    ensures LiveAt(Run(t, ds), entity, id) && LiveAt(Run(t, es), entity, id)
    ensures FieldSlot(entity, id, field)(Run(t, ds)) == FieldSlot(entity, id, field)(Run(t, es))
    ensures Latest(FieldSlot(entity, id, field)(t), Writes(ds, WriteTo(entity, id, field)),
                   FieldSlot(entity, id, field)(Run(t, ds)))
  {
    hide Run, LiveAt, HeldSlot, WriteOf, Latest;
    EditsTrackField(Ops(ds), entity, id, field);
    RunsConverge(t, ds, es, IsLiveAt(entity, id), FieldSlot(entity, id, field), WriteTo(entity, id, field));
  }

  // ---------------------------------------------------------------------------
  // No silent loss
  // ---------------------------------------------------------------------------

  /** Every ledger row was stored by one of the ops, holds the value that op delivered, and is not
      ahead of its field's clock. */
  ghost predicate LedgerSound(m: Marks, ops: set<Op>)
  {
    forall lk :: lk in m.conflicts ==> RowSound(m, lk, ops)
  }

  ghost predicate RowSound(m: Marks, lk: ConflictKey, ops: set<Op>)
    requires lk in m.conflicts
  {
    var ck := ClockKey(lk.entity, lk.id, lk.field);
    && ck in m.clocks && !Less(m.clocks[ck].hlc, lk.remoteHlc)
    && exists op :: op in ops && op.opType != Delete && op.fields.Some? && lk == LedgerKey(op, lk.field) &&
        Delivered(op, lk.field) == Some(m.conflicts[lk].remoteValue)
  }

  ghost predicate LedgerGrows(m: Marks, n: Marks)
  {
    forall lk :: lk in m.conflicts ==> lk in n.conflicts && n.conflicts[lk] == m.conflicts[lk]
  }

  lemma SettleKeepsLedger(m: Marks, op: Op, field: Key, local: Cell, ops: set<Op>)
    requires op.fields.Some? && op.opType != Delete && op in ops && LedgerSound(m, ops)
    ensures LedgerSound(Settle(m, op, field, local), ops)
    ensures LedgerGrows(m, Settle(m, op, field, local))
  {
    hide RowSound, Settle;
    var n := Settle(m, op, field, local);
    forall lk | lk in n.conflicts ensures RowSound(n, lk, ops) {
      SettleKeepsRow(m, op, field, local, ops, lk);
    }
    SettleGrows(m, op, field, local);
  }

  lemma SettleGrows(m: Marks, op: Op, field: Key, local: Cell)
    requires op.fields.Some?
    ensures LedgerGrows(m, Settle(m, op, field, local))
  {
    hide Delivered, Wins, Collides;
  }

  lemma SettleKeepsRow(m: Marks, op: Op, field: Key, local: Cell, ops: set<Op>, lk: ConflictKey)
    requires op.fields.Some? && op.opType != Delete && op in ops && lk in Settle(m, op, field, local).conflicts
    requires lk in m.conflicts ==> RowSound(m, lk, ops)
    ensures RowSound(Settle(m, op, field, local), lk, ops)
  {
    hide Delivered;
    var ck := ClockKey(lk.entity, lk.id, lk.field);
    LessTrichotomy(op.hlc, op.hlc);
    if lk in m.conflicts && ck == FieldKey(op, field) && Wins(m, op, field) && Less(op.hlc, lk.remoteHlc) {
      LessTransitive(m.clocks[ck].hlc, op.hlc, lk.remoteHlc);
    }
  }

  lemma StepKeepsLedger(t: Tables, op: Op, newId: Id, ops: set<Op>)
    requires op in ops && LedgerSound(MarksOf(t), ops)
    ensures LedgerSound(MarksOf(Step(t, op, newId)), ops)
    ensures LedgerGrows(MarksOf(t), MarksOf(Step(t, op, newId)))
  {
    hide Step, Settle, LedgerSound;
    StepEdits(t, op, newId);
    if Edits(t, op) {
      var m1 := Settle(MarksOf(t), op, Content, Local(t, op, Content));
      SettleKeepsLedger(MarksOf(t), op, Content, Local(t, op, Content), ops);
      SettleKeepsLedger(m1, op, Rating, Local(t, op, Rating), ops);
    }
  }

  lemma {:induction false} RunKeepsLedger(t: Tables, ds: seq<Delivery>, ops: set<Op>)
    requires Ops(ds) <= ops && LedgerSound(MarksOf(t), ops)
    ensures LedgerSound(MarksOf(Run(t, ds)), ops)
    ensures LedgerGrows(MarksOf(t), MarksOf(Run(t, ds)))
    decreases |ds|
  {
    hide Step, LedgerSound;
    if ds != [] {
      assert ds[0].op in Ops(ds) && Ops(ds[1..]) <= Ops(ds);
      StepKeepsLedger(t, ds[0].op, ds[0].newId, ops);
      RunKeepsLedger(Step(t, ds[0].op, ds[0].newId), ds[1..], ops);
    }
  }

  /** The ledger row of a colliding op after it settles. */
  lemma SettleRecords(m: Marks, op: Op, field: Key, local: Cell, ops: set<Op>)
    requires op.fields.Some? && Collides(m, op, field, local) && LedgerSound(m, ops)
    requires op in ops && op.opType != Delete && OnAnnotation(op, op.entity, op.entityId)
    requires DistinctHlcs(ops, WriteTo(op.entity, op.entityId, field))
    ensures var n := Settle(m, op, field, local);
      && LedgerKey(op, field) in n.conflicts
      && n.conflicts[LedgerKey(op, field)].remoteValue == Delivered(op, field).value
      && (Wins(m, op, field) || LedgerKey(op, field) !in m.conflicts ==>
          n.conflicts[LedgerKey(op, field)] ==
            Conflict(local, Delivered(op, field).value, m.clocks[FieldKey(op, field)].hlc))
  {
    hide Delivered;
    var lk := LedgerKey(op, field);
    if lk in m.conflicts {
      assert RowSound(m, lk, ops);
    }
  }

  /** No silent loss. In a run that starts with a ledger of rows stored by earlier ops, take any delivery
      that carries a different value for a field last written by another device. At the end of the run
      the ledger has a row for it with the delivered value. If the delivery overwrote the local value, or
      is the first of its op, the row also holds the local value and its clock. `ops` are all the ops
      ever delivered. */
  lemma NoSilentLoss(t: Tables, ds: seq<Delivery>, n: nat, field: Key, ops: set<Op>)
    requires n < |ds| && IsField(field) && Ops(ds) <= ops && LedgerSound(MarksOf(t), ops)
    requires var s, op := Run(t, ds[..n]), ds[n].op;
      && Edits(s, op) && Collides(MarksOf(s), op, field, Local(s, op, field))
      && DistinctHlcs(ops, WriteTo(op.entity, op.entityId, field))
    ensures var s, op, ledger := Run(t, ds[..n]), ds[n].op, Run(t, ds).conflicts;
      && LedgerKey(op, field) in ledger
      && ledger[LedgerKey(op, field)].remoteValue == Delivered(op, field).value
      && (Wins(MarksOf(s), op, field) || LedgerKey(op, field) !in s.conflicts ==>
          ledger[LedgerKey(op, field)] ==
            Conflict(Local(s, op, field), Delivered(op, field).value, s.clocks[FieldKey(op, field)].hlc))
  {
    hide Step, Delivered, LedgerSound, Wins, DistinctHlcs, LocalCell, Collides;
    var s, op := Run(t, ds[..n]), ds[n].op;
    assert op in Ops(ds) && Ops(ds[..n]) <= Ops(ds) && Ops(ds[n + 1..]) <= Ops(ds);
    RunKeepsLedger(t, ds[..n], ops);
    StepRecords(s, op, ds[n].newId, field, ops);
    StepKeepsLedger(s, op, ds[n].newId, ops);
    RunTail(t, ds, n);
    RunKeepsLedger(Step(s, op, ds[n].newId), ds[n + 1..], ops);
  }

  /** The ledger row of a colliding op right after its step. */
  lemma StepRecords(s: Tables, op: Op, newId: Id, field: Key, ops: set<Op>)
    requires IsField(field) && op in ops && LedgerSound(MarksOf(s), ops)
    requires Edits(s, op) && Collides(MarksOf(s), op, field, Local(s, op, field))
    requires DistinctHlcs(ops, WriteTo(op.entity, op.entityId, field))
    ensures var u, lk := Step(s, op, newId), LedgerKey(op, field);
      && lk in u.conflicts && u.conflicts[lk].remoteValue == Delivered(op, field).value
      && (Wins(MarksOf(s), op, field) || lk !in s.conflicts ==>
          u.conflicts[lk] ==
            Conflict(Local(s, op, field), Delivered(op, field).value, s.clocks[FieldKey(op, field)].hlc))
  {
    hide Step, Settle, Delivered, LedgerSound, Wins, DistinctHlcs, LocalCell;
    StepEdits(s, op, newId);
    var m, c, r := MarksOf(s), Local(s, op, Content), Local(s, op, Rating);
    var m1 := Settle(m, op, Content, c);
    SettleKeepsLedger(m, op, Content, c, ops);
    if field == Content {
      SettleRecords(m, op, Content, c, ops);
      SettleKeepsLedger(m1, op, Rating, r, ops);
    } else {
      SettleOther(m, op, Content, Rating, c);
      CollidesAlike(m, m1, op, Rating, r);
      SettleRecords(m1, op, Rating, r, ops);
    }
  }

  /** A ledger that starts empty is sound. */
  lemma EmptyLedgerSound(m: Marks, ops: set<Op>)
    requires m.conflicts == map[]
    ensures LedgerSound(m, ops)
  {
  }

  /** So from an empty ledger, with the ops of the run alone. */
  lemma NoSilentLossFromEmptyLedger(t: Tables, ds: seq<Delivery>, n: nat, field: Key)
    requires n < |ds| && IsField(field) && t.conflicts == map[]
    requires var s, op := Run(t, ds[..n]), ds[n].op;
      && Edits(s, op) && Collides(MarksOf(s), op, field, Local(s, op, field))
      && DistinctHlcs(Ops(ds), WriteTo(op.entity, op.entityId, field))
    ensures var op, ledger := ds[n].op, Run(t, ds).conflicts;
      LedgerKey(op, field) in ledger && ledger[LedgerKey(op, field)].remoteValue == Delivered(op, field).value
  {
    hide Run, Step, Delivered, LedgerSound, DistinctHlcs, LocalCell, Collides;
    EmptyLedgerSound(MarksOf(t), Ops(ds));
    NoSilentLoss(t, ds, n, field, Ops(ds));
  }

  lemma CollidesAlike(m: Marks, n: Marks, op: Op, field: Key, local: Cell)
    requires op.fields.Some?
    requires FieldKey(op, field) in m.clocks <==> FieldKey(op, field) in n.clocks
    requires FieldKey(op, field) in m.clocks ==> n.clocks[FieldKey(op, field)] == m.clocks[FieldKey(op, field)]
    ensures Collides(m, op, field, local) == Collides(n, op, field, local)
  {
  }

  /** Exactly when a different value is lost without a row. Take an edit that carries a different value for a
      field, which then overwrites the stored value or is dropped. Its step leaves no ledger row if and
      only if there was none and the field has no clock row, as after a create, or was last written by the
      same device. */
  lemma LossIsSilentExactly(t: Tables, op: Op, newId: Id, field: Key)
    requires IsField(field) && Edits(t, op)
    requires Delivered(op, field).Some? && Delivered(op, field).value != Local(t, op, field)
    ensures LedgerKey(op, field) !in Step(t, op, newId).conflicts <==>
      LedgerKey(op, field) !in t.conflicts &&
      (FieldKey(op, field) !in t.clocks || t.clocks[FieldKey(op, field)].device == Some(op.device))
  {
    hide Step, Delivered, Wins, LocalCell, Newer;
    StepEdits(t, op, newId);
    var m, c := MarksOf(t), Local(t, op, Content);
    SettleOther(m, op, Content, Rating, c);
    SettleOther(Settle(m, op, Content, c), op, Rating, Content, Local(t, op, Rating));
  }

  /** A create writes no clock row, so the first edit after it overwrites its text without a trace, whatever
      device it comes from. */
  lemma FirstEditAfterCreateIsSilent(t: Tables, create: Op, edit: Op, book: Id, first: string, second: string)
    requires create.entity == NoteEntity && create.opType == Create && create.entityId !in t.notes && book in t.books
    requires create.fields == Some(map[BookId := JStr(book), Content := JStr(first)])
    requires edit.entity == NoteEntity && edit.opType == Update && edit.entityId == create.entityId
    requires edit.fields == Some(map[Content := JStr(second)])
    requires FieldKey(edit, Content) !in t.clocks
    ensures var s := Step(t, create, ""); create.entityId in s.notes && s.notes[create.entityId].content == first
    ensures var u := Step(Step(t, create, ""), edit, "");
      edit.entityId in u.notes && u.notes[edit.entityId].content == second && u.conflicts == t.conflicts
  {
    hide NoteUpdate;
    assert Step(t, create, "") == NoteCreate(t, create).0;
    var s := NoteCreate(t, create).0;
    assert Step(s, edit, "") == NoteUpdate(s, edit).0;
    hide Step, NoteCreate;
    UnclockedEdit(s, edit, second);
  }

  lemma UnclockedEdit(s: Tables, edit: Op, second: string)
    requires edit.entity == NoteEntity && LiveAt(s, NoteEntity, edit.entityId) && FieldKey(edit, Content) !in s.clocks
    requires edit.fields == Some(map[Content := JStr(second)])
    ensures var u := NoteUpdate(s, edit).0;
      edit.entityId in u.notes && u.notes[edit.entityId].content == second && u.conflicts == s.conflicts
  {
  }
}
