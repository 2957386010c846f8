/** Settings and sessions over whole runs: settings converge while they are not deleted, a deletion
    forgets the clock, and sessions never change. */
module SettingRuns {
  import opened Wrappers
  import opened Library
  import opened MergeRules
  import opened Lww

  function Stored(id: Id): Tables -> bool
  {
    (t: Tables) => id in t.settings
  }

  function SettingSlot(id: Id): Tables -> Slot<string>
  {
    (t: Tables) => if id in t.settings then Slot(t.settings[id].value, t.settings[id].syncHlc) else Slot("", None)
  }

  /** The write an op makes to a setting row that exists. */
  function WriteTo(id: Id): Op -> seq<Write<string>>
  {
    (op: Op) =>
      if op.entity == SettingEntity && op.entityId == id && op.opType != Delete && op.fields.Some?
        && SettingOf(op.fields.value).Some?
      then [Write(op.hlc, SettingOf(op.fields.value).value.1)] else []
  }

  predicate NeverDeleted(ops: set<Op>, id: Id)
  {
    forall op :: op in ops && op.entity == SettingEntity && op.entityId == id ==> op.opType != Delete
  }

  lemma StepPutsSetting(t: Tables, op: Op, newId: Id, id: Id)
    requires id in t.settings && NeverDeleted({op}, id)
    ensures id in Step(t, op, newId).settings && Step(t, op, newId).settings[id].key == t.settings[id].key
    ensures SettingSlot(id)(Step(t, op, newId)) == PutAll(SettingSlot(id)(t), WriteTo(id)(op))
  {
    if op.entity == SettingEntity && op.entityId == id {
      assert op in {op};
      hide Merge, SettingUpsert, SettingDelete, SettingOf;
      SettingMerge(t, op, newId);
      UpsertPuts(t, op);
    } else if op.entity == SettingEntity {
      hide Step;
      SettingFrame(t, op, newId);
    } else {
      hide Step;
      StepFrame(t, op, newId);
    }
  }

  lemma UpsertPuts(t: Tables, op: Op)
    requires op.entity == SettingEntity && op.opType != Delete && op.entityId in t.settings
    ensures op.entityId in SettingUpsert(t, op).0.settings
    ensures SettingUpsert(t, op).0.settings[op.entityId].key == t.settings[op.entityId].key
    ensures SettingSlot(op.entityId)(SettingUpsert(t, op).0) ==
      PutAll(SettingSlot(op.entityId)(t), WriteTo(op.entityId)(op))
  {
    hide SettingOf, KeyTaken, Newer, OnlySetting;
    var ws := WriteTo(op.entityId)(op);
    if ws != [] {
      assert ws[1..] == [];
      assert PutAll(SettingSlot(op.entityId)(t), ws) == Put(SettingSlot(op.entityId)(t), ws[0]);
    } else {
      assert SettingUpsert(t, op).0 == t;
    }
  }

  lemma UpsertsTrackSetting(ops: set<Op>, id: Id)
    requires NeverDeleted(ops, id)
    ensures Tracks(ops, Stored(id), SettingSlot(id), WriteTo(id)) && WritesOnce(WriteTo(id))
  {
    hide Step, SettingOf;
    forall t, op, newId | Stored(id)(t) && op in ops
      ensures Stored(id)(Step(t, op, newId))
      ensures SettingSlot(id)(Step(t, op, newId)) == PutAll(SettingSlot(id)(t), WriteTo(id)(op))
    {
      StepPutsSetting(t, op, newId, id);
    }
  }

  /** A setting that is not deleted converges: any two runs over the same ops end with the same value and
      clock, those of the greatest clock. */
  lemma SettingsConverge(t: Tables, ds: seq<Delivery>, es: seq<Delivery>, id: Id)
    requires id in t.settings && Ops(ds) == Ops(es) && NeverDeleted(Ops(ds), id) && DistinctHlcs(Ops(ds), WriteTo(id))
    ensures id in Run(t, ds).settings && id in Run(t, es).settings
    ensures SettingSlot(id)(Run(t, ds)) == SettingSlot(id)(Run(t, es))
    ensures Latest(SettingSlot(id)(t), Writes(ds, WriteTo(id)), SettingSlot(id)(Run(t, ds)))
  {
    hide Run, Latest;
    UpsertsTrackSetting(Ops(ds), id);
    RunsConverge(t, ds, es, Stored(id), SettingSlot(id), WriteTo(id));
  }

  /** A deleted setting leaves no clock behind: any later upsert brings it back, however old its clock. */
  lemma DeletionForgetsClock(t: Tables, delete: Op, upsert: Op)
    requires delete.entity == SettingEntity && delete.opType == Delete && delete.entityId in t.settings
    requires upsert.entity == SettingEntity && upsert.opType != Delete && upsert.entityId == delete.entityId
    requires upsert.fields.Some? && SettingOf(upsert.fields.value).Some?
    requires forall id :: id in t.settings && id != delete.entityId ==>
      t.settings[id].key != SettingOf(upsert.fields.value).value.0
    ensures var (key, value) := SettingOf(upsert.fields.value).value;
      var u := Step(Step(t, delete, ""), upsert, "");
      upsert.entityId in u.settings && u.settings[upsert.entityId] == Setting(key, value, Some(upsert.hlc))
  {
    hide SettingOf;
  }

  /** Sessions are append-only: no run changes or removes one. */
  lemma {:induction false} SessionsNeverChange(t: Tables, ds: seq<Delivery>, id: Id)
    requires id in t.sessions
    ensures id in Run(t, ds).sessions && Run(t, ds).sessions[id] == t.sessions[id]
    decreases |ds|
  {
    hide Step;
    if ds != [] {
      StepKeepsSession(t, ds[0].op, ds[0].newId, id);
      SessionsNeverChange(Step(t, ds[0].op, ds[0].newId), ds[1..], id);
    }
  }
}
