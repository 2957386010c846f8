/** Tags over whole runs: a tag on a book follows the last delivered op on it, whatever the clocks. */
module TagRuns {
  import opened Wrappers
  import opened Text
  import opened Library
  import opened MergeRules
  import opened Snapshots
  import opened Consistency

  predicate Tagged(t: Tables, book: Id, key: TagKey)
  {
    key in t.tags && (book, t.tags[key].id) in t.bookTags
  }

  /** The op adds or removes this tag on this book. */
  predicate OnTag(op: Op, book: Id, key: TagKey)
  {
    op.entity == TagEntity && op.entityId == book && op.opType != Update && op.fields.Some?
      && TagKeyOf(op.fields.value) == Some(key)
  }

  lemma TagLands(t: Tables, op: Op, newId: Id, key: TagKey, tags: map<TagKey, Tag>)
    requires op.fields.Some? && TagKeyOf(op.fields.value) == Some(key) && TextField(op.fields.value, TagName).Some?
    requires tags == EnsureTag(t.tags, key, newId, TextField(op.fields.value, TagName).value) && key in tags
    ensures TagCreate(t, op, newId).0 ==
      if op.entityId in t.books && (op.entityId, tags[key].id) !in t.bookTags
      then t.(tags := tags, bookTags := t.bookTags + {(op.entityId, tags[key].id)}) else t.(tags := tags)
  {
    hide TextField, TagKeyOf, EnsureTag;
  }

  /** The tables after a tag has been ensured and linked. */
  lemma TagCreateTables(t: Tables, op: Op, newId: Id, key: TagKey)
    requires op.fields.Some? && TagKeyOf(op.fields.value) == Some(key) && TextField(op.fields.value, TagName).Some?
    requires key in EnsureTag(t.tags, key, newId, TextField(op.fields.value, TagName).value)
    ensures var tags := EnsureTag(t.tags, key, newId, TextField(op.fields.value, TagName).value);
      && TagCreate(t, op, newId).0.tags == tags
      && TagCreate(t, op, newId).0.bookTags ==
        if op.entityId in t.books then t.bookTags + {(op.entityId, tags[key].id)} else t.bookTags
  {
    hide TextField, TagKeyOf, EnsureTag, TagCreate;
    var tags := EnsureTag(t.tags, key, newId, TextField(op.fields.value, TagName).value);
    TagLands(t, op, newId, key, tags);
    if (op.entityId, tags[key].id) in t.bookTags {
      assert t.bookTags + {(op.entityId, tags[key].id)} == t.bookTags;
    }
  }

  lemma KeyHasName(obj: Object)
    requires TagKeyOf(obj).Some?
    ensures TextField(obj, TagName).Some?
  {
  }

  lemma CreateTags(t: Tables, op: Op, newId: Id, book: Id, key: TagKey, k: TagKey)
    requires TagsAreFolded(t.tags) && !IsTagId(t.tags, newId) && (book, newId) !in t.bookTags
    requires op.fields.Some? && TagKeyOf(op.fields.value) == Some(k)
    ensures Tagged(TagCreate(t, op, newId).0, book, key) ==
      (Tagged(t, book, key) || (op.entityId in t.books && op.entityId == book && k == key))
  {
    hide TextField, TagKeyOf, IsTagId, EnsureTag, TagCreate, TagsAreFolded;
    KeyHasName(op.fields.value);
    var tags := EnsureTag(t.tags, k, newId, TextField(op.fields.value, TagName).value);
    EnsuredTag(t.tags, k, newId, TextField(op.fields.value, TagName).value);
    TagCreateTables(t, op, newId, k);
    DifferentIds(tags, k, key);
  }

  /** A tag that is there already, or a new one under the given id. */
  lemma EnsuredTag(tags: map<TagKey, Tag>, key: TagKey, newId: Id, name: string)
    requires TagsAreFolded(tags) && !IsTagId(tags, newId)
    ensures var r := EnsureTag(tags, key, newId, name);
      && key in r && (key !in tags ==> r[key].id == newId)
      && (forall k :: k in tags ==> k in r && r[k] == tags[k]) && (forall k :: k in r && k != key ==> k in tags)
      && (forall k, l :: k in r && l in r && r[k].id == r[l].id ==> k == l)
  {
    hide LowerCase;
  }

  lemma DifferentIds(tags: map<TagKey, Tag>, k: TagKey, l: TagKey)
    requires forall i, j :: i in tags && j in tags && tags[i].id == tags[j].id ==> i == j
    ensures k in tags && l in tags && k != l ==> tags[k].id != tags[l].id
  {
  }

  lemma NewIdIsUnlinked(t: Tables, newId: Id, book: Id)
    requires Consistent(t) && !IsTagId(t.tags, newId)
    ensures (book, newId) !in t.bookTags && TagsAreFolded(t.tags)
  {
    hide BookOk, ProgressRefers;
  }

  lemma TagDeleteTables(t: Tables, op: Op)
    ensures TagDelete(t, op).0.tags == t.tags
    ensures TagDelete(t, op).0.bookTags ==
      if op.fields.Some? && TagKeyOf(op.fields.value).Some? && TagKeyOf(op.fields.value).value in t.tags
      then t.bookTags - {(op.entityId, t.tags[TagKeyOf(op.fields.value).value].id)} else t.bookTags
  {
    hide TagKeyOf;
  }

  lemma DeleteUntags(t: Tables, op: Op, book: Id, key: TagKey)
    requires TagsAreFolded(t.tags)
    ensures Tagged(TagDelete(t, op).0, book, key) ==
      (Tagged(t, book, key) && !(op.entityId == book && op.fields.Some? && TagKeyOf(op.fields.value) == Some(key)))
  {
    hide LowerCase, TagKeyOf, TagDelete;
    TagDeleteTables(t, op);
    if op.fields.Some? && TagKeyOf(op.fields.value).Some? {
      DifferentIds(t.tags, TagKeyOf(op.fields.value).value, key);
      hide TagsAreFolded;
    }
  }

  lemma TagCreateTags(t: Tables, op: Op, newId: Id, book: Id, key: TagKey)
    requires Consistent(t) && !IsTagId(t.tags, newId) && book in t.books
    ensures Tagged(TagCreate(t, op, newId).0, book, key) ==
      (Tagged(t, book, key) || (op.entityId == book && op.fields.Some? && TagKeyOf(op.fields.value) == Some(key)))
  {
    hide TagKeyOf, Consistent, IsTagId, EnsureTag, TextField, TagsAreFolded, Tagged;
    NewIdIsUnlinked(t, newId, book);
    if op.fields.Some? && TagKeyOf(op.fields.value).Some? {
      hide TagCreate;
      CreateTags(t, op, newId, book, key, TagKeyOf(op.fields.value).value);
    } else {
      assert TagCreate(t, op, newId).0 == t;
    }
  }

  /** One step: an op on the tag decides, any other op leaves it. */
  lemma StepTags(t: Tables, op: Op, newId: Id, book: Id, key: TagKey)
    requires Consistent(t) && !IsTagId(t.tags, newId) && book in t.books
    ensures Tagged(Step(t, op, newId), book, key) == if OnTag(op, book, key) then op.opType == Create
      else Tagged(t, book, key)
  {
    hide Step, TagKeyOf, Consistent, TagCreate, TagDelete, IsTagId, TagsAreFolded;
    if op.entity == TagEntity {
      TagFrame(t, op, newId);
      NewIdIsUnlinked(t, newId, book);
      TagCreateTags(t, op, newId, book, key);
      DeleteUntags(t, op, book, key);
    } else {
      StepFrame(t, op, newId);
    }
  }

  /** Whether the tag is on the book after a run: what the last op on it said, or the start. */
  function LastSaid(ds: seq<Delivery>, book: Id, key: TagKey, start: bool): bool
  {
    if ds == [] then start
    else LastSaid(ds[1..], book, key, if OnTag(ds[0].op, book, key) then ds[0].op.opType == Create else start)
  }

  /** Over any run a tag is on a book if and only if the last delivered op on it was a create, or there
      was none and it was there at the start. Clocks play no part. */
  lemma {:induction false} TagsFollowDelivery(t: Tables, ds: seq<Delivery>, book: Id, key: TagKey)
    requires Consistent(t) && FreshIds(t, ds) && book in t.books
    ensures Tagged(Run(t, ds), book, key) == LastSaid(ds, book, key, Tagged(t, book, key))
    decreases |ds|
  {
    hide Step, Consistent, Tagged, OnTag, IsTagId;
    if ds != [] {
      StepTags(t, ds[0].op, ds[0].newId, book, key);
      StepConsistent(t, ds[0].op, ds[0].newId);
      StepKeepsBooks(t, ds[0].op, ds[0].newId, book);
      TagsFollowDelivery(Step(t, ds[0].op, ds[0].newId), ds[1..], book, key);
    }
  }

  /** So adding and removing one tag does not converge: the two orders end differently, always. */
  lemma TagOrderMatters(t: Tables, add: Op, remove: Op, book: Id, key: TagKey, newId: Id)
    requires Consistent(t) && book in t.books && OnTag(add, book, key) && OnTag(remove, book, key)
    requires add.opType == Create && remove.opType == Delete
    requires FreshIds(t, [Delivery(add, newId), Delivery(remove, "")])
    requires FreshIds(t, [Delivery(remove, ""), Delivery(add, newId)])
    ensures !Tagged(Run(t, [Delivery(add, newId), Delivery(remove, "")]), book, key)
    ensures Tagged(Run(t, [Delivery(remove, ""), Delivery(add, newId)]), book, key)
  {
    hide Run, Tagged, OnTag, FreshIds, Consistent;
    var a, r := Delivery(add, newId), Delivery(remove, "");
    TagsFollowDelivery(t, [a, r], book, key);
    TagsFollowDelivery(t, [r, a], book, key);
    LastOfTwo(a, r, book, key, Tagged(t, book, key));
    LastOfTwo(r, a, book, key, Tagged(t, book, key));
  }

  lemma LastOfTwo(d: Delivery, e: Delivery, book: Id, key: TagKey, start: bool)
    requires OnTag(d.op, book, key) && OnTag(e.op, book, key)
    ensures LastSaid([d, e], book, key, start) == (e.op.opType == Create)
  {
    hide OnTag;
    assert [d, e][1..] == [e] && [e][1..] == [];
    assert LastSaid([e], book, key, d.op.opType == Create) == LastSaid([], book, key, e.op.opType == Create);
  }
}
