/** The constraints of the schema, kept by every step of every run. */
module Consistency {
  import opened Wrappers
  import opened Text
  import opened Affinities
  import opened Library
  import opened MergeRules
  import opened Snapshots

  // ---------------------------------------------------------------------------
  // Books
  // ---------------------------------------------------------------------------

  /** The table constraints, and no number in a text column. */
  ghost predicate BookOk(b: Book)
  {
    StorableBook(b) && forall k :: IsBookField(k) && !IsIntegerColumn(k) ==> IsTextCell(CellOf(b, k))
  }

  lemma VisitKeepsBookOk(w: Walk, k: Key, obj: Object, hlc: string)
    requires BookOk(w.book)
    ensures BookOk(Visit(w, k, obj, hlc).book)
  {
    hide StatusVerdict, SqlText, ParseNumber, NumberCell, Newer;
  }

  lemma {:induction false} WalkKeepsBookOk(w: Walk, ks: seq<Key>, obj: Object, hlc: string)
    requires BookOk(w.book)
    ensures BookOk(VisitAll(w, ks, obj, hlc).book)
    decreases |ks|
  {
    hide Visit, BookOk;
    if ks != [] {
      VisitKeepsBookOk(w, ks[0], obj, hlc);
      WalkKeepsBookOk(Visit(w, ks[0], obj, hlc), ks[1..], obj, hlc);
    }
  }

  lemma BookUpdateKeepsOk(t: Tables, op: Op)
    requires op.entityId in t.books && BookOk(t.books[op.entityId])
    ensures BookOk(BookUpdate(t, op).0.books[op.entityId])
  {
    hide VisitAll, BookOk;
    if op.fields.Some? {
      WalkKeepsBookOk(Walk(t.books[op.entityId], false, Going), BOOK_FIELDS, op.fields.value, op.hlc);
    }
  }

  lemma BookDeleteKeepsOk(t: Tables, op: Op)
    requires op.entityId in t.books && BookOk(t.books[op.entityId])
    ensures BookOk(BookDelete(t, op).0.books[op.entityId])
  {
  }

  lemma NewCellsOk(obj: Object, clocks: map<Key, Option<string>>)
    requires IsStars(NewCell(obj, Rating))
    ensures BookOk(Book(NewCells(obj), clocks, None))
  {
    hide TextField, IntField, IsStars;
    BookFieldsAreDistinct();
    NewCellTypes(obj);
    hide NewCell;
  }

  lemma NewCellTypes(obj: Object)
    ensures forall k :: IsBookField(k) && !IsIntegerColumn(k) ==> IsTextCell(NewCell(obj, k))
    ensures NewCell(obj, Title).Str? && NewCell(obj, Format).Str? && NewCell(obj, Status).Str?
  {
    hide TextField, IntField;
  }

  lemma BookCreateKeepsOk(t: Tables, op: Op)
    requires op.entityId in t.books ==> BookOk(t.books[op.entityId])
    ensures op.entityId in BookCreate(t, op).0.books ==> BookOk(BookCreate(t, op).0.books[op.entityId])
  {
    hide BookUpdate, NewClocks, BookOk, TextField, IntField;
    if op.entityId in t.books {
      BookUpdateKeepsOk(t, op);
    } else if op.fields.Some? && IsStars(NewCell(op.fields.value, Rating)) {
      NewCellsOk(op.fields.value, NewClocks(op.fields.value, op.hlc));
    }
  }

  lemma BookStepKeepsOk(t: Tables, op: Op, newId: Id)
    requires op.entity == BookEntity && forall id :: id in t.books ==> BookOk(t.books[id])
    ensures forall id :: id in Step(t, op, newId).books ==> BookOk(Step(t, op, newId).books[id])
  {
    hide Merge, BookCreate, BookUpdate, BookDelete, BookOk;
    BookMerge(t, op, newId);
    match op.opType
    case Create => BookCreateKeepsOk(t, op);
    case Update =>
      if op.entityId in t.books {
        BookUpdateKeepsOk(t, op);
      } else {
        UnknownBook(t, op);
      }
    case Delete =>
      if op.entityId in t.books {
        BookDeleteKeepsOk(t, op);
      } else {
        UnknownBook(t, op);
      }
  }

  lemma UnknownBook(t: Tables, op: Op)
    requires op.entityId !in t.books
    ensures BookUpdate(t, op).0 == t && BookDelete(t, op).0 == t
  {
  }

  // ---------------------------------------------------------------------------
  // References and keys
  // ---------------------------------------------------------------------------

  ghost predicate LinksKnown(books: map<Id, Book>, tags: map<TagKey, Tag>, links: set<(Id, Id)>)
  {
    forall link :: link in links ==> link.0 in books && IsTagId(tags, link.1)
  }

  ghost predicate Consistent(t: Tables)
  {
    && (forall id :: id in t.books ==> BookOk(t.books[id]))
    && (forall id :: id in t.sessions ==> t.sessions[id].bookId in t.books)
    && (forall id :: id in t.progress ==> ProgressRefers(t.books, t.sessions)(id, t.progress[id]))
    && TagsAreFolded(t.tags) && LinksKnown(t.books, t.tags, t.bookTags)
    && (forall id :: id in t.notes ==> t.notes[id].bookId in t.books)
    && (forall id :: id in t.reviews ==> t.reviews[id].bookId in t.books)
    && SettingKeysUnique(t.settings)
  }

  lemma TagStepConsistent(t: Tables, op: Op, newId: Id)
    requires op.entity == TagEntity && Consistent(t) && !IsTagId(t.tags, newId)
    ensures Consistent(Step(t, op, newId))
  {
    hide Step, TagCreate, TagDelete, Consistent, IsTagId;
    TagFrame(t, op, newId);
    if op.opType == Create {
      TagCreateConsistent(t, op, newId);
    } else if op.opType == Delete {
      TagDeleteConsistent(t, op);
    }
  }

  lemma TagDeleteConsistent(t: Tables, op: Op)
    requires Consistent(t)
    ensures Consistent(TagDelete(t, op).0)
  {
    hide BookOk, TagKeyOf, TagsAreFolded, SettingKeysUnique, IsTagId, ProgressRefers;
  }

  lemma EnsureTagFolds(tags: map<TagKey, Tag>, key: TagKey, newId: Id, name: string)
    requires TagsAreFolded(tags) && !IsTagId(tags, newId) && key.folded == LowerCase(name)
    ensures TagsAreFolded(EnsureTag(tags, key, newId, name)) && key in EnsureTag(tags, key, newId, name)
  {
    hide LowerCase;
  }

  lemma EnsureTagKeepsIds(tags: map<TagKey, Tag>, key: TagKey, newId: Id, name: string, id: Id)
    requires IsTagId(tags, id)
    ensures IsTagId(EnsureTag(tags, key, newId, name), id)
  {
    var k :| k in tags && tags[k].id == id;
    assert k in EnsureTag(tags, key, newId, name);
  }

  lemma TagCreateConsistent(t: Tables, op: Op, newId: Id)
    requires op.entity == TagEntity && Consistent(t) && !IsTagId(t.tags, newId)
    ensures Consistent(TagCreate(t, op, newId).0)
  {
    hide TextField, BookOk, LowerCase, TagsAreFolded, SettingKeysUnique, EnsureTag, IsTagId;
    if op.fields.Some? && TagKeyOf(op.fields.value).Some? {
      var key, name := TagKeyOf(op.fields.value).value, TextField(op.fields.value, TagName).value;
      var tags := EnsureTag(t.tags, key, newId, name);
      EnsureTagFolds(t.tags, key, newId, name);
      forall link | link in t.bookTags ensures IsTagId(tags, link.1) {
        EnsureTagKeepsIds(t.tags, key, newId, name, link.1);
      }
      KeyIdTaken(tags, key);
      CreatedTag(t, op, newId, tags, key);
    }
  }

  lemma KeyIdTaken(tags: map<TagKey, Tag>, key: TagKey)
    requires key in tags
    ensures IsTagId(tags, tags[key].id)
  {
  }

  lemma CreatedTag(t: Tables, op: Op, newId: Id, tags: map<TagKey, Tag>, key: TagKey)
    requires op.fields.Some? && TagKeyOf(op.fields.value) == Some(key)
    requires tags == EnsureTag(t.tags, key, newId, TextField(op.fields.value, TagName).value) && key in tags
    ensures var u := TagCreate(t, op, newId).0;
      u == t.(tags := tags, bookTags := u.bookTags) &&
      (u.bookTags == t.bookTags || (op.entityId in t.books && u.bookTags == t.bookTags + {(op.entityId, tags[key].id)}))
  {
    hide TextField, TagKeyOf, EnsureTag;
  }

  lemma FactStepConsistent(t: Tables, op: Op, newId: Id)
    requires op.entity == SessionEntity || op.entity == ProgressEntity || op.entity == DeviceEntity
    requires Consistent(t)
    ensures Consistent(Step(t, op, newId))
  {
    hide SessionOf, ProgressOf, BookOk, Reached, TagsAreFolded, SettingKeysUnique, LinksKnown;
  }

  lemma BookStepConsistent(t: Tables, op: Op, newId: Id)
    requires op.entity == BookEntity && Consistent(t)
    ensures Consistent(Step(t, op, newId))
  {
    hide Step, BookOk, TagsAreFolded, SettingKeysUnique, IsTagId;
    BookStepKeepsOk(t, op, newId);
    BookFrame(t, op, newId);
    assert forall id :: id in t.books ==> id in Step(t, op, newId).books;
  }

  lemma NoteStepConsistent(t: Tables, op: Op, newId: Id)
    requires op.entity == NoteEntity && Consistent(t)
    ensures Consistent(Step(t, op, newId))
  {
    hide Step, BookOk, TagsAreFolded, SettingKeysUnique, LinksKnown;
    NoteFrame(t, op, newId);
  }

  lemma ReviewStepConsistent(t: Tables, op: Op, newId: Id)
    requires op.entity == ReviewEntity && Consistent(t)
    ensures Consistent(Step(t, op, newId))
  {
    hide Step, BookOk, TagsAreFolded, SettingKeysUnique, LinksKnown;
    ReviewFrame(t, op, newId);
  }

  lemma SettingStepConsistent(t: Tables, op: Op, newId: Id)
    requires op.entity == SettingEntity && Consistent(t)
    ensures Consistent(Step(t, op, newId))
  {
    hide Step, BookOk, TagsAreFolded, LinksKnown;
    SettingFrame(t, op, newId);
  }

  /** Every step keeps references, unique keys and column constraints. */
  lemma StepConsistent(t: Tables, op: Op, newId: Id)
    requires Consistent(t) && !IsTagId(t.tags, newId)
    ensures Consistent(Step(t, op, newId))
  {
    hide Step, Consistent;
    match op.entity
    case BookEntity => BookStepConsistent(t, op, newId);
    case TagEntity => TagStepConsistent(t, op, newId);
    case NoteEntity => NoteStepConsistent(t, op, newId);
    case ReviewEntity => ReviewStepConsistent(t, op, newId);
    case SettingEntity => SettingStepConsistent(t, op, newId);
    case _ => FactStepConsistent(t, op, newId);
  }

  /** Each generated tag id is new where it is generated. */
  predicate FreshIds(t: Tables, ds: seq<Delivery>)
    decreases |ds|
  {
    ds == [] || (!IsTagId(t.tags, ds[0].newId) && FreshIds(Step(t, ds[0].op, ds[0].newId), ds[1..]))
  }

  lemma {:induction false} RunConsistent(t: Tables, ds: seq<Delivery>)
    requires Consistent(t) && FreshIds(t, ds)
    ensures Consistent(Run(t, ds))
    decreases |ds|
  {
    hide Step, Consistent, IsTagId;
    if ds != [] {
      StepConsistent(t, ds[0].op, ds[0].newId);
      RunConsistent(Step(t, ds[0].op, ds[0].newId), ds[1..]);
    }
  }
}
