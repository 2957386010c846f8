/** What each op leaves in the tables, column by column, told from the JSON object it carries. */
module StoredRows {
  import opened Wrappers
  import opened Text
  import opened Library
  import opened MergeRules

  // ---------------------------------------------------------------------------
  // Reading the object
  // ---------------------------------------------------------------------------

  predicate IsText(obj: Object, k: Key)
  {
    k in obj && obj[k].JStr?
  }

  predicate IsNumber(obj: Object, k: Key)
  {
    k in obj && obj[k].JInt? && -0x8000_0000_0000_0000 <= obj[k].number <= 0x7FFF_FFFF_FFFF_FFFF
  }

  /** The column holds the text under `k`, and nothing if there is no text. */
  predicate TextIs(column: Option<string>, obj: Object, k: Key)
  {
    if IsText(obj, k) then column == Some(obj[k].text) else column == None
  }

  predicate NumberIs(column: Option<int>, obj: Object, k: Key)
  {
    if IsNumber(obj, k) then column == Some(obj[k].number) else column == None
  }

  /** The same of a column with a default. */
  predicate TextOr(column: string, obj: Object, k: Key, default: string)
  {
    column == if IsText(obj, k) then obj[k].text else default
  }

  /** A rating is absent, no integer, or at most ten stars. */
  predicate StarsFit(obj: Object)
  {
    IsNumber(obj, Rating) ==> 0 <= obj[Rating].number <= 10
  }

  /** The table has got one more row. */
  ghost predicate RowAdded<V(!new)>(a: map<Id, V>, b: map<Id, V>, id: Id)
  {
    id !in a && id in b && forall k :: k != id ==> (k in b <==> k in a) && (k in a ==> b[k] == a[k])
  }

  lemma PutAddsRow<V(!new)>(table: map<Id, V>, id: Id, row: V)
    requires id !in table
    ensures RowAdded(table, table[id := row], id)
  {
  }

  // ---------------------------------------------------------------------------
  // Sessions and progress
  // ---------------------------------------------------------------------------

  /** The create names a known book and a start, and its id is free. */
  predicate SessionFits(t: Tables, op: Op)
  {
    && op.fields.Some? && IsText(op.fields.value, BookId) && IsText(op.fields.value, StartedAt)
    && StarsFit(op.fields.value) && op.entityId !in t.sessions && op.fields.value[BookId].text in t.books
  }

  predicate SessionHolds(s: Session, obj: Object, createdAt: string)
  {
    && TextIs(Some(s.bookId), obj, BookId) && TextIs(Some(s.startedAt), obj, StartedAt)
    && TextIs(s.finishedAt, obj, FinishedAt)
    && NumberIs(s.startPage, obj, StartPage) && NumberIs(s.endPage, obj, EndPage)
    && NumberIs(s.rating, obj, Rating) && TextIs(s.notes, obj, Notes) && s.createdAt == createdAt
  }

  lemma FieldReads(obj: Object, k: Key)
    ensures TextField(obj, k) == (if IsText(obj, k) then Some(obj[k].text) else None)
    ensures IntField(obj, k) == (if IsNumber(obj, k) then Some(obj[k].number) else None)
    ensures TextIs(TextField(obj, k), obj, k) && NumberIs(IntField(obj, k), obj, k)
  {
  }

  lemma StarsRead(obj: Object)
    ensures IsStars(IntCell(IntField(obj, Rating))) <==> StarsFit(obj)
  {
  }

  lemma SessionRead(obj: Object, createdAt: string)
    ensures var row := SessionOf(obj, createdAt);
      && (row.Some? <==> IsText(obj, BookId) && IsText(obj, StartedAt))
      && (row.Some? ==>
          row.value.bookId == obj[BookId].text && row.value.rating == IntField(obj, Rating)
          && SessionHolds(row.value, obj, createdAt))
  {
    FieldReads(obj, BookId);
    FieldReads(obj, StartedAt);
    FieldReads(obj, FinishedAt);
    FieldReads(obj, StartPage);
    FieldReads(obj, EndPage);
    FieldReads(obj, Rating);
    FieldReads(obj, Notes);
    hide TextField, IntField, TextIs, NumberIs, IsNumber, IsText;
  }

  /** A session row is added exactly when the create fits, with the op's values in its eight columns. */
  lemma SessionStored(t: Tables, op: Op, newId: Id)
    requires op.entity == SessionEntity && op.opType == Create
    ensures if SessionFits(t, op)
      then RowAdded(t.sessions, Step(t, op, newId).sessions, op.entityId)
        && SessionHolds(Step(t, op, newId).sessions[op.entityId], op.fields.value, op.createdAt)
      else Step(t, op, newId).sessions == t.sessions
    ensures Step(t, op, newId) == t.(sessions := Step(t, op, newId).sessions)
  {
    SessionFrame(t, op, newId);
    if op.fields.Some? {
      SessionRead(op.fields.value, op.createdAt);
      StarsRead(op.fields.value);
      if SessionFits(t, op) {
        PutAddsRow(t.sessions, op.entityId, SessionOf(op.fields.value, op.createdAt).value);
      }
    }
    hide Step, RowAdded, SessionOf, SessionHolds, StarsFit, IsStars, IntField, IsText;
  }

  /** The entry is about the book and of the type that the object names. */
  predicate SameKind(p: Progress, obj: Object)
    requires IsText(obj, BookId)
  {
    p.bookId == obj[BookId].text && TextOr(p.progressType, obj, ProgressType, "page")
  }

  /** The create names a known book, a value above all of its kind, and a time, and its id is free. */
  predicate ProgressFits(t: Tables, op: Op)
  {
    && op.fields.Some? && IsText(op.fields.value, BookId) && IsNumber(op.fields.value, Value)
    && IsText(op.fields.value, LoggedAt) && op.entityId !in t.progress
    && op.fields.value[BookId].text in t.books
    && (IsText(op.fields.value, SessionId) ==> op.fields.value[SessionId].text in t.sessions)
    && forall id | id in t.progress && SameKind(t.progress[id], op.fields.value) ::
         t.progress[id].value < op.fields.value[Value].number
  }

  predicate ProgressHolds(p: Progress, obj: Object, createdAt: string)
  {
    && TextIs(Some(p.bookId), obj, BookId) && NumberIs(Some(p.value), obj, Value)
    && TextIs(Some(p.loggedAt), obj, LoggedAt) && TextIs(p.sessionId, obj, SessionId)
    && TextOr(p.progressType, obj, ProgressType, "page") && TextIs(p.note, obj, NoteText) && p.createdAt == createdAt
  }

  lemma ProgressRead(obj: Object, createdAt: string)
    ensures var row := ProgressOf(obj, createdAt);
      && (row.Some? <==> IsText(obj, BookId) && IsNumber(obj, Value) && IsText(obj, LoggedAt))
      && (row.Some? ==>
          row.value.bookId == obj[BookId].text && row.value.value == obj[Value].number
          && row.value.sessionId == TextField(obj, SessionId) && ProgressHolds(row.value, obj, createdAt))
  {
    FieldReads(obj, BookId);
    FieldReads(obj, Value);
    FieldReads(obj, LoggedAt);
    FieldReads(obj, SessionId);
    FieldReads(obj, ProgressType);
    FieldReads(obj, NoteText);
    hide TextField, IntField, TextIs, NumberIs, IsNumber, IsText;
  }

  /** Some entry of the same kind is not below the value exactly when the value is reached. */
  lemma KindReached(progress: map<Id, Progress>, p: Progress, obj: Object)
    requires IsText(obj, BookId) && p.bookId == obj[BookId].text && TextOr(p.progressType, obj, ProgressType, "page")
    ensures Reached(progress, p.bookId, p.progressType, p.value) <==>
      exists id :: id in progress && SameKind(progress[id], obj) && p.value <= progress[id].value
  {
    hide IsText;
  }

  /** The rule, read off its row. */
  lemma ProgressCreated(t: Tables, op: Op)
    requires op.fields.Some?
    ensures var row := ProgressOf(op.fields.value, op.createdAt);
      ProgressCreate(t, op).0.progress ==
        if row.Some? && !Reached(t.progress, row.value.bookId, row.value.progressType, row.value.value)
          && op.entityId !in t.progress && row.value.bookId in t.books
          && (row.value.sessionId.Some? ==> row.value.sessionId.value in t.sessions)
        then t.progress[op.entityId := row.value] else t.progress
  {
    hide ProgressOf, Reached;
  }

  lemma ProgressFitsRow(t: Tables, op: Op)
    requires op.fields.Some?
    ensures var row := ProgressOf(op.fields.value, op.createdAt);
      ProgressFits(t, op) <==>
        row.Some? && !Reached(t.progress, row.value.bookId, row.value.progressType, row.value.value)
        && op.entityId !in t.progress && row.value.bookId in t.books
        && (row.value.sessionId.Some? ==> row.value.sessionId.value in t.sessions)
  {
    var obj := op.fields.value;
    ProgressRead(obj, op.createdAt);
    FieldReads(obj, SessionId);
    var row := ProgressOf(obj, op.createdAt);
    if row.Some? {
      assert TextOr(row.value.progressType, obj, ProgressType, "page");
      KindReached(t.progress, row.value, obj);
    }
    hide ProgressOf, ProgressHolds, Reached, SameKind, TextField, IsText, IsNumber;
  }

  /** A progress row is added exactly when the create fits, with the op's values in its seven columns. */
  lemma ProgressStored(t: Tables, op: Op, newId: Id)
    requires op.entity == ProgressEntity && op.opType == Create
    ensures if ProgressFits(t, op)
      then RowAdded(t.progress, Step(t, op, newId).progress, op.entityId)
        && ProgressHolds(Step(t, op, newId).progress[op.entityId], op.fields.value, op.createdAt)
      else Step(t, op, newId).progress == t.progress
    ensures Step(t, op, newId) == t.(progress := Step(t, op, newId).progress)
  {
    ProgressFrame(t, op, newId);
    if op.fields.Some? {
      ProgressCreated(t, op);
      ProgressFitsRow(t, op);
      ProgressRead(op.fields.value, op.createdAt);
      hide ProgressFits, ProgressCreate;
      if ProgressFits(t, op) {
        PutAddsRow(t.progress, op.entityId, ProgressOf(op.fields.value, op.createdAt).value);
      }
    }
    hide Step, RowAdded, ProgressOf, ProgressHolds, Reached, IsText, IsNumber;
  }

  // ---------------------------------------------------------------------------
  // Tags
  // ---------------------------------------------------------------------------

  /** The tag is stored under this name, up to case, and this type. */
  predicate IsTagNamed(k: TagKey, obj: Object)
    requires IsText(obj, TagName)
  {
    k.folded == LowerCase(obj[TagName].text) && TextOr(k.tagType, obj, TagType, "general")
  }

  lemma TagRead(obj: Object, k: TagKey)
    requires IsText(obj, TagName) && IsTagNamed(k, obj)
    ensures TagKeyOf(obj) == Some(k) && TextField(obj, TagName) == Some(obj[TagName].text)
  {
    hide LowerCase;
  }

  lemma OldTagStored(t: Tables, op: Op, newId: Id, k: TagKey)
    requires op.fields.Some? && TagKeyOf(op.fields.value) == Some(k) && k in t.tags
    requires TextField(op.fields.value, TagName).Some?
    ensures TagCreate(t, op, newId).0 ==
      t.(bookTags := if op.entityId in t.books then t.bookTags + {(op.entityId, t.tags[k].id)} else t.bookTags)
  {
    hide TagKeyOf, TextField, IsTagId;
    LinkedAlready(t.bookTags, (op.entityId, t.tags[k].id));
  }

  lemma NewTagStored(t: Tables, op: Op, newId: Id, k: TagKey)
    requires op.fields.Some? && TagKeyOf(op.fields.value) == Some(k) && k !in t.tags && !IsTagId(t.tags, newId)
    requires TextField(op.fields.value, TagName).Some?
    ensures TagCreate(t, op, newId).0 ==
      t.(tags := t.tags[k := Tag(newId, TextField(op.fields.value, TagName).value)],
         bookTags := if op.entityId in t.books then t.bookTags + {(op.entityId, newId)} else t.bookTags)
  {
    hide TagKeyOf, TextField, IsTagId;
    LinkedAlready(t.bookTags, (op.entityId, newId));
  }

  /** A create makes sure of a tag of that name and type, with the new id if there was none, and puts it on a known
      book. It changes no other tag and no other link. */
  lemma TagStored(t: Tables, op: Op, newId: Id, k: TagKey)
    requires op.entity == TagEntity && op.opType == Create && !IsTagId(t.tags, newId)
    requires op.fields.Some? && IsText(op.fields.value, TagName) && IsTagNamed(k, op.fields.value)
    ensures var u := Step(t, op, newId);
      && k in u.tags && u.tags[k] == (if k in t.tags then t.tags[k] else Tag(newId, op.fields.value[TagName].text))
      && u == t.(tags := t.tags[k := u.tags[k]],
                 bookTags := if op.entityId in t.books then t.bookTags + {(op.entityId, u.tags[k].id)} else t.bookTags)
  {
    TagFrame(t, op, newId);
    TagRead(op.fields.value, k);
    hide Step, TagKeyOf, TextField, IsTagNamed, IsText, IsTagId, TagCreate, TagDelete;
    if k in t.tags {
      assert t.tags[k := t.tags[k]] == t.tags;
      OldTagStored(t, op, newId, k);
    } else {
      NewTagStored(t, op, newId, k);
    }
  }

  lemma LinkedAlready(links: set<(Id, Id)>, link: (Id, Id))
    ensures link in links ==> links + {link} == links
  {
  }

  /** A deletion takes that tag off the book, and nothing else. */
  lemma TagRemoved(t: Tables, op: Op, newId: Id, k: TagKey)
    requires op.entity == TagEntity && op.opType == Delete
    requires op.fields.Some? && IsText(op.fields.value, TagName) && IsTagNamed(k, op.fields.value)
    ensures Step(t, op, newId) ==
      t.(bookTags := t.bookTags - (if k in t.tags then {(op.entityId, t.tags[k].id)} else {}))
  {
    TagFrame(t, op, newId);
    TagRead(op.fields.value, k);
    hide Step, TagKeyOf, TextField, IsTagNamed, IsText;
    if k in t.tags && (op.entityId, t.tags[k].id) !in t.bookTags {
      assert t.bookTags - {(op.entityId, t.tags[k].id)} == t.bookTags;
    } else if k !in t.tags {
      assert t.bookTags - {} == t.bookTags;
    }
  }

  /** Without a name nothing happens. */
  lemma TagNeedsName(t: Tables, op: Op, newId: Id)
    requires op.entity == TagEntity && (op.fields.Some? ==> !IsText(op.fields.value, TagName))
    ensures Step(t, op, newId) == t
  {
    TagFrame(t, op, newId);
    hide Step, LowerCase;
  }

  // ---------------------------------------------------------------------------
  // Settings
  // ---------------------------------------------------------------------------

  /** The op names a key and a value. */
  predicate IsPair(op: Op)
  {
    op.fields.Some? && IsText(op.fields.value, SettingKey) && IsText(op.fields.value, Value)
  }

  lemma PairRead(op: Op)
    requires op.fields.Some?
    ensures SettingOf(op.fields.value) ==
      if IsPair(op) then Some((op.fields.value[SettingKey].text, op.fields.value[Value].text)) else None
  {
    FieldReads(op.fields.value, SettingKey);
    FieldReads(op.fields.value, Value);
    hide TextField, IsText;
  }

  /** A setting is inserted under its id if its key is free. */
  lemma SettingStored(t: Tables, op: Op, newId: Id)
    requires op.entity == SettingEntity && op.opType != Delete && op.entityId !in t.settings
    ensures Step(t, op, newId) ==
      if IsPair(op) && forall id :: id in t.settings ==> t.settings[id].key != op.fields.value[SettingKey].text then
        var row := Setting(op.fields.value[SettingKey].text, op.fields.value[Value].text, Some(op.hlc));
        t.(settings := t.settings[op.entityId := row])
      else t
  {
    SettingMerge(t, op, newId);
    if op.fields.Some? {
      PairRead(op);
    }
    hide Merge, OnlySetting, SettingOf, IsText;
  }

  /** One that is there gets a newer value, and keeps its key. */
  lemma SettingEdited(t: Tables, op: Op, newId: Id)
    requires op.entity == SettingEntity && op.opType != Delete && op.entityId in t.settings
    ensures Step(t, op, newId) ==
      var prior := t.settings[op.entityId];
      if IsPair(op) && (prior.syncHlc.None? || Less(prior.syncHlc.value, op.hlc))
      then t.(settings := t.settings[op.entityId := Setting(prior.key, op.fields.value[Value].text, Some(op.hlc))])
      else t
  {
    SettingMerge(t, op, newId);
    if op.fields.Some? {
      PairRead(op);
    }
    hide Merge, OnlySetting, SettingOf, IsText, KeyTaken;
  }
}
