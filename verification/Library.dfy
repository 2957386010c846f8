/** The tables the merge rules read and write, and the sync ops that drive them. A table is a map
    from its key to the rest of the row. Creation and update times that no rule reads are left out. */
module Library {
  import opened Wrappers
  import opened Affinities

  type Id = string

  /** The names that occur in an op's field object. The first twelve are the syncable book fields. */
  datatype Key =
    | CoverHash | Description | DurationMinutes | Format | Language | PageCount
    | PubDate | Rating | Status | Subtitle | Title | WorkId
    | BookId | StartedAt | FinishedAt | StartPage | EndPage | Notes
    | ProgressType | Value | SessionId | NoteText | LoggedAt
    | TagName | TagType | Content | SettingKey | OtherKey(name: string)

  /** The syncable book fields, in the ascending order in which a JSON object is visited. */
  const BOOK_FIELDS: seq<Key> :=
    [CoverHash, Description, DurationMinutes, Format, Language, PageCount,
     PubDate, Rating, Status, Subtitle, Title, WorkId]

  predicate IsBookField(k: Key)
  {
    k.CoverHash? || k.Description? || k.DurationMinutes? || k.Format? || k.Language? || k.PageCount? ||
    k.PubDate? || k.Rating? || k.Status? || k.Subtitle? || k.Title? || k.WorkId?
  }

  predicate NoDuplicates(ks: seq<Key>)
  {
    forall i, j :: 0 <= i < j < |ks| ==> ks[i] != ks[j]
  }

  lemma BookFieldsAreDistinct()
    ensures NoDuplicates(BOOK_FIELDS)
    ensures forall k :: k in BOOK_FIELDS <==> IsBookField(k)
  {
    assert BOOK_FIELDS[0] == CoverHash && BOOK_FIELDS[1] == Description && BOOK_FIELDS[2] == DurationMinutes;
    assert BOOK_FIELDS[3] == Format && BOOK_FIELDS[4] == Language && BOOK_FIELDS[5] == PageCount;
    assert BOOK_FIELDS[6] == PubDate && BOOK_FIELDS[7] == Rating && BOOK_FIELDS[8] == Status;
    assert BOOK_FIELDS[9] == Subtitle && BOOK_FIELDS[10] == Title && BOOK_FIELDS[11] == WorkId;
    forall k: Key ensures k in BOOK_FIELDS <==> IsBookField(k) {
    }
  }

  // ---------------------------------------------------------------------------
  // Values
  // ---------------------------------------------------------------------------

  /** A JSON value. `JOther` is an array, an object or a fraction, by its text. */
  datatype Json = JNull | JStr(text: string) | JInt(number: int) | JBool(flag: bool) | JOther(raw: string)

  type Object = map<Key, Json>

  /** A stored column value. */
  datatype Cell = Nil | Str(text: string) | Int(number: int) | Real(amount: real)

  function TextField(obj: Object, k: Key): Option<string>
  {
    if k in obj && obj[k].JStr? then Some(obj[k].text) else None
  }

  predicate IsI64(n: int)
  {
    -0x8000_0000_0000_0000 <= n < 0x8000_0000_0000_0000
  }

  function IntField(obj: Object, k: Key): Option<int>
  {
    if k in obj && obj[k].JInt? && IsI64(obj[k].number) then Some(obj[k].number) else None
  }

  function TextCell(o: Option<string>): Cell
  {
    if o.Some? then Str(o.value) else Nil
  }

  function IntCell(o: Option<int>): Cell
  {
    if o.Some? then Int(o.value) else Nil
  }

  function GetOr<T>(o: Option<T>, default: T): T
  {
    if o.Some? then o.value else default
  }

  predicate IsIntegerColumn(k: Key)
  {
    k.PageCount? || k.DurationMinutes? || k.Rating?
  }

  /** A 64-bit integer or nothing, which is what a typed reader of an integer column expects. */
  predicate IsIntegerCell(c: Cell)
  {
    c.Nil? || (c.Int? && IsI64(c.number))
  }

  /** What a typed reader of a text column expects. */
  predicate IsTextCell(c: Cell)
  {
    c.Nil? || c.Str?
  }

  /** `value_to_sql`: the text that is bound for a value. */
  function SqlText(v: Json): Option<string>
  {
    match v
    case JNull => None
    case JStr(s) => Some(s)
    case JInt(n) => Some(SignedDecimal(n))
    case JBool(b) => Some(if b then "1" else "0")
    case JOther(raw) => Some(raw)
  }

  /** A number in an integer column: an integer if it is whole and fits. */
  function NumberCell(x: real): Cell
  {
    if x == x.Floor as real && IsI64(x.Floor) then Int(x.Floor) else Real(x)
  }

  /** What a column makes of a bound text: an integer column turns the spelling of a number into the number. */
  function StoredText(k: Key, s: string): Cell
  {
    if IsIntegerColumn(k) && ParseNumber(s).Some? then NumberCell(ParseNumber(s).value) else Str(s)
  }

  /** The value that an update stores. */
  function ToCell(k: Key, v: Json): Cell
  {
    if SqlText(v).Some? then StoredText(k, SqlText(v).value) else Nil
  }

  /** Binding an integer as text loses nothing: an integer column stores the integer itself. */
  lemma IntegersAreStored(k: Key, n: int)
    requires IsIntegerColumn(k)
    ensures ToCell(k, JInt(n)) == if IsI64(n) then Int(n) else Real(n as real)
  {
    hide ParseNumber, SignedDecimal;
    IntegerReadsBack(n);
  }

  predicate IsStars(c: Cell)
  {
    c.Nil? || (c.Int? && 0 <= c.number <= 10) || (c.Real? && 0.0 <= c.amount <= 10.0)
  }

  /** The NOT NULL and CHECK constraints of the books table. */
  predicate Storable(k: Key, c: Cell)
  {
    && (k.Title? || k.Format? || k.Status? ==> !c.Nil?)
    && (k.Rating? ==> IsStars(c))
  }

  // ---------------------------------------------------------------------------
  // Rows
  // ---------------------------------------------------------------------------

  datatype Tombstone = Tombstone(hlc: string, device: Id)

  /** A book together with its `metadata_provenance` rows: `clocks` holds each row's `sync_hlc`,
      which importers leave empty. */
  datatype Book = Book(cells: map<Key, Cell>, clocks: map<Key, Option<string>>, tombstone: Option<Tombstone>)

  function CellOf(b: Book, k: Key): Cell
  {
    if k in b.cells then b.cells[k] else Nil
  }

  function ClockOf(b: Book, k: Key): Option<string>
  {
    if k in b.clocks then b.clocks[k] else None
  }

  datatype Session = Session(bookId: Id, startedAt: string, finishedAt: Option<string>, startPage: Option<int>,
                             endPage: Option<int>, rating: Option<int>, notes: Option<string>, createdAt: string)

  datatype Progress = Progress(bookId: Id, sessionId: Option<Id>, progressType: string, value: int,
                               note: Option<string>, loggedAt: string, createdAt: string)

  /** Tags are unique by name, ignoring ASCII case, and type. */
  datatype TagKey = TagKey(folded: string, tagType: string)

  datatype Tag = Tag(id: Id, name: string)

  predicate IsTagId(tags: map<TagKey, Tag>, id: Id)
  {
    exists k :: k in tags && tags[k].id == id
  }

  datatype Note = Note(bookId: Id, content: string, tombstone: Option<Tombstone>)

  datatype Review = Review(bookId: Id, content: Option<string>, rating: Option<int>, tombstone: Option<Tombstone>)

  datatype Setting = Setting(key: string, value: string, syncHlc: Option<string>)

  datatype EntityType =
    | BookEntity | SessionEntity | ProgressEntity | TagEntity
    | NoteEntity | ReviewEntity | SettingEntity | DeviceEntity

  /** Key and value of a `sync_entity_hlc` row. */
  datatype ClockKey = ClockKey(entity: EntityType, id: Id, field: Key)

  datatype FieldClock = FieldClock(hlc: string, device: Option<Id>)

  /** Conflicts are unique by entity, field and remote clock. */
  datatype ConflictKey = ConflictKey(entity: EntityType, id: Id, field: Key, remoteHlc: string)

  datatype Conflict = Conflict(localValue: Cell, remoteValue: Cell, localHlc: string)

  datatype Tables = Tables(
    books: map<Id, Book>,
    sessions: map<Id, Session>,
    progress: map<Id, Progress>,
    tags: map<TagKey, Tag>,
    bookTags: set<(Id, Id)>,
    notes: map<Id, Note>,
    reviews: map<Id, Review>,
    settings: map<Id, Setting>,
    clocks: map<ClockKey, FieldClock>,
    conflicts: map<ConflictKey, Conflict>)

  const EMPTY: Tables := Tables(map[], map[], map[], map[], {}, map[], map[], map[], map[], map[])

  // ---------------------------------------------------------------------------
  // Ops
  // ---------------------------------------------------------------------------

  datatype OpType = Create | Update | Delete

  /** A decrypted sync op. `hlc` is the canonical text of its timestamp; `fields` is present when
      the op carries a JSON object. */
  datatype Op = Op(opId: Id, device: Id, hlc: string, entity: EntityType, entityId: Id,
                   opType: OpType, fields: Option<Object>, createdAt: string)

  /** What applying an op reports, with the conflicts it stored. `Failed` stands for a database error. */
  datatype Outcome =
    | Applied(conflicts: seq<(ConflictKey, Conflict)>)
    | Skipped(conflicts: seq<(ConflictKey, Conflict)>)
    | Rejected
    | Failed
}
