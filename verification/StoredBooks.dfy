/** What a book holds after each op, column by column, told from the JSON object it carries. */
module StoredBooks {
  import opened Wrappers
  import opened Text
  import opened Library
  import opened MergeRules
  import opened Statuses
  import opened StoredRows
  import BookRuns

  // ---------------------------------------------------------------------------
  // Books
  // ---------------------------------------------------------------------------

  /** A text column of a new book: what the op carries as text, or the default. */
  predicate ColumnIs(b: Book, obj: Object, k: Key, default: Cell)
  {
    CellOf(b, k) == if IsText(obj, k) then Str(obj[k].text) else default
  }

  predicate NumberColumnIs(b: Book, obj: Object, k: Key)
  {
    CellOf(b, k) == if IsNumber(obj, k) then Int(obj[k].number) else Nil
  }

  /** The three columns with a default. */
  predicate DefaultsHold(b: Book, obj: Object)
  {
    && ColumnIs(b, obj, Title, Str("Untitled")) && ColumnIs(b, obj, Format, Str("physical"))
    && ColumnIs(b, obj, Status, Str("want-to-read"))
  }

  predicate TextsHold(b: Book, obj: Object)
  {
    && ColumnIs(b, obj, Subtitle, Nil) && ColumnIs(b, obj, Description, Nil) && ColumnIs(b, obj, PubDate, Nil)
    && ColumnIs(b, obj, Language, Nil) && ColumnIs(b, obj, CoverHash, Nil) && ColumnIs(b, obj, WorkId, Nil)
  }

  predicate NumbersHold(b: Book, obj: Object)
  {
    NumberColumnIs(b, obj, PageCount) && NumberColumnIs(b, obj, DurationMinutes) && NumberColumnIs(b, obj, Rating)
  }

  ghost predicate ClocksHold(b: Book, obj: Object, hlc: string)
  {
    && (forall k :: k in b.clocks <==> k in obj && IsBookField(k))
    && (forall k :: k in b.clocks ==> b.clocks[k] == Some(hlc))
  }

  /** The create of a book that is not there: its twelve columns, with the three defaults, and a clock for every book
      field the op carries. A rating out of range fails. */
  lemma BookStored(t: Tables, op: Op, newId: Id)
    requires op.entity == BookEntity && op.opType == Create && op.entityId !in t.books
    ensures Step(t, op, newId) == t.(books := Step(t, op, newId).books)
    ensures if op.fields.Some? && StarsFit(op.fields.value)
      then RowAdded(t.books, Step(t, op, newId).books, op.entityId)
        && var b := Step(t, op, newId).books[op.entityId];
           DefaultsHold(b, op.fields.value) && TextsHold(b, op.fields.value) && NumbersHold(b, op.fields.value)
             && ClocksHold(b, op.fields.value, op.hlc) && b.tombstone == None
      else Step(t, op, newId).books == t.books
  {
    BookFrame(t, op, newId);
    BookMerge(t, op, newId);
    CreatedBooks(t, op);
    hide Merge, BookCreate, BookUpdate, NewBook, DefaultsHold, TextsHold, NumbersHold, ClocksHold;
    if op.fields.Some? {
      var obj := op.fields.value;
      NewBookHolds(obj, op.hlc);
      RatingRead(obj);
      hide NewCell, IsStars, StarsFit;
      PutAddsRow(t.books, op.entityId, NewBook(obj, op.hlc));
    }
    hide RowAdded, OnlyBook;
  }

  lemma RatingRead(obj: Object)
    ensures IsStars(NewCell(obj, Rating)) <==> StarsFit(obj)
  {
    StarsRead(obj);
    hide IsStars, StarsFit, IntField, IntCell;
  }

  lemma NewBookHolds(obj: Object, hlc: string)
    ensures var b := NewBook(obj, hlc);
      DefaultsHold(b, obj) && TextsHold(b, obj) && NumbersHold(b, obj) && ClocksHold(b, obj, hlc) && b.tombstone == None
  {
    var b := NewBook(obj, hlc);
    NewBookParts(obj, hlc);
    DefaultColumns(b, obj);
    TextColumns(b, obj);
    NumberColumns(b, obj);
    hide NewBook, DefaultsHold, TextsHold, NumbersHold, NewCell, CellOf;
  }

  lemma DefaultColumns(b: Book, obj: Object)
    requires forall k :: IsBookField(k) ==> CellOf(b, k) == NewCell(obj, k)
    ensures DefaultsHold(b, obj)
  {
    FieldReads(obj, Title);
    FieldReads(obj, Format);
    FieldReads(obj, Status);
    hide CellOf, TextField, IsText;
  }

  lemma TextColumns(b: Book, obj: Object)
    requires forall k :: IsBookField(k) ==> CellOf(b, k) == NewCell(obj, k)
    ensures TextsHold(b, obj)
  {
    TextColumn(b, obj, Subtitle);
    TextColumn(b, obj, Description);
    TextColumn(b, obj, PubDate);
    TextColumn(b, obj, Language);
    TextColumn(b, obj, CoverHash);
    TextColumn(b, obj, WorkId);
    hide CellOf, NewCell, ColumnIs;
  }

  lemma TextColumn(b: Book, obj: Object, k: Key)
    requires IsBookField(k) && !IsIntegerColumn(k) && k != Title && k != Format && k != Status
    requires CellOf(b, k) == NewCell(obj, k)
    ensures ColumnIs(b, obj, k, Nil)
  {
    FieldReads(obj, k);
    hide CellOf, TextField, IsText;
  }

  lemma NumberColumns(b: Book, obj: Object)
    requires forall k :: IsBookField(k) ==> CellOf(b, k) == NewCell(obj, k)
    ensures NumbersHold(b, obj)
  {
    FieldReads(obj, PageCount);
    FieldReads(obj, DurationMinutes);
    FieldReads(obj, Rating);
    hide CellOf, IntField, IsNumber;
  }

  lemma NewBookParts(obj: Object, hlc: string)
    ensures NewBook(obj, hlc).tombstone == None && ClocksHold(NewBook(obj, hlc), obj, hlc)
    ensures forall k :: IsBookField(k) ==> CellOf(NewBook(obj, hlc), k) == NewCell(obj, k)
  {
    BookFieldsAreDistinct();
    hide NewCell;
  }

  /** A deletion marks a live book, with the op's clock and device, and nothing else. */
  lemma BookDeleted(t: Tables, op: Op, newId: Id)
    requires op.entity == BookEntity && op.opType == Delete
    ensures Step(t, op, newId) ==
      if op.entityId in t.books && t.books[op.entityId].tombstone == None
      then t.(books := t.books[op.entityId := t.books[op.entityId].(tombstone := Some(Tombstone(op.hlc, op.device)))])
      else t
  {
    BookMerge(t, op, newId);
    hide Merge, OnlyBook;
  }

  /** A value that the column admits: no null in title and format, and a rating of at most ten stars. */
  predicate Admits(k: Key, v: Json)
  {
    && (k == Title || k == Format ==> v != JNull)
    && (k == Rating ==> v.JNull? || (v.JInt? && 0 <= v.number <= 10))
  }

  /** A value of the column's own type, and the cell it is stored as. */
  predicate StoredAs(k: Key, v: Json, c: Cell)
  {
    || (v.JNull? && c.Nil?)
    || (v.JStr? && !IsIntegerColumn(k) && c == Str(v.text))
    || (v.JInt? && IsIntegerColumn(k) && c == Int(v.number) &&
        -0x8000_0000_0000_0000 <= v.number <= 0x7FFF_FFFF_FFFF_FFFF)
  }

  lemma OwnTypeStored(k: Key, v: Json, c: Cell)
    requires StoredAs(k, v, c)
    ensures ToCell(k, v) == c && (k != Status ==> (Storable(k, ToCell(k, v)) <==> Admits(k, v)))
  {
    if v.JInt? {
      IntegersAreStored(k, v.number);
      hide ToCell;
    }
  }

  lemma OneColumnStored(b: Book, op: Op, k: Key, v: Json, c: Cell)
    requires b.tombstone.None? && IsBookField(k) && k != Status && op.fields == Some(map[k := v]) && StoredAs(k, v, c)
    ensures UpdatedBook(b, op) ==
      if Admits(k, v) && Newer(op.hlc, ClockOf(b, k))
      then b.(cells := b.cells[k := c], clocks := b.clocks[k := Some(op.hlc)]) else b
  {
    OwnTypeStored(k, v, c);
    OneColumn(b, op, k, v);
    hide ToCell, Storable, Admits, StoredAs, ClockOf, Newer, UpdatedBook;
  }

  /** A newer update of one column of a live book, other than the status, by a value of the column's type: it changes
      that column and its clock and nothing else, and only if the column admits the value. */
  lemma ColumnUpdated(t: Tables, op: Op, newId: Id, k: Key, v: Json, c: Cell)
    requires op.entity == BookEntity && op.opType == Update && BookRuns.Live(t, op.entityId)
    requires IsBookField(k) && k != Status && op.fields == Some(map[k := v]) && StoredAs(k, v, c)
    ensures var b := t.books[op.entityId];
      Step(t, op, newId) ==
        t.(books := t.books[op.entityId :=
             if Admits(k, v) && Newer(op.hlc, ClockOf(b, k))
             then b.(cells := b.cells[k := c], clocks := b.clocks[k := Some(op.hlc)]) else b])
  {
    UpdateStep(t, op, newId);
    OneColumnStored(t.books[op.entityId], op, k, v, c);
    hide Step, Admits, StoredAs, ClockOf, Newer, UpdatedBook;
  }

  lemma UpdateStep(t: Tables, op: Op, newId: Id)
    requires op.entity == BookEntity && op.opType == Update && op.entityId in t.books
    ensures Step(t, op, newId) == t.(books := t.books[op.entityId := UpdatedBook(t.books[op.entityId], op)])
  {
    BookFrame(t, op, newId);
    BookMerge(t, op, newId);
    UpdatedBooks(t, op);
    hide Merge, BookUpdate, UpdatedBook;
  }

  lemma OneColumn(b: Book, op: Op, k: Key, v: Json)
    requires b.tombstone.None? && IsBookField(k) && k != Status && op.fields == Some(map[k := v])
    ensures UpdatedBook(b, op) ==
      if Storable(k, ToCell(k, v)) && Newer(op.hlc, ClockOf(b, k))
      then b.(cells := b.cells[k := ToCell(k, v)], clocks := b.clocks[k := Some(op.hlc)]) else b
  {
    hide Visit, VisitAll, ToCell, Storable, ClockOf, Newer;
    BookFieldsAreDistinct();
    BookRuns.WalkOfOneKey(Walk(b, false, Going), BOOK_FIELDS, k, op.fields.value, op.hlc);
    OneVisit(Walk(b, false, Going), k, op.fields.value, op.hlc);
  }

  lemma OneVisit(w: Walk, k: Key, obj: Object, hlc: string)
    requires w.halt == Going && k in obj && k != Status
    ensures Visit(w, k, obj, hlc).book ==
      if Storable(k, ToCell(k, obj[k])) && Newer(hlc, ClockOf(w.book, k))
      then w.book.(cells := w.book.cells[k := ToCell(k, obj[k])], clocks := w.book.clocks[k := Some(hlc)]) else w.book
  {
    hide StatusVerdict, ToCell, Storable, Newer, ClockOf;
  }

  // ---------------------------------------------------------------------------
  // Statuses
  // ---------------------------------------------------------------------------

  /** The moves of the reading lifecycle. */
  const EDGES: set<(ReadingStatus, ReadingStatus)> :=
    {(WantToRead, Reading), (Reading, ReadingStatus.Read), (Reading, Abandoned), (Reading, OnHold),
     (OnHold, Reading), (Abandoned, Reading), (ReadingStatus.Read, Reading)}

  /** A newer status is taken exactly along an edge, or if it stays. */
  lemma StatusMovesAlongEdges(t: Tables, op: Op, newId: Id, id: Id, from: ReadingStatus, s: ReadingStatus)
    requires BookRuns.Live(t, id) && BookRuns.SetsStatus(op, id, s)
    requires BookRuns.StatusOf(t.books[id]) == Some(from) && Newer(op.hlc, ClockOf(t.books[id], Status))
    ensures BookRuns.Live(Step(t, op, newId), id)
    ensures BookRuns.StatusOf(Step(t, op, newId).books[id]) == Some(if from == s || (from, s) in EDGES then s else from)
  {
    hide Step, Newer, BookRuns.SetsStatus, BookRuns.StatusOf, ClockOf;
    BookRuns.StatusUpdate(t, op, newId, id, from, s);
  }

  /** The names of a status. */
  function StatusNames(s: ReadingStatus): seq<string>
  {
    match s
    case WantToRead => ["want-to-read", "to-read"]
    case Reading => ["reading", "currently-reading"]
    case Read => ["read"]
    case Abandoned => ["abandoned", "dnf"]
    case OnHold => ["on-hold", "paused"]
  }

  /** In small or capital letters, these and no others. */
  lemma StatusIsNamed(text: string, s: ReadingStatus)
    ensures ParseStatus(text) == Some(s) <==> LowerCase(text) in StatusNames(s)
  {
    hide LowerCase;
  }
}
