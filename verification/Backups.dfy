/** Backups of the whole library, and the rules by which a restore writes one back. */
module Backups {
  import opened Wrappers
  import opened Text
  import opened Library
  import opened MergeRules
  import opened Snapshots
  import opened Catalogs

  // ---------------------------------------------------------------------------
  // Rows
  // ---------------------------------------------------------------------------

  datatype FullBook = FullBook(cells: map<Key, Cell>, goodreads: Option<string>, calibre: Option<int>,
                               createdAt: string, updatedAt: string, deletedAt: Option<string>, deletedBy: Option<Id>)

  function Column(b: FullBook, k: Key): Cell
  {
    if k in b.cells then b.cells[k] else Nil
  }

  /** A `metadata_provenance` row. Importers leave the sync clock empty. */
  datatype Provenance = Provenance(source: string, sourceDate: string, isUserOverride: bool, syncHlc: Option<string>)

  /** `COALESCE(sync_hlc, source_date)`. */
  function Effective(p: Provenance): string
  {
    if p.syncHlc.Some? then p.syncHlc.value else p.sourceDate
  }

  /** A row with a natural key beside its id: a tag by folded name and type, a shelf by name. */
  datatype Named<K, V> = Named(key: K, id: Id, info: V)

  datatype TagInfo = TagInfo(name: string, createdAt: string)

  datatype ShelfInfo = ShelfInfo(isSmart: bool, smartFilter: Option<string>, createdAt: string)

  /** A note or a review. Notes have no rating and always have content. */
  datatype Remark = Remark(bookId: Id, content: Option<string>, rating: Option<int>, deletedAt: Option<string>,
                           deletedBy: Option<Id>, createdAt: string, updatedAt: string)

  datatype SettingRow = SettingRow(id: Id, value: string, syncHlc: Option<string>, updatedAt: string)

  /** The user-owned tables. */
  datatype Store = Store(
    books: map<Id, FullBook>,
    provenance: map<(Id, Key), Provenance>,
    isbns: map<string, Id>,
    tags: map<TagKey, Named<TagKey, TagInfo>>,
    shelves: map<string, Named<string, ShelfInfo>>,
    bookTags: set<(Id, Id)>,
    bookShelves: set<(Id, Id)>,
    sessions: map<Id, Session>,
    progress: map<Id, Progress>,
    clocks: map<ClockKey, FieldClock>,
    notes: map<Id, Remark>,
    reviews: map<Id, Remark>,
    settings: map<string, SettingRow>,
    catalog: Catalog)

  const EMPTY_STORE: Store :=
    Store(map[], map[], map[], map[], map[], {}, {}, map[], map[], map[], map[], map[], map[], EMPTY_CATALOG)

  /** The same tables as lists of rows. */
  datatype Backup = Backup(
    books: Rows<FullBook>,
    provenance: seq<((Id, Key), Provenance)>,
    isbns: Rows<Id>,
    tags: seq<Named<TagKey, TagInfo>>,
    shelves: seq<Named<string, ShelfInfo>>,
    bookTags: seq<(Id, Id)>,
    bookShelves: seq<(Id, Id)>,
    sessions: Rows<Session>,
    progress: Rows<Progress>,
    clocks: seq<(ClockKey, FieldClock)>,
    notes: Rows<Remark>,
    reviews: Rows<Remark>,
    settings: seq<(string, SettingRow)>,
    catalog: CatalogRows)

  datatype RestoreMode = MergeInto | Replace

  // ---------------------------------------------------------------------------
  // Books and their provenance
  // ---------------------------------------------------------------------------

  ghost function GoodreadsHolder(books: map<Id, FullBook>, source: string): Option<Id>
  {
    if exists id :: id in books && books[id].goodreads == Some(source)
    then var id :| id in books && books[id].goodreads == Some(source); Some(id)
    else None
  }

  ghost function CalibreHolder(books: map<Id, FullBook>, source: int): Option<Id>
  {
    if exists id :: id in books && books[id].calibre == Some(source)
    then var id :| id in books && books[id].calibre == Some(source); Some(id)
    else None
  }

  /** The library book of the first of a book's ISBNs that is known; `i` counts the rows left. */
  function IsbnHolder(isbns: map<string, Id>, rows: Rows<Id>, book: Id, i: nat := 0): Option<Id>
    requires i <= |rows|
    decreases |rows| - i
  {
    if i == |rows| then None
    else if rows[i].1 == book && rows[i].0 in isbns then Some(isbns[rows[i].0])
    else IsbnHolder(isbns, rows, book, i + 1)
  }

  /** The library's counterpart of a book: by id, by source ids, by any shared ISBN. */
  ghost function FindExisting(books: map<Id, FullBook>, isbns: map<string, Id>, rows: Rows<Id>, id: Id,
                              b: FullBook): Option<Id>
  {
    if id in books then Some(id)
    else if b.goodreads.Some? && GoodreadsHolder(books, b.goodreads.value).Some?
      then GoodreadsHolder(books, b.goodreads.value)
    else if b.calibre.Some? && CalibreHolder(books, b.calibre.value).Some? then CalibreHolder(books, b.calibre.value)
    else IsbnHolder(isbns, rows, id)
  }

  /** The provenance fields that name a column a restore writes. The work is not one of them. */
  predicate IsMapped(k: Key)
  {
    IsBookField(k) && k != WorkId
  }

  function ApplyField(local: FullBook, k: Key, incoming: FullBook): FullBook
  {
    if IsMapped(k) then local.(cells := local.cells[k := Column(incoming, k)], updatedAt := incoming.updatedAt)
      else local
  }

  /** One book while its fields are merged. `ok` turns false on a database error. */
  datatype FieldStage = FieldStage(row: FullBook, provenance: map<(Id, Key), Provenance>, ok: bool)

  function MergeField(s: FieldStage, local: Id, k: Key, incoming: FullBook, p: Provenance): FieldStage
  {
    if (local, k) in s.provenance && !Less(Effective(s.provenance[(local, k)]), Effective(p)) then s else
    FieldStage(ApplyField(s.row, k, incoming),
               s.provenance[(local, k) := p.(syncHlc := Some(Effective(p)))],
               s.ok && (k == Rating ==> IsStars(Column(incoming, k))))
  }

  /** After the first `n` provenance rows, of which those of the incoming book count. */
  function MergeFields(s: FieldStage, local: Id, id: Id, incoming: FullBook, rows: seq<((Id, Key), Provenance)>,
                       n: nat): FieldStage
    requires n <= |rows|
  {
    if n == 0 then s else
    var before := MergeFields(s, local, id, incoming, rows, n - 1);
    if rows[n - 1].0.0 == id then MergeField(before, local, rows[n - 1].0.1, incoming, rows[n - 1].1) else before
  }

  /** A new book's provenance, copied as it is. */
  function CopyProvenance(provenance: map<(Id, Key), Provenance>, id: Id, rows: seq<((Id, Key), Provenance)>,
                          n: nat): map<(Id, Key), Provenance>
    requires n <= |rows|
  {
    if n == 0 then provenance else
    var before := CopyProvenance(provenance, id, rows, n - 1);
    if rows[n - 1].0.0 == id then before[rows[n - 1].0 := rows[n - 1].1] else before
  }

  datatype BookStage = BookStage(books: map<Id, FullBook>, provenance: map<(Id, Key), Provenance>, ids: IdMap, ok: bool)

  /** The constraints an insert meets: the primary key, the two unique source ids and the rating. */
  predicate Insertable(books: map<Id, FullBook>, id: Id, b: FullBook)
  {
    && id !in books
    && (forall other :: other in books && b.goodreads.Some? ==> books[other].goodreads != b.goodreads)
    && (forall other :: other in books && b.calibre.Some? ==> books[other].calibre != b.calibre)
    && IsStars(Column(b, Rating))
  }

  function InsertBook(s: BookStage, id: Id, b: FullBook, rows: seq<((Id, Key), Provenance)>): BookStage
  {
    if !Insertable(s.books, id, b) then s.(ok := false)
    else s.(books := s.books[id := b], provenance := CopyProvenance(s.provenance, id, rows, |rows|),
            ids := s.ids[id := id])
  }

  function MergeBook(s: BookStage, local: Id, id: Id, b: FullBook, rows: seq<((Id, Key), Provenance)>): BookStage
    requires local in s.books
  {
    var merged := MergeFields(FieldStage(s.books[local], s.provenance, true), local, id, b, rows, |rows|);
    BookStage(s.books[local := merged.row], merged.provenance, s.ids[id := local], merged.ok)
  }

  ghost function RestoreBook(s: BookStage, isbns: map<string, Id>, data: Backup, mode: RestoreMode, id: Id,
                             b: FullBook): BookStage
  {
    if !s.ok then s else
    match (if mode == Replace then None else FindExisting(s.books, isbns, data.isbns, id, b))
    case None => InsertBook(s, id, b, data.provenance)
    case Some(local) => if local in s.books then MergeBook(s, local, id, b, data.provenance) else s.(ok := false)
  }

  /** After the first `n` books. */
  ghost function RestoreBooks(store: Store, data: Backup, mode: RestoreMode, n: nat): BookStage
    requires n <= |data.books|
  {
    if n == 0 then BookStage(store.books, store.provenance, map[], true)
    else RestoreBook(RestoreBooks(store, data, mode, n - 1), store.isbns, data, mode, data.books[n - 1].0,
                     data.books[n - 1].1)
  }

  // ---------------------------------------------------------------------------
  // Tags and shelves: one row per natural key
  // ---------------------------------------------------------------------------

  predicate IdTaken<K(==), V>(table: map<K, Named<K, V>>, id: Id)
  {
    exists k :: k in table && table[k].id == id
  }

  datatype NameStage<K, V> = NameStage(table: map<K, Named<K, V>>, ids: IdMap, ok: bool)

  function RestoreName<K(==), V>(s: NameStage<K, V>, row: Named<K, V>): NameStage<K, V>
  {
    if !s.ok then s
    else if row.key in s.table then s.(ids := s.ids[row.id := s.table[row.key].id])
    else if IdTaken(s.table, row.id) then s.(ok := false)
    else s.(table := s.table[row.key := row], ids := s.ids[row.id := row.id])
  }

  function RestoreNames<K(==), V>(table: map<K, Named<K, V>>, rows: seq<Named<K, V>>, n: nat): NameStage<K, V>
    requires n <= |rows|
  {
    if n == 0 then NameStage(table, map[], true) else RestoreName(RestoreNames(table, rows, n - 1), rows[n - 1])
  }

  // ---------------------------------------------------------------------------
  // Insert-if-absent rows with remapped references
  // ---------------------------------------------------------------------------

  function RemapIsbns(rows: Rows<Id>, ids: IdMap): Rows<Id>
  {
    seq(|rows|, i requires 0 <= i < |rows| => (rows[i].0, Resolve(ids, rows[i].1)))
  }

  function RemapSessions(rows: Rows<Session>, ids: IdMap): Rows<Session>
  {
    seq(|rows|, i requires 0 <= i < |rows| => (rows[i].0, rows[i].1.(bookId := Resolve(ids, rows[i].1.bookId))))
  }

  function RemapProgress(rows: Rows<Progress>, ids: IdMap): Rows<Progress>
  {
    seq(|rows|, i requires 0 <= i < |rows| => (rows[i].0, rows[i].1.(bookId := Resolve(ids, rows[i].1.bookId))))
  }

  function RemapLinks(rows: seq<(Id, Id)>, books: IdMap, others: IdMap): set<(Id, Id)>
  {
    set link | link in rows :: (Resolve(books, link.0), Resolve(others, link.1))
  }

  /** Every link that is not stored yet needs both of its ends. */
  predicate LinksHold<K(==), V>(stored: set<(Id, Id)>, links: set<(Id, Id)>, books: map<Id, FullBook>,
                        table: map<K, Named<K, V>>)
  {
    forall link :: link in links && link !in stored ==> link.0 in books && IdTaken(table, link.1)
  }

  function IsbnRefers(books: map<Id, FullBook>): (string, Id) -> bool
  {
    (isbn: string, book: Id) => book in books
  }

  function SessionRefers(books: map<Id, FullBook>): (Id, Session) -> bool
  {
    (id: Id, s: Session) => s.bookId in books
  }

  function EntryRefers(books: map<Id, FullBook>, sessions: map<Id, Session>): (Id, Progress) -> bool
  {
    (id: Id, p: Progress) => p.bookId in books && (p.sessionId.Some? ==> p.sessionId.value in sessions)
  }

  // ---------------------------------------------------------------------------
  // Clocks, notes and reviews, settings
  // ---------------------------------------------------------------------------

  function RemapClock(ck: ClockKey, ids: IdMap): ClockKey
  {
    if ck.entity == BookEntity then ck.(id := Resolve(ids, ck.id)) else ck
  }

  function RestoreClocks(clocks: map<ClockKey, FieldClock>, rows: seq<(ClockKey, FieldClock)>, ids: IdMap,
                         n: nat): map<ClockKey, FieldClock>
    requires n <= |rows|
  {
    if n == 0 then clocks else
    var before, ck := RestoreClocks(clocks, rows, ids, n - 1), RemapClock(rows[n - 1].0, ids);
    if ck in before && !Less(before[ck].hlc, rows[n - 1].1.hlc) then before else before[ck := rows[n - 1].1]
  }

  /** The backup's clock for a field, if it has one; the first of several counts. */
  function BackupClock(rows: seq<(ClockKey, FieldClock)>, ck: ClockKey, i: nat := 0): Option<string>
    requires i <= |rows|
    decreases |rows| - i
  {
    if i == |rows| then None else if rows[i].0 == ck then Some(rows[i].1.hlc) else BackupClock(rows, ck, i + 1)
  }

  /** Whether an existing note or review is overwritten: by content clock if the backup has one,
      else by update time. */
  predicate Overwrites(local: Remark, row: Remark, incoming: Option<string>, stored: Option<string>)
  {
    if incoming.Some? then Newer(incoming.value, stored) else Less(local.updatedAt, row.updatedAt)
  }

  datatype RemarkStage = RemarkStage(table: map<Id, Remark>, ok: bool)

  function RestoreRemark(s: RemarkStage, id: Id, row: Remark, entity: EntityType, clocks: map<ClockKey, FieldClock>,
                         data: Backup,
                         ids: IdMap, books: map<Id, FullBook>, mode: RestoreMode): RemarkStage
  {
    if !s.ok then s
    else if id !in s.table then
      if Resolve(ids, row.bookId) in books then s.(table := s.table[id := row.(bookId := Resolve(ids, row.bookId))])
        else s.(ok := false)
    else
      var ck, local := ClockKey(entity, id, Content), s.table[id];
      if mode == MergeInto && Overwrites(local, row, BackupClock(data.clocks, ck), ClockIn(clocks, ck))
      then s.(table := s.table[id := row.(bookId := local.bookId, createdAt := local.createdAt)])
      else s
  }

  function RestoreRemarks(table: map<Id, Remark>, rows: Rows<Remark>, entity: EntityType,
                          clocks: map<ClockKey, FieldClock>, data: Backup,
                          ids: IdMap, books: map<Id, FullBook>, mode: RestoreMode, n: nat): RemarkStage
    requires n <= |rows|
  {
    if n == 0 then RemarkStage(table, true)
    else RestoreRemark(RestoreRemarks(table, rows, entity, clocks, data, ids, books, mode, n - 1),
                       rows[n - 1].0, rows[n - 1].1, entity, clocks, data, ids, books, mode)
  }

  predicate SettingIdTaken(settings: map<string, SettingRow>, id: Id)
  {
    exists key :: key in settings && settings[key].id == id
  }

  function RestoreSetting(settings: map<string, SettingRow>, key: string, row: SettingRow,
                          mode: RestoreMode): map<string, SettingRow>
  {
    if key !in settings then (if SettingIdTaken(settings, row.id) then settings else settings[key := row])
    else if mode == MergeInto && row.syncHlc.Some? && Newer(row.syncHlc.value, settings[key].syncHlc)
    then settings[key := row.(id := settings[key].id)]
    else settings
  }

  function RestoreSettings(settings: map<string, SettingRow>, rows: seq<(string, SettingRow)>, mode: RestoreMode,
                           n: nat): map<string, SettingRow>
    requires n <= |rows|
  {
    if n == 0 then settings
      else RestoreSetting(RestoreSettings(settings, rows, mode, n - 1), rows[n - 1].0, rows[n - 1].1, mode)
  }

  // ---------------------------------------------------------------------------
  // The whole restore
  // ---------------------------------------------------------------------------

  /** The tables that every other row refers to, after their part of the restore. */
  datatype Parents = Parents(books: BookStage, tags: NameStage<TagKey, TagInfo>, shelves: NameStage<string, ShelfInfo>)

  ghost function RestoreParents(store: Store, data: Backup, mode: RestoreMode): Parents
  {
    Parents(RestoreBooks(store, data, mode, |data.books|),
            RestoreNames(store.tags, data.tags, |data.tags|),
            RestoreNames(store.shelves, data.shelves, |data.shelves|))
  }

  /** ISBNs, links, sessions and progress. */
  datatype Facts = Facts(isbns: map<string, Id>, bookTags: set<(Id, Id)>, bookShelves: set<(Id, Id)>,
                         sessions: map<Id, Session>, progress: map<Id, Progress>)

  function RestoreFacts(store: Store, data: Backup, p: Parents): Option<Facts>
  {
    var books, ids := p.books.books, p.books.ids;
    var isbns := Load(store.isbns, RemapIsbns(data.isbns, ids), IsbnRefers(books));
    if isbns.None? then None else
    var bookShelves := RemapLinks(data.bookShelves, ids, p.shelves.ids);
    if !LinksHold(store.bookShelves, bookShelves, books, p.shelves.table) then None else
    var bookTags := RemapLinks(data.bookTags, ids, p.tags.ids);
    if !LinksHold(store.bookTags, bookTags, books, p.tags.table) then None else
    var sessions := Load(store.sessions, RemapSessions(data.sessions, ids), SessionRefers(books));
    if sessions.None? then None else
    var progress := Load(store.progress, RemapProgress(data.progress, ids), EntryRefers(books, sessions.value));
    if progress.None? then None else
    Some(Facts(isbns.value, store.bookTags + bookTags, store.bookShelves + bookShelves, sessions.value, progress.value))
  }

  /** Clocks, then notes, reviews and settings. */
  datatype Written = Written(clocks: map<ClockKey, FieldClock>, notes: map<Id, Remark>, reviews: map<Id, Remark>,
                             settings: map<string, SettingRow>)

  function RestoreWritten(store: Store, data: Backup, mode: RestoreMode, ids: IdMap,
                          books: map<Id, FullBook>): Option<Written>
  {
    var clocks := RestoreClocks(store.clocks, data.clocks, ids, |data.clocks|);
    var notes := RestoreRemarks(store.notes, data.notes, NoteEntity, clocks, data, ids, books, mode, |data.notes|);
    if !notes.ok then None else
    var reviews :=
      RestoreRemarks(store.reviews, data.reviews, ReviewEntity, clocks, data, ids, books, mode, |data.reviews|);
    if !reviews.ok then None else
    Some(Written(clocks, notes.table, reviews.table,
                 RestoreSettings(store.settings, data.settings, mode, |data.settings|)))
  }

  /** The rest of the restore, given the parents. */
  function RestoreChildren(store: Store, data: Backup, mode: RestoreMode, p: Parents): Option<Store>
  {
    match (RestoreFacts(store, data, p), RestoreWritten(store, data, mode, p.books.ids, p.books.books),
           RestoreCatalog(store.catalog, data.catalog, p.books.ids, p.books.books.Keys))
    case (Some(f), Some(w), Some(catalog)) =>
      Some(Store(p.books.books, p.books.provenance, f.isbns, p.tags.table, p.shelves.table, f.bookTags, f.bookShelves,
                 f.sessions, f.progress, w.clocks, w.notes, w.reviews, w.settings, catalog))
    case _ => None
  }

  /** The library after a restore, or nothing when a database error rolls it back. Replacing starts
      from cleared tables. */
  ghost function Restore(store: Store, data: Backup, mode: RestoreMode): Option<Store>
  {
    var base := if mode == Replace then EMPTY_STORE else store;
    var p := RestoreParents(base, data, mode);
    if !p.books.ok || !p.tags.ok || !p.shelves.ok then None else RestoreChildren(base, data, mode, p)
  }
}
