/** Log compaction preserves meaning: a snapshot of a prefix of the log followed by the rest of the
    log means the same as the whole log, although the snapshot drops the field clocks. */
module Compaction {
  import opened Wrappers
  import opened Library
  import opened Database
  import opened SnapshotAuthors
  import opened Snapshots
  import opened SnapshotCounts
  import opened Consistency

  // ---------------------------------------------------------------------------
  // A snapshot reads back as the library without its clocks
  // ---------------------------------------------------------------------------

  /** The integer columns hold integers or nothing. */
  predicate IntegersTyped(b: Book)
  {
    IsIntegerCell(CellOf(b, PageCount)) && IsIntegerCell(CellOf(b, DurationMinutes)) && IsIntegerCell(CellOf(b, Rating))
  }

  predicate TypedLibrary(t: Tables)
  {
    forall id :: id in t.books ==> IntegersTyped(t.books[id])
  }

  function Reimport(b: Book): Book
  {
    ImportBook(ExportBook(b))
  }

  ghost predicate SameCells(a: Book, b: Book)
  {
    forall k :: IsBookField(k) ==> CellOf(a, k) == CellOf(b, k)
  }

  /** A book survives export and import exactly when its integer columns hold integers: text or a
      fraction stored in one of them is dropped. */
  lemma ReimportKeepsCells(b: Book)
    requires BookOk(b)
    ensures SameCells(Reimport(b), b) <==> IntegersTyped(b)
    ensures Reimport(b).tombstone == b.tombstone && Reimport(b).clocks == map[]
    ensures StorableBook(Reimport(b))
  {
    hide BookOk, IntegersTyped, SameCells, CellOf, ImportCell;
    ImportedCells(b);
    ImportKeepsTypedCells(b);
    assert StorableBook(Reimport(b)) by {
      BookOkCells(b);
      ImportKeepsText(b);
    }
  }

  lemma ImportKeepsText(b: Book)
    requires BookOk(b)
    ensures ImportCell(Title, CellOf(b, Title)).Str? && ImportCell(Format, CellOf(b, Format)).Str?
    ensures ImportCell(Status, CellOf(b, Status)).Str? && IsStars(ImportCell(Rating, CellOf(b, Rating)))
  {
    hide CellOf;
  }

  lemma ImportKeepsTypedCells(b: Book)
    requires BookOk(b)
    requires forall k :: IsBookField(k) ==> CellOf(Reimport(b), k) == ImportCell(k, CellOf(b, k))
    ensures SameCells(Reimport(b), b) <==> IntegersTyped(b)
  {
    hide CellOf, Reimport;
    var c, d, r := CellOf(b, PageCount), CellOf(b, DurationMinutes), CellOf(b, Rating);
    assert SameCells(Reimport(b), b) <==> forall k :: IsBookField(k) ==> ImportCell(k, CellOf(b, k)) == CellOf(b, k);
    forall k | IsBookField(k) && !IsIntegerColumn(k)
      ensures ImportCell(k, CellOf(b, k)) == CellOf(b, k)
    {
      BookOkCells(b);
    }
    assert ImportCell(PageCount, c) == c <==> IsIntegerCell(c);
    assert ImportCell(DurationMinutes, d) == d <==> IsIntegerCell(d);
    assert ImportCell(Rating, r) == r <==> IsIntegerCell(r);
  }

  lemma ImportedCells(b: Book)
    ensures forall k :: IsBookField(k) ==> CellOf(Reimport(b), k) == ImportCell(k, CellOf(b, k))
  {
    BookFieldsAreDistinct();
  }

  lemma BookOkCells(b: Book)
    requires BookOk(b)
    ensures forall k :: IsBookField(k) && !IsIntegerColumn(k) ==> IsTextCell(CellOf(b, k))
    ensures CellOf(b, Title).Str? && CellOf(b, Format).Str? && CellOf(b, Status).Str? && IsStars(CellOf(b, Rating))
  {
  }

  /** The library a snapshot stands for. */
  function Bootstrapped(t: Tables): Tables
  {
    Tables(ImportBooks(ExportBooks(t.books)), t.sessions, t.progress, t.tags, t.bookTags, t.notes, t.reviews,
           t.settings, map[], map[])
  }

  /** Importing any snapshot of a consistent library into an empty database succeeds and gives the
      library without clocks and ledger. */
  lemma ImportInvertsExport(t: Tables, s: Snapshot)
    requires Consistent(t) && SnapshotOf(t, s)
    ensures Import(EMPTY, s) == Some(Bootstrapped(t))
  {
    hide BookOk, Lists, ListsTags, LoadBooks, Load, LoadTags, LoadSettings, TagsAreFolded, SettingKeysUnique;
    hide LinksKnown;
    hide ImportBook, ExportBook, LinksRefer, ListsLinks;
    BooksReload(t, s);
    var books := ImportBooks(ExportBooks(t.books));
    assert forall id :: id in t.books <==> id in books;
    ListedRowsLoad(t.sessions, s.sessions, Refers(books));
    ListedRowsLoad(t.progress, s.progress, ProgressRefers(books, t.sessions));
    ListedRowsLoad(t.notes, s.notes, NoteRefers(books));
    ListedRowsLoad(t.reviews, s.reviews, ReviewRefers(books));
    TagsReload(t, s);
    SettingsReload(t, s);
    LinksReload(t, s, books);
  }

  /** The same with the author tables: of them the credits come back, and the authors that some book credits. */
  lemma ImportInvertsExportWithAuthors(t: Tables, p: People, s: Snapshot)
    requires Consistent(t) && SnapshotOf(t, s) && ListsCredits(s.bookAuthors, p) && CreditsRefer(p, t.books.Keys)
    ensures ImportWithAuthors(EMPTY, NOBODY, s) == Some((Bootstrapped(t), Credited(p)))
  {
    hide Consistent, SnapshotOf, ListsCredits, CreditsRefer, Import, LoadBooks, LoadCredits, ImportBook, ExportBook;
    ImportInvertsExport(t, s);
    BooksReload(t, s);
    assert ImportBooks(ExportBooks(t.books)).Keys == t.books.Keys;
    CreditsReload(p, s.bookAuthors, t.books.Keys);
  }

  /** A new device: the snapshot of a consistent library always applies to an empty database, and makes it the
      library without clocks, ledger and uncredited authors. */
  method Bootstrap(source: SnapshotRepository, device: SnapshotRepository) returns (result: Option<ApplyResult>)
    requires Consistent(source.db.State()) && CreditsRefer(source.people, source.db.books.Keys)
    requires source != device && source.db != device.db
    requires device.db.State() == EMPTY && device.people == NOBODY
    modifies device.db, device`people
    ensures result == Some(TableSizes(source.db.State()))
    ensures device.db.State() == Bootstrapped(source.db.State()) && device.people == Credited(source.people)
  {
    hide Consistent, SnapshotOf, ListsCredits, CreditsRefer, ImportWithAuthors, Bootstrapped, Credited, RowsSeen;
    ghost var t, p := source.db.State(), source.people;
    assert TagsAreFolded(source.db.tags) by { FoldedTags(t); }
    var s := source.ExportSnapshot();
    ImportInvertsExportWithAuthors(t, p, s);
    ListedRowsCount(t, s);
    result := device.ApplySnapshot(s);
  }

  lemma FoldedTags(t: Tables)
    requires Consistent(t)
    ensures TagsAreFolded(t.tags)
  {
    hide BookOk;
  }

  lemma BooksReload(t: Tables, s: Snapshot)
    requires Consistent(t) && SnapshotOf(t, s)
    ensures LoadBooks(map[], s.books) == ImportBooks(ExportBooks(t.books))
  {
    hide Lists;
    var none: map<Id, Book> := map[];
    forall id | id in t.books ensures StorableBook(ImportBook(ExportBooks(t.books)[id])) {
      ReimportKeepsCells(t.books[id]);
    }
    assert HoldsFirst(none, s.books, 0);
    BooksLoad(ExportBooks(t.books), none, s.books, 0);
    assert s.books[0..] == s.books;
  }

  lemma TagsReload(t: Tables, s: Snapshot)
    requires Consistent(t) && SnapshotOf(t, s)
    ensures LoadTags(map[], s.tags) == t.tags
  {
    hide BookOk, Lists, ListsTags, TagsAreFolded;
    TagsLoad(t.tags, map[], s.tags, 0);
    assert s.tags[0..] == s.tags;
  }

  lemma SettingsReload(t: Tables, s: Snapshot)
    requires Consistent(t) && SnapshotOf(t, s)
    ensures LoadSettings(map[], s.settings) == t.settings
  {
    hide BookOk, Lists, SettingKeysUnique;
    var none: map<Id, Setting> := map[];
    assert HoldsFirst(none, s.settings, 0);
    SettingsLoad(t.settings, none, s.settings, 0);
    assert s.settings[0..] == s.settings;
  }

  lemma LinksReload(t: Tables, s: Snapshot, books: map<Id, Book>)
    requires Consistent(t) && SnapshotOf(t, s)
    requires forall id :: id in t.books <==> id in books
    ensures LinksRefer(s.bookTags, books, t.tags) && {} + Links(s.bookTags) == t.bookTags
  {
    hide BookOk, Lists, ListsTags, IsTagId;
    forall i | 0 <= i < |s.bookTags| ensures s.bookTags[i].0 in books && IsTagId(t.tags, s.bookTags[i].1) {
      assert s.bookTags[i] in s.bookTags;
    }
  }
}
