/** Snapshots: the library state exported for log compaction and new-device bootstrap. A snapshot
    carries no field clocks and no conflict ledger. */
module Snapshots {
  import opened Wrappers
  import opened Text
  import opened Library
  import opened Database
  import opened SnapshotAuthors

  /** A table as a list of rows. */
  type Rows<V> = seq<(Id, V)>

  /** The exported columns of a book. */
  datatype BookRow = BookRow(cells: map<Key, Cell>, tombstone: Option<Tombstone>)

  datatype TagRow = TagRow(name: string, tagType: string)

  datatype Snapshot = Snapshot(
    books: Rows<BookRow>,
    bookAuthors: seq<CreditRow>,
    sessions: Rows<Session>,
    progress: Rows<Progress>,
    tags: Rows<TagRow>,
    bookTags: seq<(Id, Id)>,
    notes: Rows<Note>,
    reviews: Rows<Review>,
    settings: Rows<Setting>)

  // ---------------------------------------------------------------------------
  // Export
  // ---------------------------------------------------------------------------

  function ExportBook(b: Book): BookRow
  {
    BookRow(map k | k in BOOK_FIELDS :: CellOf(b, k), b.tombstone)
  }

  function ExportBooks(books: map<Id, Book>): map<Id, BookRow>
  {
    map id | id in books :: ExportBook(books[id])
  }

  /** The rows are the table: every entry once. */
  ghost predicate Lists<K(!new), V(!new)>(rows: seq<(K, V)>, table: map<K, V>)
  {
    && (forall i, j :: 0 <= i < j < |rows| ==> rows[i].0 != rows[j].0)
    && (forall i :: 0 <= i < |rows| ==> rows[i].0 in table && table[rows[i].0] == rows[i].1)
    && (forall k :: k in table ==> exists i :: 0 <= i < |rows| && rows[i].0 == k)
  }

  /** The tag rows, one for each tag. */
  ghost predicate ListsTags(rows: Rows<TagRow>, tags: map<TagKey, Tag>)
  {
    && (forall i, j :: 0 <= i < j < |rows| ==> rows[i].0 != rows[j].0)
    && (forall i :: 0 <= i < |rows| ==> IsTagRow(rows[i], tags))
    && (forall k :: k in tags ==> (tags[k].id, TagRow(tags[k].name, k.tagType)) in rows)
  }

  function KeyOfRow(row: (Id, TagRow)): TagKey
  {
    TagKey(LowerCase(row.1.name), row.1.tagType)
  }

  predicate IsTagRow(row: (Id, TagRow), tags: map<TagKey, Tag>)
  {
    var k := KeyOfRow(row);
    k in tags && tags[k] == Tag(row.0, row.1.name)
  }

  ghost predicate ListsLinks(rows: seq<(Id, Id)>, links: set<(Id, Id)>)
  {
    forall link :: link in links <==> link in rows
  }

  ghost predicate SnapshotOf(t: Tables, s: Snapshot)
  {
    && Lists(s.books, ExportBooks(t.books))
    && Lists(s.sessions, t.sessions)
    && Lists(s.progress, t.progress)
    && ListsTags(s.tags, t.tags)
    && ListsLinks(s.bookTags, t.bookTags)
    && Lists(s.notes, t.notes)
    && Lists(s.reviews, t.reviews)
    && Lists(s.settings, t.settings)
  }

  // ---------------------------------------------------------------------------
  // Import
  // ---------------------------------------------------------------------------

  /** Reading a column back from JSON: integers in integer columns, text elsewhere, else nothing. */
  function ImportCell(k: Key, c: Cell): Cell
  {
    if IsIntegerColumn(k) then (if c.Int? && IsI64(c.number) then c else Nil) else (if c.Str? then c else Nil)
  }

  function ImportBook(row: BookRow): Book
  {
    Book(map k | k in row.cells :: ImportCell(k, row.cells[k]), map[], row.tombstone)
  }

  /** The table constraints. */
  predicate StorableBook(b: Book)
  {
    CellOf(b, Title).Str? && CellOf(b, Format).Str? && CellOf(b, Status).Str? && IsStars(CellOf(b, Rating))
  }

  /** INSERT OR IGNORE, row by row: a row whose id is taken or that breaks a constraint is skipped. */
  function LoadBooks(books: map<Id, Book>, rows: Rows<BookRow>): map<Id, Book>
    decreases |rows|
  {
    if rows == [] then books else
    var (id, b) := (rows[0].0, ImportBook(rows[0].1));
    LoadBooks(if id in books || !StorableBook(b) then books else books[id := b], rows[1..])
  }

  /** INSERT OR IGNORE into a table with references. A dangling reference aborts the import. */
  function Load<K(==), V>(table: map<K, V>, rows: seq<(K, V)>, refers: (K, V) -> bool): Option<map<K, V>>
    decreases |rows|
  {
    if rows == [] then Some(table)
    else if rows[0].0 in table then Load(table, rows[1..], refers)
    else if !refers(rows[0].0, rows[0].1) then None
    else Load(table[rows[0].0 := rows[0].1], rows[1..], refers)
  }

  function LoadTags(tags: map<TagKey, Tag>, rows: Rows<TagRow>): map<TagKey, Tag>
    decreases |rows|
  {
    if rows == [] then tags else
    var key := KeyOfRow(rows[0]);
    LoadTags(if key in tags || IsTagId(tags, rows[0].0) then tags else tags[key := Tag(rows[0].0, rows[0].1.name)],
             rows[1..])
  }

  predicate SettingTaken(settings: map<Id, Setting>, id: Id, s: Setting)
  {
    id in settings || exists other :: other in settings && settings[other].key == s.key
  }

  function LoadSettings(settings: map<Id, Setting>, rows: Rows<Setting>): map<Id, Setting>
    decreases |rows|
  {
    if rows == [] then settings
    else if SettingTaken(settings, rows[0].0, rows[0].1) then LoadSettings(settings, rows[1..])
    else LoadSettings(settings[rows[0].0 := rows[0].1], rows[1..])
  }

  predicate LinksRefer(rows: seq<(Id, Id)>, books: map<Id, Book>, tags: map<TagKey, Tag>)
  {
    forall i :: 0 <= i < |rows| ==> rows[i].0 in books && IsTagId(tags, rows[i].1)
  }

  function Links(rows: seq<(Id, Id)>): set<(Id, Id)>
  {
    set link | link in rows
  }

  function Refers(books: map<Id, Book>): (Id, Session) -> bool
  {
    (id: Id, s: Session) => s.bookId in books
  }

  function ProgressRefers(books: map<Id, Book>, sessions: map<Id, Session>): (Id, Progress) -> bool
  {
    (id: Id, p: Progress) => p.bookId in books && (p.sessionId.Some? ==> p.sessionId.value in sessions)
  }

  function NoteRefers(books: map<Id, Book>): (Id, Note) -> bool
  {
    (id: Id, n: Note) => n.bookId in books
  }

  function ReviewRefers(books: map<Id, Book>): (Id, Review) -> bool
  {
    (id: Id, r: Review) => r.bookId in books
  }

  /** The whole import, or nothing when a reference dangles: it runs in one transaction. */
  function Import(t: Tables, s: Snapshot): Option<Tables>
  {
    var books := LoadBooks(t.books, s.books);
    var sessions := Load(t.sessions, s.sessions, Refers(books));
    if sessions.None? then None else
    var progress := Load(t.progress, s.progress, ProgressRefers(books, sessions.value));
    if progress.None? then None else
    var tags := LoadTags(t.tags, s.tags);
    if !LinksRefer(s.bookTags, books, tags) then None else
    var notes := Load(t.notes, s.notes, NoteRefers(books));
    if notes.None? then None else
    var reviews := Load(t.reviews, s.reviews, ReviewRefers(books));
    if reviews.None? then None else
    Some(t.(books := books, sessions := sessions.value, progress := progress.value, tags := tags,
            bookTags := t.bookTags + Links(s.bookTags), notes := notes.value, reviews := reviews.value,
            settings := LoadSettings(t.settings, s.settings)))
  }

  /** The same with the author tables. */
  function ImportWithAuthors(t: Tables, p: People, s: Snapshot): Option<(Tables, People)>
  {
    var r := Import(t, s);
    var q := LoadCredits(p, s.bookAuthors, LoadBooks(t.books, s.books).Keys, |s.bookAuthors|);
    if r.Some? && q.Some? then Some((r.value, q.value)) else None
  }

  /** What an import reports: the rows it has seen, also those that were there already. */
  datatype ApplyResult = ApplyResult(books: nat, sessions: nat, progress: nat, tags: nat, notes: nat, reviews: nat,
                                     settings: nat)

  function RowsSeen(s: Snapshot): ApplyResult
  {
    ApplyResult(|s.books|, |s.sessions|, |s.progress|, |s.tags|, |s.notes|, |s.reviews|, |s.settings|)
  }

  // ---------------------------------------------------------------------------
  // The repository
  // ---------------------------------------------------------------------------

  class SnapshotRepository {
    const db: Database
    var people: People

    constructor (db: Database, people: People)
      ensures this.db == db && this.people == people
    {
      this.db, this.people := db, people;
    }

    /** `export_snapshot`: one query per table. */
    method ExportSnapshot() returns (s: Snapshot)
      requires TagsAreFolded(db.tags)
      ensures SnapshotOf(db.State(), s) && ListsCredits(s.bookAuthors, people)
    {
      hide Lists, ListsTags, ListsLinks, ListsCredits, TagsAreFolded;
      var books := ExportTable(ExportBooks(db.books));
      var bookAuthors := ExportCredits(people);
      var sessions := ExportTable(db.sessions);
      var progress := ExportTable(db.progress);
      var tags := ExportTags();
      var bookTags := ExportLinks(db.bookTags);
      var notes := ExportTable(db.notes);
      var reviews := ExportTable(db.reviews);
      var settings := ExportTable(db.settings);
      s := Snapshot(books, bookAuthors, sessions, progress, tags, bookTags, notes, reviews, settings);
    }

    static method ExportTable<K(==, !new), V(!new)>(table: map<K, V>) returns (rows: seq<(K, V)>)
      ensures Lists(rows, table)
    {
      rows := [];
      var left := table.Keys;
      while left != {}
        invariant left <= table.Keys
        invariant forall i :: 0 <= i < |rows| ==>
          rows[i].0 in table && rows[i].0 !in left && table[rows[i].0] == rows[i].1
        invariant forall i, j :: 0 <= i < j < |rows| ==> rows[i].0 != rows[j].0
        invariant forall id :: id in table && id !in left ==> exists i :: 0 <= i < |rows| && rows[i].0 == id
        decreases |left|
      {
        var id :| id in left;
        ghost var before := rows;
        rows := rows + [(id, table[id])];
        left := left - {id};
        forall k | k in table && k !in left ensures exists i :: 0 <= i < |rows| && rows[i].0 == k {
          if k == id {
            assert rows[|before|].0 == k;
          } else {
            var i :| 0 <= i < |before| && before[i].0 == k;
            assert rows[i].0 == k;
          }
        }
      }
    }

    method ExportTags() returns (rows: Rows<TagRow>)
      requires TagsAreFolded(db.tags)
      ensures ListsTags(rows, db.tags)
    {
      hide LowerCase, TagsAreFolded;
      rows := [];
      var left := db.tags.Keys;
      while left != {}
        invariant left <= db.tags.Keys
        invariant forall i :: 0 <= i < |rows| ==> IsTagRow(rows[i], db.tags) && KeyOfRow(rows[i]) !in left
        invariant forall i, j :: 0 <= i < j < |rows| ==> rows[i].0 != rows[j].0
        invariant forall k :: k in db.tags && k !in left ==> (db.tags[k].id, TagRow(db.tags[k].name, k.tagType)) in rows
        decreases |left|
      {
        var k :| k in left;
        NewTagRow(db.tags, k);
        forall i | 0 <= i < |rows| ensures rows[i].0 != db.tags[k].id {
          SameTagId(db.tags, KeyOfRow(rows[i]), k);
        }
        rows := rows + [(db.tags[k].id, TagRow(db.tags[k].name, k.tagType))];
        left := left - {k};
      }
    }

    static method ExportLinks(links: set<(Id, Id)>) returns (rows: seq<(Id, Id)>)
      ensures ListsLinks(rows, links)
    {
      rows := [];
      var left := links;
      while left != {}
        invariant left <= links
        invariant forall link :: link in rows <==> link in links && link !in left
        decreases |left|
      {
        var link :| link in left;
        rows := rows + [link];
        left := left - {link};
      }
    }

    /** `apply_snapshot`: one insert loop per table, rolled back as a whole when a reference dangles. */
    method ApplySnapshot(s: Snapshot) returns (result: Option<ApplyResult>)
      modifies db, this`people
      ensures var r := ImportWithAuthors(old(db.State()), old(people), s);
        && result == (if r.Some? then Some(RowsSeen(s)) else None)
        && (db.State(), people) == if r.Some? then r.value else (old(db.State()), old(people))
    {
      hide LoadBooks, Load, LoadTags, LoadSettings, LinksRefer, LoadCredits;
      var books := InsertBooks(db.books, s.books);
      var credits := InsertCredits(people, s.bookAuthors, books.Keys);
      if credits.None? {
        return None;
      }
      var sessions := InsertRows(db.sessions, s.sessions, Refers(books));
      if sessions.None? {
        return None;
      }
      var progress := InsertRows(db.progress, s.progress, ProgressRefers(books, sessions.value));
      if progress.None? {
        return None;
      }
      var tags := InsertTags(db.tags, s.tags);
      if !LinksRefer(s.bookTags, books, tags) {
        return None;
      }
      var notes := InsertRows(db.notes, s.notes, NoteRefers(books));
      if notes.None? {
        return None;
      }
      var reviews := InsertRows(db.reviews, s.reviews, ReviewRefers(books));
      if reviews.None? {
        return None;
      }
      var settings := InsertSettings(db.settings, s.settings);
      db.books, db.sessions, db.progress, db.tags := books, sessions.value, progress.value, tags;
      db.bookTags := db.bookTags + Links(s.bookTags);
      db.notes, db.reviews, db.settings := notes.value, reviews.value, settings;
      people := credits.value;
      result := Some(RowsSeen(s));
    }

    static method InsertBooks(table: map<Id, Book>, rows: Rows<BookRow>) returns (r: map<Id, Book>)
      ensures r == LoadBooks(table, rows)
    {
      r := table;
      assert rows[0..] == rows;
      for i := 0 to |rows|
        invariant LoadBooks(table, rows) == LoadBooks(r, rows[i..])
      {
        assert rows[i..][0] == rows[i] && rows[i..][1..] == rows[i + 1..];
        var book := ImportBook(rows[i].1);
        if rows[i].0 !in r && StorableBook(book) {
          r := r[rows[i].0 := book];
        }
      }
    }

    static method InsertRows<K(==), V>(table: map<K, V>, rows: seq<(K, V)>, refers: (K, V) -> bool)
      returns (r: Option<map<K, V>>)
      ensures r == Load(table, rows, refers)
    {
      var current := table;
      assert rows[0..] == rows;
      for i := 0 to |rows|
        invariant Load(table, rows, refers) == Load(current, rows[i..], refers)
      {
        assert rows[i..][0] == rows[i] && rows[i..][1..] == rows[i + 1..];
        if rows[i].0 !in current {
          if !refers(rows[i].0, rows[i].1) {
            return None;
          }
          current := current[rows[i].0 := rows[i].1];
        }
      }
      r := Some(current);
    }

    static method InsertTags(table: map<TagKey, Tag>, rows: Rows<TagRow>) returns (r: map<TagKey, Tag>)
      ensures r == LoadTags(table, rows)
    {
      r := table;
      assert rows[0..] == rows;
      for i := 0 to |rows|
        invariant LoadTags(table, rows) == LoadTags(r, rows[i..])
      {
        assert rows[i..][0] == rows[i] && rows[i..][1..] == rows[i + 1..];
        var key := TagKey(LowerCase(rows[i].1.name), rows[i].1.tagType);
        if key !in r && !IsTagId(r, rows[i].0) {
          r := r[key := Tag(rows[i].0, rows[i].1.name)];
        }
      }
    }

    static method InsertSettings(table: map<Id, Setting>, rows: Rows<Setting>) returns (r: map<Id, Setting>)
      ensures r == LoadSettings(table, rows)
    {
      r := table;
      assert rows[0..] == rows;
      for i := 0 to |rows|
        invariant LoadSettings(table, rows) == LoadSettings(r, rows[i..])
      {
        assert rows[i..][0] == rows[i] && rows[i..][1..] == rows[i + 1..];
        if !SettingTaken(r, rows[i].0, rows[i].1) {
          r := r[rows[i].0 := rows[i].1];
        }
      }
    }
  }

  /** Tag ids are unique, and each key is the folded name of its tag. */
  ghost predicate TagsAreFolded(tags: map<TagKey, Tag>)
  {
    && (forall k :: k in tags ==> k.folded == LowerCase(tags[k].name))
    && (forall k, l :: k in tags && l in tags && tags[k].id == tags[l].id ==> k == l)
  }

  lemma NewTagRow(tags: map<TagKey, Tag>, k: TagKey)
    requires TagsAreFolded(tags) && k in tags
    ensures var row := (tags[k].id, TagRow(tags[k].name, k.tagType)); KeyOfRow(row) == k && IsTagRow(row, tags)
  {
    hide LowerCase;
  }

  lemma SameTagId(tags: map<TagKey, Tag>, k: TagKey, l: TagKey)
    requires TagsAreFolded(tags) && k in tags && l in tags && k != l
    ensures tags[k].id != tags[l].id
  {
    hide LowerCase;
  }

  // ---------------------------------------------------------------------------
  // Loading what was listed
  // ---------------------------------------------------------------------------

  /** `part` holds the keys of the first `i` rows. */
  ghost predicate HoldsFirst<K(!new), V(!new), W(!new)>(part: map<K, V>, rows: seq<(K, W)>, i: nat)
    requires i <= |rows|
  {
    forall k :: k in part <==> exists j :: 0 <= j < i && rows[j].0 == k
  }

  lemma OneMoreRow<K(!new), V(!new), W(!new)>(part: map<K, V>, rows: seq<(K, W)>, table: map<K, W>, i: nat, v: V)
    requires i < |rows| && HoldsFirst(part, rows, i) && Lists(rows, table)
    ensures rows[i].0 !in part && HoldsFirst(part[rows[i].0 := v], rows, i + 1)
  {
    var next := part[rows[i].0 := v];
    forall k ensures k in next <==> exists j :: 0 <= j < i + 1 && rows[j].0 == k {
      if k in part {
        var j :| 0 <= j < i && rows[j].0 == k;
        assert 0 <= j < i + 1;
      }
    }
  }

  lemma AllRows<K(!new), V(!new), W(!new)>(part: map<K, V>, rows: seq<(K, W)>, table: map<K, W>)
    requires HoldsFirst(part, rows, |rows|) && Lists(rows, table)
    ensures forall k :: k in part <==> k in table
  {
  }

  /** Loading the rest of a list that has been loaded up to row `i`. */
  lemma {:induction false} LoadGivesTable<K(!new), V(!new)>(table: map<K, V>, part: map<K, V>, rows: seq<(K, V)>,
                                            refers: (K, V) -> bool, i: nat)
    requires Lists(rows, table) && i <= |rows|
    requires forall k :: k in table ==> refers(k, table[k])
    requires HoldsFirst(part, rows, i)
    requires forall id :: id in part ==> id in table && part[id] == table[id]
    ensures Load(part, rows[i..], refers) == Some(table)
    decreases |rows| - i
  {
    hide HoldsFirst;
    if i == |rows| {
      AllRows(part, rows, table);
      assert part == table;
    } else {
      assert rows[i..][0] == rows[i] && rows[i..][1..] == rows[i + 1..];
      var next := part[rows[i].0 := rows[i].1];
      OneMoreRow(part, rows, table, i, rows[i].1);
      LoadGivesTable(table, next, rows, refers, i + 1);
    }
  }

  lemma ListedRowsLoad<K(!new), V(!new)>(table: map<K, V>, rows: seq<(K, V)>, refers: (K, V) -> bool)
    requires Lists(rows, table) && forall k :: k in table ==> refers(k, table[k])
    ensures Load(map[], rows, refers) == Some(table)
  {
    var none: map<K, V> := map[];
    assert HoldsFirst(none, rows, 0);
    LoadGivesTable(table, none, rows, refers, 0);
    assert rows[0..] == rows;
  }

  lemma {:induction false} LoadFacts<K(!new), V(!new)>(table: map<K, V>, rows: seq<(K, V)>, refers: (K, V) -> bool,
                                       r: map<K, V>)
    requires Load(table, rows, refers) == Some(r)
    ensures forall k :: k in table ==> k in r && r[k] == table[k]
    ensures forall i :: 0 <= i < |rows| ==> rows[i].0 in r
    ensures forall k :: k in r && k !in table ==>
      exists i :: 0 <= i < |rows| && rows[i].0 == k && rows[i].1 == r[k] && refers(k, r[k])
    decreases |rows|
  {
    if rows != [] {
      var next := if rows[0].0 in table then table else table[rows[0].0 := rows[0].1];
      LoadFacts(next, rows[1..], refers, r);
      assert forall i :: 0 <= i < |rows[1..]| ==> rows[1..][i] == rows[i + 1];
      forall k | k in r && k !in table
        ensures exists i :: 0 <= i < |rows| && rows[i].0 == k && rows[i].1 == r[k] && refers(k, r[k])
      {
        if k in next {
          assert rows[0].0 == k;
        } else {
          var i :| 0 <= i < |rows[1..]| && rows[1..][i].0 == k && rows[1..][i].1 == r[k] && refers(k, r[k]);
          assert rows[i + 1].0 == k;
        }
      }
      forall i | 0 <= i < |rows| ensures rows[i].0 in r {
        if i > 0 {
          assert rows[i] == rows[1..][i - 1];
        }
      }
    }
  }

  lemma {:induction false} LoadAgain<K, V>(table: map<K, V>, rows: seq<(K, V)>, refers: (K, V) -> bool)
    requires forall i :: 0 <= i < |rows| ==> rows[i].0 in table
    ensures Load(table, rows, refers) == Some(table)
    decreases |rows|
  {
    if rows != [] {
      LoadAgain(table, rows[1..], refers);
    }
  }

  lemma {:induction false} LoadSucceeds<K, V>(table: map<K, V>, rows: seq<(K, V)>, refers: (K, V) -> bool)
    requires forall i :: 0 <= i < |rows| ==> refers(rows[i].0, rows[i].1)
    ensures Load(table, rows, refers).Some?
    decreases |rows|
  {
    if rows != [] {
      LoadSucceeds(if rows[0].0 in table then table else table[rows[0].0 := rows[0].1], rows[1..], refers);
    }
  }

  /** Loading the same rows again changes nothing. */
  lemma LoadTwice<K(!new), V(!new)>(table: map<K, V>, rows: seq<(K, V)>, refers: (K, V) -> bool, r: map<K, V>)
    requires Load(table, rows, refers) == Some(r)
    ensures Load(r, rows, refers) == Some(r)
  {
    LoadFacts(table, rows, refers, r);
    LoadAgain(r, rows, refers);
  }

  function ImportBooks(rows: map<Id, BookRow>): map<Id, Book>
  {
    map id | id in rows :: ImportBook(rows[id])
  }

  lemma {:induction false} BooksLoad(table: map<Id, BookRow>, part: map<Id, Book>, rows: Rows<BookRow>, i: nat)
    requires Lists(rows, table) && i <= |rows|
    requires forall id :: id in table ==> StorableBook(ImportBook(table[id]))
    requires HoldsFirst(part, rows, i)
    requires forall id :: id in part ==> id in table && part[id] == ImportBook(table[id])
    ensures LoadBooks(part, rows[i..]) == ImportBooks(table)
    decreases |rows| - i
  {
    hide StorableBook, ImportBook, HoldsFirst;
    if i == |rows| {
      AllRows(part, rows, table);
      assert part == ImportBooks(table);
    } else {
      assert rows[i..][0] == rows[i] && rows[i..][1..] == rows[i + 1..];
      var next := part[rows[i].0 := ImportBook(rows[i].1)];
      OneMoreRow(part, rows, table, i, ImportBook(rows[i].1));
      BooksLoad(table, next, rows, i + 1);
    }
  }

  /** `part` holds the tags of the first `i` rows. */
  ghost predicate HoldsTags(part: map<TagKey, Tag>, rows: Rows<TagRow>, tags: map<TagKey, Tag>, i: nat)
    requires i <= |rows|
  {
    && (forall k :: k in part <==> exists j :: 0 <= j < i && KeyOfRow(rows[j]) == k)
    && (forall k :: k in part ==> k in tags && part[k] == tags[k])
  }

  lemma AllTagsHeld(part: map<TagKey, Tag>, rows: Rows<TagRow>, tags: map<TagKey, Tag>)
    requires ListsTags(rows, tags) && TagsAreFolded(tags) && HoldsTags(part, rows, tags, |rows|)
    ensures part == tags
  {
    hide LowerCase;
    forall k | k in tags ensures k in part {
      var row := (tags[k].id, TagRow(tags[k].name, k.tagType));
      assert row in rows;
      var j :| 0 <= j < |rows| && rows[j] == row;
      assert KeyOfRow(rows[j]) == k;
    }
  }

  /** The next row is new by key and by id. */
  lemma NextTagIsNew(part: map<TagKey, Tag>, rows: Rows<TagRow>, tags: map<TagKey, Tag>, i: nat)
    requires ListsTags(rows, tags) && TagsAreFolded(tags) && i < |rows| && HoldsTags(part, rows, tags, i)
    ensures KeyOfRow(rows[i]) in tags && tags[KeyOfRow(rows[i])] == Tag(rows[i].0, rows[i].1.name)
    ensures KeyOfRow(rows[i]) !in part && !IsTagId(part, rows[i].0)
  {
    hide LowerCase;
    assert IsTagRow(rows[i], tags);
    assert forall j :: 0 <= j < i ==> IsTagRow(rows[j], tags) && rows[j].0 != rows[i].0;
  }

  lemma OneMoreTag(part: map<TagKey, Tag>, rows: Rows<TagRow>, tags: map<TagKey, Tag>, i: nat)
    requires i < |rows| && HoldsTags(part, rows, tags, i)
    requires KeyOfRow(rows[i]) in tags && tags[KeyOfRow(rows[i])] == Tag(rows[i].0, rows[i].1.name)
    ensures HoldsTags(part[KeyOfRow(rows[i]) := Tag(rows[i].0, rows[i].1.name)], rows, tags, i + 1)
  {
    hide LowerCase, KeyOfRow;
    var next := part[KeyOfRow(rows[i]) := Tag(rows[i].0, rows[i].1.name)];
    forall k ensures k in next <==> exists j :: 0 <= j < i + 1 && KeyOfRow(rows[j]) == k {
      if k in part {
        var j :| 0 <= j < i && KeyOfRow(rows[j]) == k;
        assert 0 <= j < i + 1;
      }
    }
  }

  lemma {:induction false} TagsLoad(tags: map<TagKey, Tag>, part: map<TagKey, Tag>, rows: Rows<TagRow>, i: nat)
    requires ListsTags(rows, tags) && TagsAreFolded(tags) && i <= |rows| && HoldsTags(part, rows, tags, i)
    ensures LoadTags(part, rows[i..]) == tags
    decreases |rows| - i
  {
    hide LowerCase, HoldsTags, ListsTags, TagsAreFolded, IsTagId;
    if i == |rows| {
      AllTagsHeld(part, rows, tags);
    } else {
      assert rows[i..][0] == rows[i] && rows[i..][1..] == rows[i + 1..];
      NextTagIsNew(part, rows, tags, i);
      OneMoreTag(part, rows, tags, i);
      TagsLoad(tags, part[KeyOfRow(rows[i]) := Tag(rows[i].0, rows[i].1.name)], rows, i + 1);
    }
  }

  ghost predicate SettingKeysUnique(settings: map<Id, Setting>)
  {
    forall a, b :: a in settings && b in settings && settings[a].key == settings[b].key ==> a == b
  }

  lemma {:induction false} SettingsLoad(settings: map<Id, Setting>, part: map<Id, Setting>, rows: Rows<Setting>, i: nat)
    requires Lists(rows, settings) && SettingKeysUnique(settings) && i <= |rows|
    requires HoldsFirst(part, rows, i)
    requires forall id :: id in part ==> id in settings && part[id] == settings[id]
    ensures LoadSettings(part, rows[i..]) == settings
    decreases |rows| - i
  {
    hide HoldsFirst;
    if i == |rows| {
      AllRows(part, rows, settings);
      assert part == settings;
    } else {
      assert rows[i..][0] == rows[i] && rows[i..][1..] == rows[i + 1..];
      var next := part[rows[i].0 := rows[i].1];
      OneMoreRow(part, rows, settings, i, rows[i].1);
      SettingsLoad(settings, next, rows, i + 1);
    }
  }
}
