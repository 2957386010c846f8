/** Exactly which rows an import adds to a library with rows of its own, and exactly when it succeeds. */
module ImportExact {
  import opened Wrappers
  import opened Library
  import opened SnapshotAuthors
  import opened Snapshots
  import opened Consistency
  import opened Compaction
  import opened ImportOutcome

  // ---------------------------------------------------------------------------
  // Tags
  // ---------------------------------------------------------------------------

  /** No two rows have an id or a key in common. */
  ghost predicate RowsDiffer(rows: Rows<TagRow>)
  {
    forall i, j :: 0 <= i < j < |rows| ==> rows[i].0 != rows[j].0 && KeyOfRow(rows[i]) != KeyOfRow(rows[j])
  }

  function Inserted(tags: map<TagKey, Tag>, row: (Id, TagRow)): map<TagKey, Tag>
  {
    if KeyOfRow(row) in tags || IsTagId(tags, row.0) then tags else tags[KeyOfRow(row) := Tag(row.0, row.1.name)]
  }

  lemma TailDiffers(rows: Rows<TagRow>)
    requires RowsDiffer(rows) && rows != []
    ensures RowsDiffer(rows[1..])
    ensures forall i :: 0 < i < |rows| ==> rows[i].0 != rows[0].0 && KeyOfRow(rows[i]) != KeyOfRow(rows[0])
  {
    hide KeyOfRow;
  }

  lemma OthersUntouched(tags: map<TagKey, Tag>, row: (Id, TagRow), k: TagKey, id: Id)
    requires k != KeyOfRow(row) && id != row.0
    ensures k in Inserted(tags, row) <==> k in tags
    ensures IsTagId(Inserted(tags, row), id) <==> IsTagId(tags, id)
  {
    hide KeyOfRow;
    var r, key := Inserted(tags, row), KeyOfRow(row);
    if l :| l in tags && tags[l].id == id {
      assert l in r && r[l].id == id;
    }
    if l :| l in r && r[l].id == id {
      assert l in tags && tags[l].id == id;
    }
  }

  lemma OwnRow(tags: map<TagKey, Tag>, row: (Id, TagRow))
    requires KeyOfRow(row) !in tags
    ensures KeyOfRow(row) in Inserted(tags, row) <==> !IsTagId(tags, row.0)
    ensures IsTagId(Inserted(tags, row), row.0)
  {
    hide KeyOfRow;
    var key := KeyOfRow(row);
    if !IsTagId(tags, row.0) {
      assert Inserted(tags, row)[key].id == row.0;
    }
  }

  lemma TakenIdStays(tags: map<TagKey, Tag>, row: (Id, TagRow))
    requires KeyOfRow(row) in tags
    ensures Inserted(tags, row) == tags
  {
  }

  lemma {:induction false} LoadedTagsKeep(tags: map<TagKey, Tag>, rows: Rows<TagRow>, k: TagKey, id: Id)
    requires forall i :: 0 <= i < |rows| ==> rows[i].0 != id && KeyOfRow(rows[i]) != k
    ensures k in LoadTags(tags, rows) <==> k in tags
    ensures IsTagId(LoadTags(tags, rows), id) <==> IsTagId(tags, id)
    decreases |rows|
  {
    hide KeyOfRow, IsTagId;
    if rows != [] {
      OthersUntouched(tags, rows[0], k, id);
      LoadedTagsKeep(Inserted(tags, rows[0]), rows[1..], k, id);
    }
  }

  /** A row is inserted if neither its key nor its id is taken. Its id is then known, and otherwise if it was. */
  lemma {:induction false} TagRowLoads(tags: map<TagKey, Tag>, rows: Rows<TagRow>, i: nat)
    requires RowsDiffer(rows) && i < |rows|
    ensures var k, id, r := KeyOfRow(rows[i]), rows[i].0, LoadTags(tags, rows);
      && (k in r <==> k in tags || !IsTagId(tags, id))
      && (IsTagId(r, id) <==> k !in tags || IsTagId(tags, id))
    decreases |rows|
  {
    var k, id := KeyOfRow(rows[i]), rows[i].0;
    hide KeyOfRow, IsTagId, RowsDiffer;
    TailDiffers(rows);
    if i == 0 {
      if k in tags {
        TakenIdStays(tags, rows[0]);
      } else {
        OwnRow(tags, rows[0]);
      }
      LoadedTagsKeep(Inserted(tags, rows[0]), rows[1..], k, id);
    } else {
      OthersUntouched(tags, rows[0], k, id);
      TagRowLoads(Inserted(tags, rows[0]), rows[1..], i - 1);
      assert rows[1..][i - 1] == rows[i];
    }
  }

  lemma ListedRowsDiffer(tags: map<TagKey, Tag>, rows: Rows<TagRow>)
    requires ListsTags(rows, tags)
    ensures RowsDiffer(rows)
  {
    hide KeyOfRow;
    forall i, j | 0 <= i < j < |rows| ensures KeyOfRow(rows[i]) != KeyOfRow(rows[j]) {
      assert IsTagRow(rows[i], tags) && IsTagRow(rows[j], tags);
    }
  }

  /** So a tag of the snapshot is there afterwards exactly if its name and type were, or its id was free. */
  lemma TagsAdded(tags: map<TagKey, Tag>, src: map<TagKey, Tag>, rows: Rows<TagRow>, k: TagKey)
    requires ListsTags(rows, src) && TagsAreFolded(src) && k in src
    ensures k in LoadTags(tags, rows) <==> k in tags || !IsTagId(tags, src[k].id)
    ensures IsTagId(LoadTags(tags, rows), src[k].id) <==> k !in tags || IsTagId(tags, src[k].id)
  {
    ListedRowsDiffer(src, rows);
    var i :| 0 <= i < |rows| && rows[i] == (src[k].id, TagRow(src[k].name, k.tagType));
    assert KeyOfRow(rows[i]) == k;
    hide KeyOfRow, IsTagId, RowsDiffer, ListsTags, TagsAreFolded;
    TagRowLoads(tags, rows, i);
  }

  // ---------------------------------------------------------------------------
  // Settings and books
  // ---------------------------------------------------------------------------

  lemma {:induction false} SettingRowLoads(settings: map<Id, Setting>, rows: Rows<Setting>, i: nat)
    requires i < |rows|
    requires forall a, b :: 0 <= a < b < |rows| ==> rows[a].0 != rows[b].0 && rows[a].1.key != rows[b].1.key
    ensures rows[i].0 in LoadSettings(settings, rows) <==>
      rows[i].0 in settings || !SettingTaken(settings, rows[i].0, rows[i].1)
    decreases |rows|
  {
    var taken := SettingTaken(settings, rows[0].0, rows[0].1);
    var next := if taken then settings else settings[rows[0].0 := rows[0].1];
    if i == 0 {
      LoadedSettingsKeep(next, rows[1..], rows[0].0);
    } else {
      assert forall a :: 0 <= a < |rows[1..]| ==> rows[1..][a] == rows[a + 1];
      SettingRowLoads(next, rows[1..], i - 1);
      if !taken {
        StillFree(settings, rows[0], rows[i]);
      }
    }
    hide SettingTaken;
  }

  lemma StillFree(settings: map<Id, Setting>, row: (Id, Setting), other: (Id, Setting))
    requires row.0 != other.0 && row.1.key != other.1.key && row.0 !in settings
    ensures SettingTaken(settings[row.0 := row.1], other.0, other.1) <==> SettingTaken(settings, other.0, other.1)
  {
    var next := settings[row.0 := row.1];
    if id :| id in settings && settings[id].key == other.1.key {
      assert id in next && next[id].key == other.1.key;
    }
    if id :| id in next && next[id].key == other.1.key {
      assert id in settings && settings[id].key == other.1.key;
    }
  }

  lemma {:induction false} LoadedSettingsKeep(settings: map<Id, Setting>, rows: Rows<Setting>, id: Id)
    requires forall i :: 0 <= i < |rows| ==> rows[i].0 != id
    ensures id in LoadSettings(settings, rows) <==> id in settings
    decreases |rows|
  {
    hide SettingTaken;
    if rows != [] {
      var taken := SettingTaken(settings, rows[0].0, rows[0].1);
      LoadedSettingsKeep(if taken then settings else settings[rows[0].0 := rows[0].1], rows[1..], id);
    }
  }

  /** A setting of the snapshot is there afterwards exactly if its id was, or its key was free. */
  lemma SettingsAdded(settings: map<Id, Setting>, src: map<Id, Setting>, rows: Rows<Setting>, id: Id)
    requires Lists(rows, src) && SettingKeysUnique(src) && id in src
    ensures id in LoadSettings(settings, rows) <==>
      id in settings || forall other :: other in settings ==> settings[other].key != src[id].key
  {
    var i :| 0 <= i < |rows| && rows[i].0 == id;
    assert rows[i].1 == src[id];
    SettingRowLoads(settings, rows, i);
  }

  lemma BookIsStorable(src: Tables, id: Id)
    requires Consistent(src) && id in src.books
    ensures StorableBook(ImportBook(ExportBook(src.books[id])))
  {
    assert BookOk(src.books[id]);
    hide *;
    ReimportIsStorable(src.books[id]);
  }

  lemma ReimportIsStorable(b: Book)
    requires BookOk(b)
    ensures StorableBook(ImportBook(ExportBook(b)))
  {
    ReimportKeepsCells(b);
    hide BookOk, StorableBook, ImportBook, ExportBook, SameCells, IntegersTyped;
  }

  lemma ListedAt(src: Tables, s: Snapshot, id: Id)
    returns (i: nat)
    requires SnapshotOf(src, s) && id in src.books
    ensures i < |s.books| && s.books[i].0 == id && s.books[i].1 == ExportBook(src.books[id])
  {
    hide ListsTags, ListsLinks, ExportBook;
    assert id in ExportBooks(src.books);
    i :| 0 <= i < |s.books| && s.books[i].0 == id;
  }

  /** Every book of a consistent library can be imported. */
  lemma BooksAdded(books: map<Id, Book>, src: Tables, s: Snapshot, id: Id)
    requires Consistent(src) && SnapshotOf(src, s) && id in src.books
    ensures id in LoadBooks(books, s.books)
  {
    hide *;
    BookIsStorable(src, id);
    BooksJoin(books, s.books);
    var i := ListedAt(src, s, id);
  }

  // ---------------------------------------------------------------------------
  // Success
  // ---------------------------------------------------------------------------

  /** A tag of the snapshot that is on some book, whose name and type the library has under another id, while it does
      not know the snapshot's id. */
  ghost predicate TagClashes(t: Tables, src: Tables)
  {
    exists k :: k in src.tags && k in t.tags && !IsTagId(t.tags, src.tags[k].id) && IsUsed(src, src.tags[k].id)
  }

  ghost predicate IsUsed(src: Tables, tag: Id)
  {
    exists book :: (book, tag) in src.bookTags
  }

  lemma LinksReferExactly(t: Tables, src: Tables, s: Snapshot)
    requires Consistent(src) && SnapshotOf(src, s)
    ensures LinksRefer(s.bookTags, LoadBooks(t.books, s.books), LoadTags(t.tags, s.tags)) <==> !TagClashes(t, src)
  {
    hide *;
    if TagClashes(t, src) {
      ClashBlocks(t, src, s);
    } else {
      AllLinksRefer(t, src, s);
    }
  }

  lemma AllLinksRefer(t: Tables, src: Tables, s: Snapshot)
    requires Consistent(src) && SnapshotOf(src, s) && !TagClashes(t, src)
    ensures LinksRefer(s.bookTags, LoadBooks(t.books, s.books), LoadTags(t.tags, s.tags))
  {
    var books, tags := LoadBooks(t.books, s.books), LoadTags(t.tags, s.tags);
    LinksListed(src, s);
    hide *;
    forall i | 0 <= i < |s.bookTags| ensures s.bookTags[i].0 in books && IsTagId(tags, s.bookTags[i].1) {
      assert s.bookTags[i] in src.bookTags;
      LinkRefers(t, src, s, s.bookTags[i]);
    }
    KnownLinksRefer(s.bookTags, books, tags);
  }

  lemma KnownLinksRefer(rows: seq<(Id, Id)>, books: map<Id, Book>, tags: map<TagKey, Tag>)
    requires forall i :: 0 <= i < |rows| ==> rows[i].0 in books && IsTagId(tags, rows[i].1)
    ensures LinksRefer(rows, books, tags)
  {
    hide IsTagId;
  }

  lemma LinksListed(src: Tables, s: Snapshot)
    requires SnapshotOf(src, s)
    ensures forall link :: link in src.bookTags <==> link in s.bookTags
  {
    hide Lists, ListsTags, ExportBooks;
  }

  lemma TagsListed(src: Tables, s: Snapshot)
    requires Consistent(src) && SnapshotOf(src, s)
    ensures ListsTags(s.tags, src.tags) && TagsAreFolded(src.tags)
  {
    hide Lists, ListsTags, ListsLinks, ExportBooks, BookOk, TagsAreFolded, LinksKnown, SettingKeysUnique;
    hide ProgressRefers;
  }

  lemma ClashBlocks(t: Tables, src: Tables, s: Snapshot)
    requires Consistent(src) && SnapshotOf(src, s) && TagClashes(t, src)
    ensures !LinksRefer(s.bookTags, LoadBooks(t.books, s.books), LoadTags(t.tags, s.tags))
  {
    TagsListed(src, s);
    LinksListed(src, s);
    var k, book := ClashingTag(t, src);
    hide *;
    TagsAdded(t.tags, src.tags, s.tags, k);
    UnknownTagBlocks(s.bookTags, LoadBooks(t.books, s.books), LoadTags(t.tags, s.tags), (book, src.tags[k].id));
  }

  lemma ClashingTag(t: Tables, src: Tables)
    returns (k: TagKey, book: Id)
    requires TagClashes(t, src)
    ensures k in src.tags && k in t.tags && !IsTagId(t.tags, src.tags[k].id) && (book, src.tags[k].id) in src.bookTags
  {
    hide IsTagId;
    k :| k in src.tags && k in t.tags && !IsTagId(t.tags, src.tags[k].id) && IsUsed(src, src.tags[k].id);
    book :| (book, src.tags[k].id) in src.bookTags;
  }

  lemma UnknownTagBlocks(rows: seq<(Id, Id)>, books: map<Id, Book>, tags: map<TagKey, Tag>, link: (Id, Id))
    requires link in rows && !IsTagId(tags, link.1)
    ensures !LinksRefer(rows, books, tags)
  {
    hide IsTagId;
    var i :| 0 <= i < |rows| && rows[i] == link;
  }

  lemma LinkRefers(t: Tables, src: Tables, s: Snapshot, link: (Id, Id))
    requires Consistent(src) && SnapshotOf(src, s) && !TagClashes(t, src) && link in src.bookTags
    ensures link.0 in LoadBooks(t.books, s.books) && IsTagId(LoadTags(t.tags, s.tags), link.1)
  {
    TagsListed(src, s);
    var k := LinkedTag(src, link);
    hide Consistent, SnapshotOf, LoadBooks, LoadTags, IsTagId, ListsTags, TagsAreFolded;
    BooksAdded(t.books, src, s, link.0);
    TagsAdded(t.tags, src.tags, s.tags, k);
    assert (link.0, src.tags[k].id) in src.bookTags && IsUsed(src, src.tags[k].id);
  }

  lemma LinkedTag(src: Tables, link: (Id, Id))
    returns (k: TagKey)
    requires Consistent(src) && link in src.bookTags
    ensures link.0 in src.books && k in src.tags && src.tags[k].id == link.1
  {
    hide BookOk, TagsAreFolded, SettingKeysUnique, ProgressRefers;
    k :| k in src.tags && src.tags[k].id == link.1;
  }

  /** The other references of the snapshot hold. */
  lemma RowsRefer(t: Tables, src: Tables, s: Snapshot)
    requires Consistent(src) && SnapshotOf(src, s)
    ensures var books := LoadBooks(t.books, s.books);
      && Load(t.sessions, s.sessions, Refers(books)).Some?
      && Load(t.notes, s.notes, NoteRefers(books)).Some? && Load(t.reviews, s.reviews, ReviewRefers(books)).Some?
      && var sessions := Load(t.sessions, s.sessions, Refers(books)).value;
         Load(t.progress, s.progress, ProgressRefers(books, sessions)).Some?
  {
    hide *;
    var books := LoadBooks(t.books, s.books);
    BooksReferred(t, src, s);
    RemarksRefer(src, s, books);
    LoadSucceeds(t.sessions, s.sessions, Refers(books));
    LoadSucceeds(t.notes, s.notes, NoteRefers(books));
    LoadSucceeds(t.reviews, s.reviews, ReviewRefers(books));
    AllProgressRefers(t, src, s, books, Load(t.sessions, s.sessions, Refers(books)).value);
  }

  lemma AllProgressRefers(t: Tables, src: Tables, s: Snapshot, books: map<Id, Book>, sessions: map<Id, Session>)
    requires Consistent(src) && SnapshotOf(src, s) && forall id :: id in src.books ==> id in books
    requires Load(t.sessions, s.sessions, Refers(books)) == Some(sessions)
    ensures Load(t.progress, s.progress, ProgressRefers(books, sessions)).Some?
  {
    hide *;
    LoadFacts(t.sessions, s.sessions, Refers(books), sessions);
    forall i | 0 <= i < |s.progress| ensures ProgressRefers(books, sessions)(s.progress[i].0, s.progress[i].1) {
      ProgressRow(src, s, books, sessions, i);
    }
    LoadSucceeds(t.progress, s.progress, ProgressRefers(books, sessions));
  }

  lemma RemarksRefer(src: Tables, s: Snapshot, books: map<Id, Book>)
    requires Consistent(src) && SnapshotOf(src, s) && forall id :: id in src.books ==> id in books
    ensures forall i :: 0 <= i < |s.sessions| ==> Refers(books)(s.sessions[i].0, s.sessions[i].1)
    ensures forall i :: 0 <= i < |s.notes| ==> NoteRefers(books)(s.notes[i].0, s.notes[i].1)
    ensures forall i :: 0 <= i < |s.reviews| ==> ReviewRefers(books)(s.reviews[i].0, s.reviews[i].1)
  {
    hide ListsTags, ListsLinks, BookOk, TagsAreFolded, LinksKnown, SettingKeysUnique, ProgressRefers, ExportBooks;
  }

  lemma BooksReferred(t: Tables, src: Tables, s: Snapshot)
    requires Consistent(src) && SnapshotOf(src, s)
    ensures forall id :: id in src.books ==> id in LoadBooks(t.books, s.books)
  {
    hide Consistent, SnapshotOf, LoadBooks;
    forall id | id in src.books ensures id in LoadBooks(t.books, s.books) {
      BooksAdded(t.books, src, s, id);
    }
  }

  lemma ProgressRow(src: Tables, s: Snapshot, books: map<Id, Book>, sessions: map<Id, Session>, i: nat)
    requires Consistent(src) && SnapshotOf(src, s) && i < |s.progress|
    requires forall id :: id in src.books ==> id in books
    requires forall j :: 0 <= j < |s.sessions| ==> s.sessions[j].0 in sessions
    ensures ProgressRefers(books, sessions)(s.progress[i].0, s.progress[i].1)
  {
    hide ListsTags, ListsLinks, BookOk, TagsAreFolded, LinksKnown, SettingKeysUnique;
    var (id, p) := s.progress[i];
    assert id in src.progress && src.progress[id] == p && ProgressRefers(src.books, src.sessions)(id, p);
  }

  /** Importing the snapshot of a consistent library fails if and only if a tag clashes. */
  lemma ImportSucceedsExactly(t: Tables, src: Tables, s: Snapshot)
    requires Consistent(src) && SnapshotOf(src, s)
    ensures Import(t, s).Some? <==> !TagClashes(t, src)
  {
    LinksReferExactly(t, src, s);
    RowsRefer(t, src, s);
    hide Consistent, SnapshotOf, LoadBooks, Load, LoadTags, LoadSettings, LinksRefer, TagClashes, Links, Refers;
    hide ProgressRefers, NoteRefers, ReviewRefers;
  }

  lemma {:induction false} CreditsSucceed(p: People, rows: seq<CreditRow>, books: set<Id>, n: nat)
    requires n <= |rows| && forall i :: 0 <= i < |rows| ==> rows[i].credit.0 in books
    ensures LoadCredits(p, rows, books, n).Some?
  {
    if n > 0 {
      CreditsSucceed(p, rows, books, n - 1);
    }
  }

  /** The same with the author tables: credits never make it fail. */
  lemma ImportWithAuthorsSucceedsExactly(t: Tables, p: People, src: Tables, people: People, s: Snapshot)
    requires Consistent(src) && SnapshotOf(src, s)
    requires ListsCredits(s.bookAuthors, people) && CreditsRefer(people, src.books.Keys)
    ensures ImportWithAuthors(t, p, s).Some? <==> !TagClashes(t, src)
  {
    BooksReferred(t, src, s);
    ImportSucceedsExactly(t, src, s);
    hide Consistent, SnapshotOf, LoadBooks, Import, TagClashes, LoadCredits;
    CreditsSucceed(p, s.bookAuthors, LoadBooks(t.books, s.books).Keys, |s.bookAuthors|);
  }
}
