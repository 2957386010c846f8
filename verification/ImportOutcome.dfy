/** What importing a snapshot does to a library that is not empty. */
module ImportOutcome {
  import opened Wrappers
  import opened Text
  import opened Library
  import opened SnapshotAuthors
  import opened Snapshots
  import opened SnapshotAgain
  import opened JoinedTables
  import opened Consistency

  // ---------------------------------------------------------------------------
  // A snapshot over a library that is not empty
  // ---------------------------------------------------------------------------

  lemma {:induction false} BooksJoin(books: map<Id, Book>, rows: Rows<BookRow>)
    ensures var r := LoadBooks(books, rows);
      && (forall id :: id in books ==> id in r && r[id] == books[id])
      && (forall id :: id in r && id !in books ==>
          exists i :: 0 <= i < |rows| && rows[i].0 == id && r[id] == ImportBook(rows[i].1))
      && (forall i :: 0 <= i < |rows| && StorableBook(ImportBook(rows[i].1)) ==> rows[i].0 in r)
    decreases |rows|
  {
    hide StorableBook, ImportBook;
    if rows != [] {
      var b, r := ImportBook(rows[0].1), LoadBooks(books, rows);
      var next := if rows[0].0 in books || !StorableBook(b) then books else books[rows[0].0 := b];
      BooksJoin(next, rows[1..]);
      assert forall i :: 0 < i < |rows| ==> rows[i] == rows[1..][i - 1];
      forall id | id in r && id !in books
        ensures exists i :: 0 <= i < |rows| && rows[i].0 == id && r[id] == ImportBook(rows[i].1)
      {
        if id in next {
          assert rows[0].0 == id && r[id] == ImportBook(rows[0].1);
        } else {
          var i :| 0 <= i < |rows[1..]| && rows[1..][i].0 == id && r[id] == ImportBook(rows[1..][i].1);
          assert rows[i + 1].0 == id && r[id] == ImportBook(rows[i + 1].1);
        }
      }
    }
  }

  lemma {:induction false} TagsJoin(tags: map<TagKey, Tag>, rows: Rows<TagRow>)
    ensures var r := LoadTags(tags, rows);
      && (forall k :: k in tags ==> k in r && r[k] == tags[k])
      && (forall k :: k in r && k !in tags ==>
          exists i :: 0 <= i < |rows| && KeyOfRow(rows[i]) == k && r[k] == Tag(rows[i].0, rows[i].1.name))
    decreases |rows|
  {
    hide KeyOfRow, IsTagId;
    if rows != [] {
      var r, key := LoadTags(tags, rows), KeyOfRow(rows[0]);
      var next :=
        if key in tags || IsTagId(tags, rows[0].0) then tags else tags[key := Tag(rows[0].0, rows[0].1.name)];
      TagsJoin(next, rows[1..]);
      forall k | k in r && k !in tags
        ensures exists i :: 0 <= i < |rows| && KeyOfRow(rows[i]) == k && r[k] == Tag(rows[i].0, rows[i].1.name)
      {
        if k in next {
          assert KeyOfRow(rows[0]) == k;
        } else {
          var i :| 0 <= i < |rows[1..]| && KeyOfRow(rows[1..][i]) == k
            && r[k] == Tag(rows[1..][i].0, rows[1..][i].1.name);
          assert KeyOfRow(rows[i + 1]) == k;
        }
      }
    }
  }

  lemma {:induction false} SettingsJoin(settings: map<Id, Setting>, rows: Rows<Setting>)
    ensures var r := LoadSettings(settings, rows);
      && (forall id :: id in settings ==> id in r && r[id] == settings[id])
      && (forall id :: id in r && id !in settings ==> exists i :: 0 <= i < |rows| && rows[i] == (id, r[id]))
    decreases |rows|
  {
    hide SettingTaken;
    if rows != [] {
      var r := LoadSettings(settings, rows);
      var taken := SettingTaken(settings, rows[0].0, rows[0].1);
      assert rows[0].0 in settings ==> taken by { TakenById(settings, rows[0].0, rows[0].1); }
      var next := if taken then settings else settings[rows[0].0 := rows[0].1];
      SettingsJoin(next, rows[1..]);
      forall id | id in r && id !in settings ensures exists i :: 0 <= i < |rows| && rows[i] == (id, r[id]) {
        if id in next {
          assert rows[0] == (id, r[id]);
        } else {
          var i :| 0 <= i < |rows[1..]| && rows[1..][i] == (id, r[id]);
          assert rows[i + 1] == (id, r[id]);
        }
      }
    }
  }

  lemma TakenById(settings: map<Id, Setting>, id: Id, row: Setting)
    ensures id in settings ==> SettingTaken(settings, id, row)
  {
  }

  /** A snapshot adds the rows that the library does not have and leaves those that it has as they are. */
  lemma ImportJoins(t: Tables, src: Tables, s: Snapshot, r: Tables)
    requires SnapshotOf(src, s) && Import(t, s) == Some(r)
    ensures Joined(t.sessions, src.sessions, Same(), r.sessions) && Joined(t.progress, src.progress, Same(), r.progress)
    ensures Joined(t.notes, src.notes, Same(), r.notes) && Joined(t.reviews, src.reviews, Same(), r.reviews)
    ensures forall id :: id in t.books ==> id in r.books && r.books[id] == t.books[id]
    ensures forall id :: id in r.books && id !in t.books ==>
      id in src.books && r.books[id] == ImportBook(ExportBook(src.books[id]))
    ensures forall k :: k in t.tags ==> k in r.tags && r.tags[k] == t.tags[k]
    ensures forall id :: id in t.settings ==> id in r.settings && r.settings[id] == t.settings[id]
    ensures r.bookTags == t.bookTags + src.bookTags && r.clocks == t.clocks && r.conflicts == t.conflicts
  {
    hide Import, LoadBooks, Load, LoadTags, LoadSettings, LinksRefer, Refers, ProgressRefers, NoteRefers, ReviewRefers;
    hide Joined, ImportBook, ExportBook, ListsTags, Lists;
    ImportUnfold(t, s, r);
    LoadJoinsSame(t.sessions, src.sessions, s.sessions, Refers(r.books), r.sessions);
    LoadJoinsSame(t.progress, src.progress, s.progress, ProgressRefers(r.books, r.sessions), r.progress);
    LoadJoinsSame(t.notes, src.notes, s.notes, NoteRefers(r.books), r.notes);
    LoadJoinsSame(t.reviews, src.reviews, s.reviews, ReviewRefers(r.books), r.reviews);
    assert Links(s.bookTags) == src.bookTags;
    BooksJoin(t.books, s.books);
    TagsJoin(t.tags, s.tags);
    SettingsJoin(t.settings, s.settings);
    forall id | id in r.books && id !in t.books
      ensures id in src.books && r.books[id] == ImportBook(ExportBook(src.books[id]))
    {
      var i :| 0 <= i < |s.books| && s.books[i].0 == id && r.books[id] == ImportBook(s.books[i].1);
      ListedBook(src, s, i);
    }
  }

  lemma ListedBook(src: Tables, s: Snapshot, i: nat)
    requires SnapshotOf(src, s) && i < |s.books|
    ensures s.books[i].0 in src.books && s.books[i].1 == ExportBook(src.books[s.books[i].0])
  {
    hide ListsTags, ListsLinks, ExportBook;
  }

  /** So with the author tables: an author and a credit that are there stay as they are. */
  lemma {:induction false} CreditsJoin(p: People, rows: seq<CreditRow>, books: set<Id>, n: nat)
    requires n <= |rows| && LoadCredits(p, rows, books, n).Some?
    ensures var r := LoadCredits(p, rows, books, n).value;
      && (forall a :: a in p.authors ==> a in r.authors && r.authors[a] == p.authors[a])
      && (forall c :: c in p.credits ==> c in r.credits && r.credits[c] == p.credits[c])
  {
    if n > 0 {
      CreditsJoin(p, rows, books, n - 1);
    }
  }

  // ---------------------------------------------------------------------------
  // Constraints
  // ---------------------------------------------------------------------------

  lemma ImportedBookOk(row: BookRow)
    requires StorableBook(ImportBook(row))
    ensures BookOk(ImportBook(row))
  {
    hide StorableBook;
  }

  lemma {:induction false} LoadedBooksOk(books: map<Id, Book>, rows: Rows<BookRow>)
    requires forall id :: id in books ==> BookOk(books[id])
    ensures forall id :: id in LoadBooks(books, rows) ==> BookOk(LoadBooks(books, rows)[id])
    ensures forall id :: id in books ==> id in LoadBooks(books, rows)
    decreases |rows|
  {
    hide StorableBook, ImportBook, BookOk;
    if rows != [] {
      var b := ImportBook(rows[0].1);
      if StorableBook(b) {
        ImportedBookOk(rows[0].1);
      }
      LoadedBooksOk(if rows[0].0 in books || !StorableBook(b) then books else books[rows[0].0 := b], rows[1..]);
    }
  }

  lemma {:induction false} LoadedTagsFold(tags: map<TagKey, Tag>, rows: Rows<TagRow>)
    requires TagsAreFolded(tags)
    ensures TagsAreFolded(LoadTags(tags, rows))
    ensures forall id :: IsTagId(tags, id) ==> IsTagId(LoadTags(tags, rows), id)
    decreases |rows|
  {
    hide TagsAreFolded, IsTagId, LowerCase;
    if rows != [] {
      var key, tag := KeyOfRow(rows[0]), Tag(rows[0].0, rows[0].1.name);
      if key in tags || IsTagId(tags, rows[0].0) {
        LoadedTagsFold(tags, rows[1..]);
      } else {
        OneMoreTag(tags, key, tag);
        LoadedTagsFold(tags[key := tag], rows[1..]);
      }
    }
  }

  lemma OneMoreTag(tags: map<TagKey, Tag>, key: TagKey, tag: Tag)
    requires TagsAreFolded(tags) && key !in tags && !IsTagId(tags, tag.id) && key.folded == LowerCase(tag.name)
    ensures TagsAreFolded(tags[key := tag])
    ensures forall id :: IsTagId(tags, id) ==> IsTagId(tags[key := tag], id)
  {
    hide LowerCase;
    var next := tags[key := tag];
    forall id | IsTagId(tags, id) ensures IsTagId(next, id) {
      var k :| k in tags && tags[k].id == id;
      assert next[k].id == id;
    }
  }

  lemma {:induction false} LoadedSettingsUnique(settings: map<Id, Setting>, rows: Rows<Setting>)
    requires SettingKeysUnique(settings)
    ensures SettingKeysUnique(LoadSettings(settings, rows))
    decreases |rows|
  {
    hide SettingKeysUnique, SettingTaken;
    if rows != [] {
      var taken := SettingTaken(settings, rows[0].0, rows[0].1);
      if !taken {
        OneMoreSetting(settings, rows[0].0, rows[0].1);
      }
      LoadedSettingsUnique(if taken then settings else settings[rows[0].0 := rows[0].1], rows[1..]);
    }
  }

  lemma OneMoreSetting(settings: map<Id, Setting>, id: Id, row: Setting)
    requires SettingKeysUnique(settings) && !SettingTaken(settings, id, row)
    ensures SettingKeysUnique(settings[id := row])
  {
  }

  lemma ImportedReferences(t: Tables, s: Snapshot, r: Tables)
    requires Consistent(t) && ImportOf(t, s, r) && forall id :: id in t.books ==> id in r.books
    ensures forall id :: id in r.sessions ==> r.sessions[id].bookId in r.books
    ensures forall id :: id in r.progress ==> ProgressRefers(r.books, r.sessions)(id, r.progress[id])
    ensures forall id :: id in r.notes ==> r.notes[id].bookId in r.books
    ensures forall id :: id in r.reviews ==> r.reviews[id].bookId in r.books
  {
    hide LoadBooks, Load, LoadTags, LoadSettings, BookOk, TagsAreFolded, SettingKeysUnique, LinksKnown, LinksRefer;
    LoadFacts(t.sessions, s.sessions, Refers(r.books), r.sessions);
    LoadFacts(t.progress, s.progress, ProgressRefers(r.books, r.sessions), r.progress);
    LoadFacts(t.notes, s.notes, NoteRefers(r.books), r.notes);
    LoadFacts(t.reviews, s.reviews, ReviewRefers(r.books), r.reviews);
  }

  /** Whatever the snapshot holds and whatever the library, an import that succeeds keeps keys, references and column
      constraints. */
  lemma ImportKeepsConsistency(t: Tables, s: Snapshot, r: Tables)
    requires Consistent(t) && Import(t, s) == Some(r)
    ensures Consistent(r)
  {
    hide Import, LoadBooks, Load, LoadTags, LoadSettings, BookOk, TagsAreFolded, SettingKeysUnique, IsTagId;
    ImportUnfold(t, s, r);
    LoadedBooksOk(t.books, s.books);
    LoadedTagsFold(t.tags, s.tags);
    LoadedSettingsUnique(t.settings, s.settings);
    ImportedReferences(t, s, r);
    hide Refers, ProgressRefers, NoteRefers, ReviewRefers;
  }
}
