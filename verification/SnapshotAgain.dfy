/** Applying a snapshot a second time changes nothing, whatever library it was applied to first. */
module SnapshotAgain {
  import opened Wrappers
  import opened Library
  import opened SnapshotAuthors
  import opened Snapshots

  // ---------------------------------------------------------------------------
  // One table at a time
  // ---------------------------------------------------------------------------

  /** Inserting the row would leave the books as they are. */
  predicate BookSettled(books: map<Id, Book>, row: (Id, BookRow))
  {
    row.0 in books || !StorableBook(ImportBook(row.1))
  }

  lemma {:induction false} BooksSettle(books: map<Id, Book>, rows: Rows<BookRow>)
    ensures forall id :: id in books ==> id in LoadBooks(books, rows)
    ensures forall i :: 0 <= i < |rows| ==> BookSettled(LoadBooks(books, rows), rows[i])
    decreases |rows|
  {
    hide StorableBook, ImportBook;
    if rows != [] {
      var b := ImportBook(rows[0].1);
      BooksSettle(if rows[0].0 in books || !StorableBook(b) then books else books[rows[0].0 := b], rows[1..]);
      assert forall i :: 0 < i < |rows| ==> rows[i] == rows[1..][i - 1];
    }
  }

  lemma {:induction false} SettledBooksStay(books: map<Id, Book>, rows: Rows<BookRow>)
    requires forall i :: 0 <= i < |rows| ==> BookSettled(books, rows[i])
    ensures LoadBooks(books, rows) == books
    decreases |rows|
  {
    hide StorableBook, ImportBook;
    if rows != [] {
      SettledBooksStay(books, rows[1..]);
    }
  }

  predicate TagSettled(tags: map<TagKey, Tag>, row: (Id, TagRow))
  {
    KeyOfRow(row) in tags || IsTagId(tags, row.0)
  }

  lemma TagIdsStay(tags: map<TagKey, Tag>, key: TagKey, tag: Tag)
    requires key !in tags
    ensures forall id :: IsTagId(tags, id) ==> IsTagId(tags[key := tag], id)
  {
    var next := tags[key := tag];
    forall id | IsTagId(tags, id) ensures IsTagId(next, id) {
      var k :| k in tags && tags[k].id == id;
      assert next[k].id == id;
    }
  }

  lemma {:induction false} TagsSettle(tags: map<TagKey, Tag>, rows: Rows<TagRow>)
    ensures forall k :: k in tags ==> k in LoadTags(tags, rows)
    ensures forall id :: IsTagId(tags, id) ==> IsTagId(LoadTags(tags, rows), id)
    ensures forall i :: 0 <= i < |rows| ==> TagSettled(LoadTags(tags, rows), rows[i])
    decreases |rows|
  {
    hide KeyOfRow, IsTagId;
    if rows != [] {
      var key, tag := KeyOfRow(rows[0]), Tag(rows[0].0, rows[0].1.name);
      if TagSettled(tags, rows[0]) {
        TagsSettle(tags, rows[1..]);
      } else {
        TagIdsStay(tags, key, tag);
        TagsSettle(tags[key := tag], rows[1..]);
      }
      assert forall i :: 0 < i < |rows| ==> rows[i] == rows[1..][i - 1];
    }
  }

  lemma {:induction false} SettledTagsStay(tags: map<TagKey, Tag>, rows: Rows<TagRow>)
    requires forall i :: 0 <= i < |rows| ==> TagSettled(tags, rows[i])
    ensures LoadTags(tags, rows) == tags
    decreases |rows|
  {
    hide KeyOfRow, IsTagId;
    if rows != [] {
      SettledTagsStay(tags, rows[1..]);
    }
  }

  lemma TakenStays(settings: map<Id, Setting>, id: Id, row: Setting, other: Id, otherRow: Setting)
    requires !SettingTaken(settings, id, row)
    ensures SettingTaken(settings[id := row], id, row)
    ensures SettingTaken(settings, other, otherRow) ==> SettingTaken(settings[id := row], other, otherRow)
  {
    var next := settings[id := row];
    if SettingTaken(settings, other, otherRow) && other !in settings {
      var k :| k in settings && settings[k].key == otherRow.key;
      assert next[k].key == otherRow.key;
    }
  }

  lemma {:induction false} SettingsSettle(settings: map<Id, Setting>, rows: Rows<Setting>, id: Id, row: Setting)
    ensures SettingTaken(settings, id, row) ==> SettingTaken(LoadSettings(settings, rows), id, row)
    ensures (exists i :: 0 <= i < |rows| && rows[i] == (id, row)) ==>
      SettingTaken(LoadSettings(settings, rows), id, row)
    decreases |rows|
  {
    hide SettingTaken;
    if rows != [] {
      if SettingTaken(settings, rows[0].0, rows[0].1) {
        SettingsSettle(settings, rows[1..], id, row);
      } else {
        TakenStays(settings, rows[0].0, rows[0].1, id, row);
        SettingsSettle(settings[rows[0].0 := rows[0].1], rows[1..], id, row);
      }
      assert forall i :: 0 < i < |rows| ==> rows[i] == rows[1..][i - 1];
    }
  }

  lemma {:induction false} TakenSettingsStay(settings: map<Id, Setting>, rows: Rows<Setting>)
    requires forall i :: 0 <= i < |rows| ==> SettingTaken(settings, rows[i].0, rows[i].1)
    ensures LoadSettings(settings, rows) == settings
    decreases |rows|
  {
    hide SettingTaken;
    if rows != [] {
      TakenSettingsStay(settings, rows[1..]);
    }
  }

  /** The credit is stored, and with it its author. */
  predicate CreditSettled(p: People, row: CreditRow)
  {
    row.credit in p.credits && row.credit.1 in p.authors
  }

  lemma {:induction false} CreditsSettle(p: People, rows: seq<CreditRow>, books: set<Id>, n: nat)
    requires n <= |rows| && LoadCredits(p, rows, books, n).Some?
    ensures forall i :: 0 <= i < n ==> CreditSettled(LoadCredits(p, rows, books, n).value, rows[i])
  {
    if n > 0 {
      CreditsSettle(p, rows, books, n - 1);
    }
  }

  lemma {:induction false} SettledCreditsStay(p: People, rows: seq<CreditRow>, books: set<Id>, n: nat)
    requires n <= |rows| && forall i :: 0 <= i < |rows| ==> CreditSettled(p, rows[i])
    ensures LoadCredits(p, rows, books, n) == Some(p)
  {
    if n > 0 {
      SettledCreditsStay(p, rows, books, n - 1);
    }
  }

  // ---------------------------------------------------------------------------
  // The whole snapshot
  // ---------------------------------------------------------------------------

  lemma KeyedTablesTwice(t: Tables, s: Snapshot)
    ensures LoadBooks(LoadBooks(t.books, s.books), s.books) == LoadBooks(t.books, s.books)
    ensures LoadTags(LoadTags(t.tags, s.tags), s.tags) == LoadTags(t.tags, s.tags)
    ensures LoadSettings(LoadSettings(t.settings, s.settings), s.settings) == LoadSettings(t.settings, s.settings)
  {
    hide LoadBooks, LoadTags, LoadSettings, BookSettled, TagSettled, SettingTaken;
    BooksSettle(t.books, s.books);
    SettledBooksStay(LoadBooks(t.books, s.books), s.books);
    TagsSettle(t.tags, s.tags);
    SettledTagsStay(LoadTags(t.tags, s.tags), s.tags);
    forall i | 0 <= i < |s.settings|
      ensures SettingTaken(LoadSettings(t.settings, s.settings), s.settings[i].0, s.settings[i].1)
    {
      SettingsSettle(t.settings, s.settings, s.settings[i].0, s.settings[i].1);
    }
    TakenSettingsStay(LoadSettings(t.settings, s.settings), s.settings);
  }

  /** `r` has the tables that the import rule gives. */
  ghost predicate ImportOf(t: Tables, s: Snapshot, r: Tables)
  {
    && r.books == LoadBooks(t.books, s.books) && r.tags == LoadTags(t.tags, s.tags)
    && r.settings == LoadSettings(t.settings, s.settings)
    && Load(t.sessions, s.sessions, Refers(r.books)) == Some(r.sessions)
    && Load(t.progress, s.progress, ProgressRefers(r.books, r.sessions)) == Some(r.progress)
    && Load(t.notes, s.notes, NoteRefers(r.books)) == Some(r.notes)
    && Load(t.reviews, s.reviews, ReviewRefers(r.books)) == Some(r.reviews)
    && LinksRefer(s.bookTags, r.books, r.tags) && r.bookTags == t.bookTags + Links(s.bookTags)
    && r.clocks == t.clocks && r.conflicts == t.conflicts
  }

  lemma ImportUnfold(t: Tables, s: Snapshot, r: Tables)
    ensures Import(t, s) == Some(r) <==> ImportOf(t, s, r)
  {
    hide LoadBooks, Load, LoadTags, LoadSettings, LinksRefer, Links, Refers, ProgressRefers, NoteRefers, ReviewRefers;
  }

  lemma TablesTwice(t: Tables, s: Snapshot, r: Tables)
    requires Import(t, s) == Some(r)
    ensures Import(r, s) == Some(r) && LoadBooks(r.books, s.books) == r.books == LoadBooks(t.books, s.books)
  {
    hide Import, LoadBooks, Load, LoadTags, LoadSettings, LinksRefer, Refers, ProgressRefers, NoteRefers, ReviewRefers;
    ImportUnfold(t, s, r);
    KeyedTablesTwice(t, s);
    LoadTwice(t.sessions, s.sessions, Refers(r.books), r.sessions);
    LoadTwice(t.progress, s.progress, ProgressRefers(r.books, r.sessions), r.progress);
    LoadTwice(t.notes, s.notes, NoteRefers(r.books), r.notes);
    LoadTwice(t.reviews, s.reviews, ReviewRefers(r.books), r.reviews);
    assert r.bookTags + Links(s.bookTags) == r.bookTags;
    ImportUnfold(r, s, r);
  }

  lemma CreditsTwice(p: People, rows: seq<CreditRow>, books: set<Id>, q: People)
    requires LoadCredits(p, rows, books, |rows|) == Some(q)
    ensures LoadCredits(q, rows, books, |rows|) == Some(q)
  {
    hide LoadCredits;
    CreditsSettle(p, rows, books, |rows|);
    SettledCreditsStay(q, rows, books, |rows|);
  }

  /** Applying a snapshot twice is applying it once, in every table, also over a library that was not empty. */
  lemma ImportTwice(t: Tables, p: People, s: Snapshot)
    requires ImportWithAuthors(t, p, s).Some?
    ensures var r := ImportWithAuthors(t, p, s).value; ImportWithAuthors(r.0, r.1, s) == Some(r)
  {
    hide Import, LoadBooks, LoadCredits;
    var r := ImportWithAuthors(t, p, s).value;
    TablesTwice(t, s, r.0);
    CreditsTwice(p, s.bookAuthors, r.0.books.Keys, r.1);
  }
}
