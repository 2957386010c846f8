/** The database: one field per table. */
module Database {
  import opened Library

  class Database {
    var books: map<Id, Book>
    var sessions: map<Id, Session>
    var progress: map<Id, Progress>
    var tags: map<TagKey, Tag>
    var bookTags: set<(Id, Id)>
    var notes: map<Id, Note>
    var reviews: map<Id, Review>
    var settings: map<Id, Setting>
    var clocks: map<ClockKey, FieldClock>
    var conflicts: map<ConflictKey, Conflict>

    /** An in-memory database after its migrations. */
    constructor ()
      ensures State() == EMPTY
    {
      books, sessions, progress, tags, bookTags := map[], map[], map[], map[], {};
      notes, reviews, settings, clocks, conflicts := map[], map[], map[], map[], map[];
    }

    function State(): Tables
      reads this
    {
      Tables(books, sessions, progress, tags, bookTags, notes, reviews, settings, clocks, conflicts)
    }
  }
}
