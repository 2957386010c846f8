/** The backfill procedure: the loops over books, sessions, progress and tags. */
module BackfillJobs {
  import opened Wrappers
  import opened Text
  import opened Hlc
  import opened Library
  import opened Database
  import opened Snapshots
  import opened SyncLog
  import opened SyncRepositories
  import opened Backfills

  datatype BackfillCounts = BackfillCounts(books: nat, sessions: nat, progress: nat, tags: nat)

  function Total(c: BackfillCounts): nat
  {
    c.books + c.sessions + c.progress + c.tags
  }

  function Counted(c: BackfillCounts, e: Entry): BackfillCounts
  {
    match e
    case ABook(_, _) => c.(books := c.books + 1)
    case ASession(_, _) => c.(sessions := c.sessions + 1)
    case AProgress(_, _) => c.(progress := c.progress + 1)
    case ATag(_, _, _) => c.(tags := c.tags + 1)
  }

  /** The tally of a list, by entity type. */
  function CountsOf(es: seq<Entry>): (c: BackfillCounts)
    ensures Total(c) == |es|
  {
    if es == [] then BackfillCounts(0, 0, 0, 0) else Counted(CountsOf(es[..|es| - 1]), es[|es| - 1])
  }

  /** Op ids are random: new to the log and different from each other. */
  ghost predicate FreshTickets(log: Log, tickets: nat -> Ticket)
  {
    && (forall i: nat :: !HasOp(log, tickets(i).opId))
    && (forall i: nat, j: nat :: i != j ==> tickets(i).opId != tickets(j).opId)
  }

  lemma {:induction false} NextTicketIsFresh(log: Log, device: Id, es: seq<Entry>, tickets: nat -> Ticket, n: nat)
    requires AllEmittable(es) && FreshTickets(log, tickets) && |es| <= n
    ensures !HasOp(EmitAll(log, device, es, tickets), tickets(n).opId)
  {
    hide ToCanonical, NextHlc, DevicePrefix, FieldsOf, Emittable;
    if es != [] {
      NextTicketIsFresh(log, device, es[..|es| - 1], tickets, n);
      assert tickets(|es| - 1).opId != tickets(n).opId;
    }
  }

  /** `ExistingCreateOps::load`: one pass over the log. */
  method LoadExisting(log: Log) returns (existing: set<Subject>)
    ensures existing == Existing(log)
  {
    hide SubjectOf;
    existing := {};
    for i := 0 to |log|
      invariant existing == Existing(log[..i])
    {
      assert log[..i + 1][..i] == log[..i];
      match SubjectOf(log[i].op)
      case Some(s) => existing := existing + {s};
      case None =>
    }
    assert log[..|log|] == log;
  }

  /** The log has been extended by the missing ones of the entries seen so far. */
  ghost predicate Covers(log: Log, device: Id, start: Log, seen: seq<Entry>, existing: set<Subject>,
                         tickets: nat -> Ticket)
  {
    && AllEmittable(seen) && FreshTickets(start, tickets)
    && log == EmitAll(start, device, Missing(seen, existing), tickets)
  }

  lemma SkipCovered(log: Log, device: Id, start: Log, seen: seq<Entry>, existing: set<Subject>, tickets: nat -> Ticket,
                    e: Entry)
    requires Covers(log, device, start, seen, existing, tickets) && Emittable(e) && KeyOf(e) in existing
    ensures Missing(seen + [e], existing) == Missing(seen, existing)
    ensures Covers(log, device, start, seen + [e], existing, tickets)
  {
    hide KeyOf, EmitAll, Emittable, FreshTickets;
    assert (seen + [e])[..|seen|] == seen;
    assert Missing(seen, existing) + [] == Missing(seen, existing);
  }

  lemma EmitUncovered(log: Log, device: Id, start: Log, seen: seq<Entry>, existing: set<Subject>,
                      tickets: nat -> Ticket, e: Entry)
    requires Covers(log, device, start, seen, existing, tickets) && Emittable(e) && KeyOf(e) !in existing
    ensures !HasOp(log, tickets(|Missing(seen, existing)|).opId)
    ensures CountsOf(Missing(seen + [e], existing)) == Counted(CountsOf(Missing(seen, existing)), e)
    ensures Covers(Emit(log, device, DraftOf(e, tickets(|Missing(seen, existing)|)),
                        tickets(|Missing(seen, existing)|).wall),
                   device, start, seen + [e], existing, tickets)
  {
    hide KeyOf, DraftOf, Emit, EmitAll, CountsOf, HasOp, Emittable, FreshTickets, Counted;
    assert (seen + [e])[..|seen|] == seen;
    NextTicketIsFresh(start, device, Missing(seen, existing), tickets, |Missing(seen, existing)|);
    assert Missing(seen + [e], existing) == Missing(seen, existing) + [e];
    OneMoreEmission(start, device, Missing(seen, existing), tickets, e);
  }

  lemma OneMoreEmission(log: Log, device: Id, es: seq<Entry>, tickets: nat -> Ticket, e: Entry)
    requires AllEmittable(es) && Emittable(e)
    ensures AllEmittable(es + [e])
    ensures EmitAll(log, device, es + [e], tickets) ==
      Emit(EmitAll(log, device, es, tickets), device, DraftOf(e, tickets(|es|)), tickets(|es|).wall)
    ensures CountsOf(es + [e]) == Counted(CountsOf(es), e)
  {
    hide DraftOf, Emit, Emittable, Counted;
    assert (es + [e])[..|es|] == es;
  }

  /** One loop of the backfill: emits a Create op for each entry that has none, and keeps the tally. */
  method EmitMissing(sync: SyncRepository, es: seq<Entry>, existing: set<Subject>, tickets: nat -> Ticket,
                     tally: BackfillCounts,
                     ghost start: Log, ghost seen: seq<Entry>)
    returns (counts: BackfillCounts)
    requires sync.device.Some? && Covers(sync.log, sync.device.value, start, seen, existing, tickets)
    requires tally == CountsOf(Missing(seen, existing))
    requires AllEmittable(es) && forall i :: 0 <= i < |es| && es[i].ABook? ==> es[i].id in sync.db.books
    modifies sync`log, sync.db`books
    ensures Covers(sync.log, sync.device.value, start, seen + es, existing, tickets)
    ensures counts == CountsOf(Missing(seen + es, existing))
    ensures SameButClocks(old(sync.db.books), sync.db.books)
  {
    hide KeyOf, DraftOf, LocalOp, HasOp, Raise, Covers, Missing, Emit, CountsOf, Counted;
    counts := tally;
    assert seen + es[..0] == seen;
    for i := 0 to |es|
      invariant Covers(sync.log, sync.device.value, start, seen + es[..i], existing, tickets)
      invariant counts == CountsOf(Missing(seen + es[..i], existing))
      invariant SameButClocks(old(sync.db.books), sync.db.books)
    {
      assert seen + es[..i + 1] == seen + es[..i] + [es[i]];
      if KeyOf(es[i]) in existing {
        SkipCovered(sync.log, sync.device.value, start, seen + es[..i], existing, tickets, es[i]);
      } else {
        EmitUncovered(sync.log, sync.device.value, start, seen + es[..i], existing, tickets, es[i]);
        EmitEntry(sync, es[i], tickets(Total(counts)));
        counts := Counted(counts, es[i]);
      }
    }
    assert es[..|es|] == es;
  }

  method EmitEntry(sync: SyncRepository, e: Entry, ticket: Ticket)
    requires sync.device.Some? && Emittable(e) && !HasOp(sync.log, ticket.opId) && (e.ABook? ==> e.id in sync.db.books)
    modifies sync`log, sync.db`books
    ensures sync.log == Emit(old(sync.log), sync.device.value, DraftOf(e, ticket), ticket.wall)
    ensures SameButClocks(old(sync.db.books), sync.db.books)
  {
    hide LocalOp, HasOp, Raise, Emit, FieldsOf;
    var ok := sync.EmitLocalOp(DraftOf(e, ticket), ticket.wall);
  }

  /** The rows of a query, in any order. */
  method Fetch<T(==)>(rows: set<T>) returns (list: seq<T>)
    ensures forall x :: x in list <==> x in rows
    ensures forall i, j :: 0 <= i < j < |list| ==> list[i] != list[j]
  {
    list := [];
    var left := rows;
    while left != {}
      invariant left <= rows
      invariant forall x :: x in list <==> x in rows && x !in left
      invariant forall i, j :: 0 <= i < j < |list| ==> list[i] != list[j]
      decreases |left|
    {
      var x :| x in left;
      list := list + [x];
      left := left - {x};
    }
  }

  function BookRows(t: Tables): set<Entry>
  {
    set id | id in ListedBooks(t) :: ABook(id, t.books[id])
  }

  function SessionRows(t: Tables): set<Entry>
  {
    set id | id in t.sessions && ReadableSession(t.sessions[id]) && t.sessions[id].bookId in ListedBooks(t) ::
      ASession(id, t.sessions[id])
  }

  function ProgressRows(t: Tables, book: Id): set<Entry>
  {
    set id | id in t.progress && IsProgressEntry(t, id, t.progress[id]) && t.progress[id].bookId == book ::
      AProgress(id, t.progress[id])
  }

  function TagRows(t: Tables, book: Id): set<Entry>
  {
    set k | k in t.tags && (book, t.tags[k].id) in t.bookTags :: ATag(book, t.tags[k].name, k.tagType)
  }

  /** New entries without books, none of them listed before, join the list. */
  lemma JoinEntries(es: seq<Entry>, more: seq<Entry>)
    requires Distinct(es) && Distinct(more) && BooksFirst(es)
    requires forall e :: e in more ==> e !in es && !e.ABook?
    ensures Distinct(es + more) && BooksFirst(es + more)
  {
    var all := es + more;
    forall i, j | 0 <= i < j < |all| ensures all[i] != all[j] && (all[j].ABook? ==> all[i].ABook?) {
      assert j >= |es| ==> all[j] in more;
    }
  }

  lemma EntriesEmittable(t: Tables, kids: set<Id>, es: seq<Entry>)
    requires forall e :: e in es ==> IsEntry(t, kids, e)
    ensures AllEmittable(es)
  {
    hide ReadableProgress, ReadableSession, Readable, ListedBooks;
    forall i | 0 <= i < |es| ensures Emittable(es[i]) {
      assert es[i] in es;
      EntryEmittable(t, kids, es[i]);
    }
  }

  lemma EntryEmittable(t: Tables, kids: set<Id>, e: Entry)
    requires IsEntry(t, kids, e)
    ensures Emittable(e)
  {
    hide ReadableProgress, ReadableSession, Readable;
  }

  /** One more book adds its progress and its tags. */
  lemma ChildEntries(t: Tables, kids: set<Id>, book: Id, e: Entry)
    requires TagsAreFolded(t.tags) && book !in kids
    ensures IsEntry(t, kids + {book}, e) <==> IsEntry(t, kids, e) || e in ProgressRows(t, book) || e in TagRows(t, book)
    ensures e in ProgressRows(t, book) || e in TagRows(t, book) ==> !e.ABook? && !IsEntry(t, kids, e)
    ensures !(e in ProgressRows(t, book) && e in TagRows(t, book))
  {
    hide ListedBooks, ReadableProgress, ReadableSession, TagsAreFolded, ProgressRows, TagRows, IsTagOn;
    RowsAreEntries(t, book, e);
  }

  lemma OneMoreBook(t: Tables, kids: set<Id>, book: Id, es: seq<Entry>, ps: seq<Entry>, ts: seq<Entry>)
    requires TagsAreFolded(t.tags) && book !in kids && EnumeratesFor(es, t, kids) && BooksFirst(es)
    requires forall e :: e in ps <==> e in ProgressRows(t, book)
    requires forall e :: e in ts <==> e in TagRows(t, book)
    requires Distinct(ps) && Distinct(ts)
    ensures EnumeratesFor(es + ps + ts, t, kids + {book}) && BooksFirst(es + ps + ts) && AllEmittable(ps)
    ensures AllEmittable(ts)
  {
    hide IsEntry, ProgressRows, TagRows, TagsAreFolded, AllEmittable, Distinct, BooksFirst;
    forall e
      ensures e in es + ps + ts <==> IsEntry(t, kids + {book}, e)
      ensures e in ps ==> e !in es && !e.ABook?
      ensures e in ts ==> e !in es + ps && !e.ABook?
    {
      ChildEntries(t, kids, book, e);
    }
    JoinEntries(es, ps);
    JoinEntries(es + ps, ts);
    EntriesEmittable(t, kids + {book}, ps);
    EntriesEmittable(t, kids + {book}, ts);
  }

  lemma RowsAreEntries(t: Tables, book: Id, e: Entry)
    requires TagsAreFolded(t.tags)
    ensures e in BookRows(t) <==> e.ABook? && IsEntry(t, {}, e)
    ensures e in SessionRows(t) <==> e.ASession? && IsEntry(t, {}, e)
    ensures e in ProgressRows(t, book) <==> e.AProgress? && IsEntry(t, {book}, e)
    ensures e in TagRows(t, book) <==> e.ATag? && IsEntry(t, {book}, e)
  {
    hide ListedBooks, ReadableProgress, ReadableSession;
    match e
    case ABook(id, b) =>
    case ASession(id, s) =>
    case AProgress(id, p) =>
    case ATag(id, name, tagType) =>
      var key := TagKey(LowerCase(name), tagType);
      if e in TagRows(t, book) {
        var k :| k in t.tags && (book, t.tags[k].id) in t.bookTags && e == ATag(book, t.tags[k].name, k.tagType);
        assert k == key;
      }
      if IsEntry(t, {book}, e) {
        assert e == ATag(book, t.tags[key].name, key.tagType);
      }
  }

  /** The list of the live books comes first. */
  lemma BookEntries(t: Tables, bs: seq<Entry>)
    requires TagsAreFolded(t.tags) && Distinct(bs) && forall e :: e in bs <==> e in BookRows(t)
    ensures BooksFirst(bs) && AllEmittable(bs)
    ensures forall i :: 0 <= i < |bs| ==>
      bs[i].ABook? && bs[i].id in ListedBooks(t) && bs[i] == ABook(bs[i].id, t.books[bs[i].id])
    ensures forall i, j :: 0 <= i < j < |bs| ==> bs[i].id != bs[j].id
    ensures forall id :: id in ListedBooks(t) <==> exists i :: 0 <= i < |bs| && bs[i].id == id
  {
    hide Listed, Readable, ReadableSession;
    forall i | 0 <= i < |bs|
      ensures bs[i].ABook? && bs[i].id in ListedBooks(t) && bs[i] == ABook(bs[i].id, t.books[bs[i].id])
      ensures Emittable(bs[i])
    {
      assert bs[i] in bs;
      LiveIsReadable(t, bs[i].id);
    }
    forall id | id in ListedBooks(t) ensures exists i :: 0 <= i < |bs| && bs[i].id == id {
      assert ABook(id, t.books[id]) in BookRows(t);
      assert ABook(id, t.books[id]) in bs;
    }
  }

  lemma FirstRows(t: Tables, bs: seq<Entry>, ss: seq<Entry>)
    requires TagsAreFolded(t.tags) && Distinct(bs) && Distinct(ss)
    requires forall e :: e in bs <==> e in BookRows(t)
    requires forall e :: e in ss <==> e in SessionRows(t)
    ensures EnumeratesFor(bs + ss, t, {}) && BooksFirst(bs + ss) && AllEmittable(bs) && AllEmittable(ss)
    ensures forall i :: 0 <= i < |bs| ==> bs[i].ABook? && bs[i].id in ListedBooks(t)
    ensures forall i, j :: 0 <= i < j < |bs| ==> bs[i].id != bs[j].id
    ensures forall id :: id in ListedBooks(t) <==> exists i :: 0 <= i < |bs| && bs[i].id == id
  {
    hide Distinct, BooksFirst, AllEmittable, ListedBooks, TagsAreFolded, BookRows, SessionRows;
    BookEntries(t, bs);
    forall e
      ensures e in bs + ss <==> IsEntry(t, {}, e)
      ensures e in ss ==> e !in bs && !e.ABook? && IsEntry(t, {}, e)
    {
      RowsAreEntries(t, "", e);
      if IsEntry(t, {}, e) {
        OnlyParents(t, e);
      }
    }
    JoinEntries(bs, ss);
    EntriesEmittable(t, {}, ss);
  }

  /** Without children, the entries are books and sessions. */
  lemma OnlyParents(t: Tables, e: Entry)
    requires IsEntry(t, {}, e)
    ensures e.ABook? || e.ASession?
  {
    hide ListedBooks, ReadableSession;
  }

  lemma NothingSeen(start: Log, device: Id, existing: set<Subject>, tickets: nat -> Ticket)
    requires FreshTickets(start, tickets)
    ensures Covers(start, device, start, [], existing, tickets)
    ensures CountsOf(Missing([], existing)) == BackfillCounts(0, 0, 0, 0)
  {
  }

  /** Emission changes no table but the book clocks. */
  lemma SameChildRows(t: Tables, u: Tables, book: Id)
    requires u.progress == t.progress && u.tags == t.tags && u.bookTags == t.bookTags
    ensures ProgressRows(u, book) == ProgressRows(t, book) && TagRows(u, book) == TagRows(t, book)
  {
  }

  lemma LiveIsReadable(t: Tables, id: Id)
    requires id in ListedBooks(t)
    ensures id in t.books && Readable(t.books[id])
  {
  }

  /** Where the backfill stands: the entries visited so far and what has been emitted for them. */
  ghost predicate Visited(t: Tables, kids: set<Id>, es: seq<Entry>, log: Log, device: Id, start: Log,
                          existing: set<Subject>,
                          tickets: nat -> Ticket, counts: BackfillCounts)
  {
    && EnumeratesFor(es, t, kids) && BooksFirst(es)
    && Covers(log, device, start, es, existing, tickets)
    && counts == CountsOf(Missing(es, existing))
  }

  /** The progress and the tags of one book. */
  method BackfillChildren(sync: SyncRepository, book: Id, existing: set<Subject>, tickets: nat -> Ticket,
                          tally: BackfillCounts,
                          ghost t: Tables, ghost kids: set<Id>, ghost start: Log, ghost seen: seq<Entry>)
    returns (counts: BackfillCounts, ghost es: seq<Entry>)
    requires sync.device.Some? && TagsAreFolded(t.tags) && book !in kids
    requires Visited(t, kids, seen, sync.log, sync.device.value, start, existing, tickets, tally)
    requires sync.db.State() == t.(books := sync.db.books)
    modifies sync`log, sync.db`books
    ensures Visited(t, kids + {book}, es, sync.log, sync.device.value, start, existing, tickets, counts)
    ensures SameButClocks(old(sync.db.books), sync.db.books)
  {
    hide Covers, Missing, CountsOf, ListedBooks, TagsAreFolded, IsEntry, ProgressRows, TagRows, EnumeratesFor;
    hide BooksFirst;
    var progress := Fetch(ProgressRows(sync.db.State(), book));
    var tags := Fetch(TagRows(sync.db.State(), book));
    SameChildRows(t, sync.db.State(), book);
    OneMoreBook(t, kids, book, seen, progress, tags);
    ChildrenAreNoBooks(t, book, progress, tags);
    counts := EmitMissing(sync, progress, existing, tickets, tally, start, seen);
    counts := EmitMissing(sync, tags, existing, tickets, counts, start, seen + progress);
    es := seen + progress + tags;
  }

  lemma ChildrenAreNoBooks(t: Tables, book: Id, ps: seq<Entry>, ts: seq<Entry>)
    requires forall e :: e in ps <==> e in ProgressRows(t, book)
    requires forall e :: e in ts <==> e in TagRows(t, book)
    ensures forall i :: 0 <= i < |ps| ==> !ps[i].ABook?
    ensures forall i :: 0 <= i < |ts| ==> !ts[i].ABook?
  {
    assert forall i :: 0 <= i < |ps| ==> ps[i] in ps;
    assert forall i :: 0 <= i < |ts| ==> ts[i] in ts;
  }

  lemma CoversAll(log: Log, device: Id, start: Log, es: seq<Entry>, existing: set<Subject>, tickets: nat -> Ticket)
    requires Covers(log, device, start, es, existing, tickets) && existing == Existing(start)
    ensures AllEmittable(es) && log == Backfilled(start, device, es, tickets)
  {
  }

  /** The live books, then the sessions. Returns the book rows for the next loop. */
  method BackfillParents(sync: SyncRepository, existing: set<Subject>, tickets: nat -> Ticket)
    returns (counts: BackfillCounts, books: seq<Entry>, ghost es: seq<Entry>)
    requires sync.device.Some? && TagsAreFolded(sync.db.tags) && FreshTickets(sync.log, tickets)
    modifies sync`log, sync.db`books
    ensures Visited(old(sync.db.State()), {}, es, sync.log, sync.device.value, old(sync.log), existing, tickets, counts)
    ensures SameButClocks(old(sync.db.books), sync.db.books)
    ensures forall i, j :: 0 <= i < j < |books| ==> books[i].id != books[j].id
    ensures forall id :: id in ListedBooks(old(sync.db.State())) <==> exists i :: 0 <= i < |books| && books[i].id == id
  {
    hide Covers, Missing, CountsOf, ListedBooks, TagsAreFolded, FreshTickets, IsEntry, BookRows, SessionRows;
    hide EnumeratesFor, BooksFirst;
    ghost var start := sync.log;
    books := Fetch(BookRows(sync.db.State()));
    var sessions := Fetch(SessionRows(sync.db.State()));
    FirstRows(sync.db.State(), books, sessions);
    NothingSeen(start, sync.device.value, existing, tickets);
    LiveIsStored(sync.db.State());
    assert [] + books == books;
    SessionsAreNoBooks(sync.db.State(), sessions);
    counts := EmitMissing(sync, books, existing, tickets, BackfillCounts(0, 0, 0, 0), start, []);
    counts := EmitMissing(sync, sessions, existing, tickets, counts, start, books);
    es := books + sessions;
  }

  lemma LiveIsStored(t: Tables)
    ensures forall id :: id in ListedBooks(t) ==> id in t.books
  {
  }

  lemma SessionsAreNoBooks(t: Tables, ss: seq<Entry>)
    requires forall e :: e in ss <==> e in SessionRows(t)
    ensures forall i :: 0 <= i < |ss| ==> !ss[i].ABook?
  {
    assert forall i :: 0 <= i < |ss| ==> ss[i] in ss;
  }

  /** `backfill_sync_ops`. Its transaction is not modelled separately: with new op ids no emission
      fails. `es` lists the entries in the order in which they were visited. */
  method BackfillSyncOps(sync: SyncRepository, tickets: nat -> Ticket)
    returns (counts: BackfillCounts, ghost es: seq<Entry>)
    requires TagsAreFolded(sync.db.tags) && FreshTickets(sync.log, tickets)
    modifies sync`log, sync.db`books
    ensures old(sync.device).None? ==>
      counts == BackfillCounts(0, 0, 0, 0) && sync.log == old(sync.log) && sync.db.books == old(sync.db.books)
    ensures old(sync.device).Some? ==>
      && Enumerates(es, old(sync.db.State())) && BooksFirst(es) && AllEmittable(es)
      && sync.log == Backfilled(old(sync.log), sync.device.value, es, tickets)
      && counts == CountsOf(Missing(es, Existing(old(sync.log))))
    ensures SameButClocks(old(sync.db.books), sync.db.books)
  {
    hide Covers, Missing, CountsOf, ListedBooks, EmitAll, TagsAreFolded, FreshTickets, IsEntry, EnumeratesFor;
    hide BooksFirst;
    es := [];
    counts := BackfillCounts(0, 0, 0, 0);
    if sync.device.None? {
      return;
    }
    ghost var t, start := sync.db.State(), sync.log;
    var existing := LoadExisting(sync.log);
    var books;
    counts, books, es := BackfillParents(sync, existing, tickets);
    ghost var kids: set<Id> := {};
    for i := 0 to |books|
      invariant kids == set k | 0 <= k < i :: books[k].id
      invariant Visited(t, kids, es, sync.log, sync.device.value, start, existing, tickets, counts)
      invariant SameButClocks(old(sync.db.books), sync.db.books)
    {
      counts, es := BackfillChildren(sync, books[i].id, existing, tickets, counts, t, kids, start, es);
      kids := kids + {books[i].id};
    }
    assert kids == ListedBooks(t);
    CoversAll(sync.log, sync.device.value, start, es, existing, tickets);
  }

  lemma {:induction false} OtherTicketsStayFresh(log: Log, device: Id, es: seq<Entry>, tickets: nat -> Ticket,
                                                 id: Id)
    requires AllEmittable(es) && !HasOp(log, id) && forall i: nat :: tickets(i).opId != id
    ensures !HasOp(EmitAll(log, device, es, tickets), id)
  {
    hide ToCanonical, NextHlc, DevicePrefix, FieldsOf, Emittable;
    if es != [] {
      OtherTicketsStayFresh(log, device, es[..|es| - 1], tickets, id);
    }
  }

  /** The tickets of a later run are new to the log that an earlier one leaves. */
  ghost predicate FreshAfter(log: Log, tickets: nat -> Ticket, later: nat -> Ticket)
  {
    FreshTickets(log, later) && forall i: nat, j: nat :: tickets(i).opId != later(j).opId
  }

  lemma FreshForSecondRun(log: Log, device: Id, es: seq<Entry>, tickets: nat -> Ticket, later: nat -> Ticket)
    requires AllEmittable(es) && FreshAfter(log, tickets, later)
    ensures FreshTickets(Backfilled(log, device, es, tickets), later)
  {
    hide EmitAll, HasOp, Missing, Existing, Emittable;
    forall j: nat ensures !HasOp(Backfilled(log, device, es, tickets), later(j).opId) {
      OtherTicketsStayFresh(log, device, Missing(es, Existing(log)), tickets, later(j).opId);
    }
  }

  /** A run over the rows that a first run leaves adds nothing to its log and counts nothing. */
  lemma SecondRun(t: Tables, u: Tables, log: Log, device: Id, es: seq<Entry>, tickets: nat -> Ticket,
                  again: seq<Entry>, later: nat -> Ticket)
    requires Enumerates(es, t) && AllEmittable(es) && OnlyClocksDiffer(t, u)
    requires Enumerates(again, u) && AllEmittable(again)
    ensures var after := Backfilled(log, device, es, tickets);
      && Backfilled(after, device, again, later) == after
      && CountsOf(Missing(again, Existing(after))) == BackfillCounts(0, 0, 0, 0)
  {
    hide Missing, Existing, Enumerates, OnlyClocksDiffer, AllEmittable;
    BackfillIsComplete(t, es, log, device, tickets, u, again);
  }

  /** The backfill may be repeated: whatever the first run did, the second counts nothing and leaves the log. */
  method BackfillTwice(sync: SyncRepository, tickets: nat -> Ticket, later: nat -> Ticket)
    returns (first: BackfillCounts, second: BackfillCounts, ghost es: seq<Entry>)
    requires TagsAreFolded(sync.db.tags) && FreshTickets(sync.log, tickets) && FreshAfter(sync.log, tickets, later)
    modifies sync`log, sync.db`books
    ensures second == BackfillCounts(0, 0, 0, 0)
    ensures sync.device.None? ==> sync.log == old(sync.log)
    ensures sync.device.Some? ==> AllEmittable(es) && Enumerates(es, old(sync.db.State()))
    ensures sync.device.Some? ==> sync.log == Backfilled(old(sync.log), sync.device.value, es, tickets)
  {
    hide TagsAreFolded, FreshTickets, FreshAfter, Missing, CountsOf, Enumerates, BooksFirst, AllEmittable, Backfilled;
    hide EmitAll, Existing, SameButClocks;
    first, second, es := BackfillCounts(0, 0, 0, 0), BackfillCounts(0, 0, 0, 0), [];
    if sync.device.None? {
      return;
    }
    ghost var t, start, device := sync.db.State(), sync.log, sync.device.value;
    first, es := BackfillSyncOps(sync, tickets);
    FreshForSecondRun(start, device, es, tickets, later);
    ghost var u, log := sync.db.State(), sync.log;
    assert OnlyClocksDiffer(t, u);
    ghost var again;
    second, again := BackfillSyncOps(sync, later);
    SecondRun(t, u, start, device, es, tickets, again, later);
  }
}
