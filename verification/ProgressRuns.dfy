/** Reading progress over whole runs: entries only ever go up, and the maximum does not depend on
    the order of delivery. */
module ProgressRuns {
  import opened Wrappers
  import opened Library
  import opened MergeRules

  /** The op carries a complete progress entry. */
  predicate IsEntry(op: Op)
  {
    op.entity == ProgressEntity && op.opType == Create && op.fields.Some?
      && ProgressOf(op.fields.value, op.createdAt).Some?
  }

  function EntryOf(op: Op): Progress
    requires IsEntry(op)
  {
    ProgressOf(op.fields.value, op.createdAt).value
  }

  predicate Reports(op: Op, book: Id, kind: string)
  {
    IsEntry(op) && EntryOf(op).bookId == book && EntryOf(op).progressType == kind
  }

  /** Nothing stored for the entry's book and type is as great, and its id is free. */
  predicate IsNews(t: Tables, id: Id, entry: Progress)
  {
    id !in t.progress && !Reached(t.progress, entry.bookId, entry.progressType, entry.value)
  }

  predicate ReferencesHold(t: Tables, entry: Progress)
  {
    entry.bookId in t.books && (entry.sessionId.Some? ==> entry.sessionId.value in t.sessions)
  }

  /** What one step does to the progress table: nothing, or one entry above all of its kind. */
  lemma StepRaisesProgress(t: Tables, op: Op, newId: Id)
    ensures Step(t, op, newId).progress ==
      if IsEntry(op) && IsNews(t, op.entityId, EntryOf(op)) && ReferencesHold(t, EntryOf(op))
      then t.progress[op.entityId := EntryOf(op)] else t.progress
  {
    hide Step;
    if op.entity == ProgressEntity {
      ProgressFrame(t, op, newId);
      if op.opType == Create {
        CreateRaisesProgress(t, op);
      }
    } else {
      StepFrame(t, op, newId);
    }
  }

  lemma CreateRaisesProgress(t: Tables, op: Op)
    requires op.entity == ProgressEntity && op.opType == Create
    ensures ProgressCreate(t, op).0.progress ==
      if IsEntry(op) && IsNews(t, op.entityId, EntryOf(op)) && ReferencesHold(t, EntryOf(op))
      then t.progress[op.entityId := EntryOf(op)] else t.progress
  {
    hide Reached, ProgressOf;
  }

  /** Books and sessions are never removed, so a reference that holds keeps holding. */
  lemma StepKeepsReferences(t: Tables, op: Op, newId: Id, book: Id, session: Id)
    ensures book in t.books ==> book in Step(t, op, newId).books
    ensures session in t.sessions ==> session in Step(t, op, newId).sessions
  {
    hide Step;
    if book in t.books {
      StepKeepsBooks(t, op, newId, book);
    }
    if session in t.sessions {
      StepKeepsSession(t, op, newId, session);
    }
  }

  // ---------------------------------------------------------------------------
  // Strictly increasing entries
  // ---------------------------------------------------------------------------

  lemma {:induction false} RunKeepsEntries(t: Tables, ds: seq<Delivery>, id: Id)
    requires id in t.progress
    ensures id in Run(t, ds).progress && Run(t, ds).progress[id] == t.progress[id]
    decreases |ds|
  {
    hide Step;
    if ds != [] {
      StepRaisesProgress(t, ds[0].op, ds[0].newId);
      RunKeepsEntries(Step(t, ds[0].op, ds[0].newId), ds[1..], id);
    }
  }

  /** Delivery `n` of the run inserts an entry for the book and type. */
  predicate Inserts(t: Tables, ds: seq<Delivery>, n: nat, book: Id, kind: string)
    requires n < |ds|
  {
    Reports(ds[n].op, book, kind) && Run(t, ds[..n + 1]).progress != Run(t, ds[..n]).progress
  }

  /** Over any run, the entries inserted for one book and type have strictly increasing values. */
  lemma InsertedValuesIncrease(t: Tables, ds: seq<Delivery>, i: nat, j: nat, book: Id, kind: string)
    requires i < j < |ds| && Inserts(t, ds, i, book, kind) && Inserts(t, ds, j, book, kind)
    ensures EntryOf(ds[i].op).value < EntryOf(ds[j].op).value
  {
    hide Step, IsEntry, EntryOf;
    RunSplitsAt(t, ds, i);
    RunSplitsAt(t, ds, j);
    StepRaisesProgress(Run(t, ds[..i]), ds[i].op, ds[i].newId);
    StepRaisesProgress(Run(t, ds[..j]), ds[j].op, ds[j].newId);
    var id := ds[i].op.entityId;
    assert ds[..j] == ds[..i + 1] + ds[i + 1..j];
    RunAppend(t, ds[..i + 1], ds[i + 1..j]);
    RunKeepsEntries(Run(t, ds[..i + 1]), ds[i + 1..j], id);
    assert Run(t, ds[..j]).progress[id] == EntryOf(ds[i].op);
  }

  // ---------------------------------------------------------------------------
  // The maximum
  // ---------------------------------------------------------------------------

  /** Each entry for the book and type can be inserted: its references exist, and no other entry,
      stored or delivered, has its id. */
  predicate Deliverable(t: Tables, ops: set<Op>, book: Id, kind: string)
  {
    forall op :: op in ops && Reports(op, book, kind) ==>
      && book in t.books && (EntryOf(op).sessionId.Some? ==> EntryOf(op).sessionId.value in t.sessions)
      && op.entityId !in t.progress
      && forall p :: p in ops && IsEntry(p) && p.entityId == op.entityId ==> p == op
  }

  /** Some delivered entry has at least this value. */
  ghost predicate Offered(ops: set<Op>, book: Id, kind: string, value: int)
  {
    exists op :: op in ops && Reports(op, book, kind) && value <= EntryOf(op).value
  }

  /** Every new entry of `u` comes from one of the ops. */
  ghost predicate EntriesFrom(t: Tables, u: Tables, ops: set<Op>)
  {
    forall id :: id in u.progress && id !in t.progress ==>
      exists op :: op in ops && IsEntry(op) && op.entityId == id && u.progress[id] == EntryOf(op)
  }

  ghost predicate ReachedExactly(t: Tables, u: Tables, done: set<Op>, book: Id, kind: string)
  {
    forall v: int :: Reached(u.progress, book, kind, v) <==>
      Reached(t.progress, book, kind, v) || Offered(done, book, kind, v)
  }

  ghost predicate References(t: Tables, u: Tables)
  {
    && (forall id :: id in t.books ==> id in u.books)
    && (forall id :: id in t.sessions ==> id in u.sessions)
    && (forall id :: id in t.progress ==> id in u.progress)
  }

  /** The state of the argument after delivering `done` from `t`, with `ops` still allowed. */
  ghost predicate Tracks(t: Tables, u: Tables, done: set<Op>, ops: set<Op>, book: Id, kind: string)
  {
    done <= ops && References(t, u) && EntriesFrom(t, u, done) && ReachedExactly(t, u, done, book, kind)
  }

  lemma StepTracks(t: Tables, u: Tables, done: set<Op>, ops: set<Op>, book: Id, kind: string, op: Op, newId: Id)
    requires Deliverable(t, ops, book, kind) && Tracks(t, u, done, ops, book, kind) && op in ops
    ensures Tracks(t, Step(u, op, newId), done + {op}, ops, book, kind)
  {
    hide Step, IsEntry, EntryOf;
    var w := Step(u, op, newId);
    StepRaisesProgress(u, op, newId);
    assert References(t, w) by {
      forall id ensures id in t.books ==> id in w.books {
        StepKeepsReferences(u, op, newId, id, id);
      }
      forall id ensures id in t.sessions ==> id in w.sessions {
        StepKeepsReferences(u, op, newId, id, id);
      }
    }
    forall v: int
      ensures Reached(w.progress, book, kind, v) <==>
        Reached(t.progress, book, kind, v) || Offered(done + {op}, book, kind, v)
    {
      assert Offered(done + {op}, book, kind, v) <==>
        Offered(done, book, kind, v) || (Reports(op, book, kind) && v <= EntryOf(op).value);
      StepReaches(t, u, done, ops, book, kind, op, newId, v);
    }
  }

  lemma StepReaches(t: Tables, u: Tables, done: set<Op>, ops: set<Op>, book: Id, kind: string, op: Op, newId: Id,
                    v: int)
    requires Deliverable(t, ops, book, kind) && Tracks(t, u, done, ops, book, kind) && op in ops
    ensures Reached(Step(u, op, newId).progress, book, kind, v) <==>
      Reached(u.progress, book, kind, v) || (Reports(op, book, kind) && v <= EntryOf(op).value)
  {
    hide Step, IsEntry, EntryOf, ReachedExactly;
    var w := Step(u, op, newId);
    StepRaisesProgress(u, op, newId);
    if Reports(op, book, kind) {
      var entry := EntryOf(op);
      if Reached(u.progress, book, kind, entry.value) {
        assert w.progress == u.progress;
      } else {
        assert w.progress == u.progress[op.entityId := entry];
        if Reached(u.progress, book, kind, v) {
          var id :| id in u.progress && u.progress[id].bookId == book && u.progress[id].progressType == kind
            && v <= u.progress[id].value;
          assert id in w.progress && w.progress[id] == u.progress[id];
        }
        assert w.progress[op.entityId] == entry;
      }
    } else if w.progress != u.progress {
      if Reached(u.progress, book, kind, v) {
        var id :| id in u.progress && u.progress[id].bookId == book && u.progress[id].progressType == kind
          && v <= u.progress[id].value;
        assert id in w.progress && w.progress[id] == u.progress[id];
      }
    }
  }

  lemma {:induction false} RunTracks(t: Tables, u: Tables, done: set<Op>, ops: set<Op>, book: Id, kind: string,
                                     ds: seq<Delivery>)
    requires Deliverable(t, ops, book, kind) && Tracks(t, u, done, ops, book, kind) && Ops(ds) <= ops
    ensures Tracks(t, Run(u, ds), done + Ops(ds), ops, book, kind)
    decreases |ds|
  {
    hide Step, Tracks, Deliverable;
    if ds == [] {
      assert done + Ops(ds) == done;
    } else {
      assert ds[0].op in Ops(ds) && Ops(ds[1..]) <= Ops(ds);
      StepTracks(t, u, done, ops, book, kind, ds[0].op, ds[0].newId);
      RunTracks(t, Step(u, ds[0].op, ds[0].newId), done + {ds[0].op}, ops, book, kind, ds[1..]);
      assert done + {ds[0].op} + Ops(ds[1..]) == done + Ops(ds) by {
        assert ds == [ds[0]] + ds[1..];
      }
    }
  }

  /** The maximum of a book and type, if it has entries. */
  ghost predicate IsMax(progress: map<Id, Progress>, book: Id, kind: string, m: Option<int>)
  {
    match m
    case None => forall v: int :: !Reached(progress, book, kind, v)
    case Some(n) => Reached(progress, book, kind, n) && !Reached(progress, book, kind, n + 1)
  }

  /** After any run, a value is reached exactly when it was at the start or a delivered entry offers
      it: the maximum is that of the start and of everything delivered, in whatever order. */
  lemma RunReachesWhatWasOffered(t: Tables, ds: seq<Delivery>, book: Id, kind: string)
    requires Deliverable(t, Ops(ds), book, kind)
    ensures forall v: int :: Reached(Run(t, ds).progress, book, kind, v) <==>
      Reached(t.progress, book, kind, v) || Offered(Ops(ds), book, kind, v)
  {
    RunTracks(t, t, {}, Ops(ds), book, kind, ds);
    assert {} + Ops(ds) == Ops(ds);
  }

  lemma ReachedBelow(progress: map<Id, Progress>, book: Id, kind: string, v: int, w: int)
    requires Reached(progress, book, kind, v) && w <= v
    ensures Reached(progress, book, kind, w)
  {
    var id :| id in progress && progress[id].bookId == book && progress[id].progressType == kind
      && v <= progress[id].value;
    assert id in progress && w <= progress[id].value;
  }

  /** Two orders of the same ops end with the same maximum, though the inserted rows may differ. */
  lemma MaximumIsOrderIndependent(t: Tables, ds: seq<Delivery>, es: seq<Delivery>, book: Id, kind: string,
                                  m: Option<int>, n: Option<int>)
    requires Ops(ds) == Ops(es) && Deliverable(t, Ops(ds), book, kind)
    requires IsMax(Run(t, ds).progress, book, kind, m) && IsMax(Run(t, es).progress, book, kind, n)
    ensures m == n
  {
    hide Run, Reached, Offered, Deliverable;
    RunReachesWhatWasOffered(t, ds, book, kind);
    RunReachesWhatWasOffered(t, es, book, kind);
    var p, q := Run(t, ds).progress, Run(t, es).progress;
    assert forall v: int :: Reached(p, book, kind, v) <==> Reached(q, book, kind, v);
    if m.Some? && n.Some? {
      if m.value < n.value {
        ReachedBelow(q, book, kind, n.value, m.value + 1);
      } else if n.value < m.value {
        ReachedBelow(p, book, kind, m.value, n.value + 1);
      }
    }
  }
}
