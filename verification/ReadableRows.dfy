/** Which of the rows that an op adds a backfill can read, told from the JSON object, and how it counts them. */
module ReadableRows {
  import opened Wrappers
  import opened Text
  import opened Instants
  import opened Library
  import opened StoredRows
  import opened Backfills
  import opened BackfillJobs
  import opened BackfillArrivals

  /** A text of the object is a time that can be parsed, if it is one at all. */
  predicate IsTime(obj: Object, k: Key)
  {
    IsText(obj, k) ==> ParseInstant(obj[k].text).Some?
  }

  /** A session just created can be read, and so backfilled, exactly when its times can be parsed and its numbers fit
      32 bits. */
  lemma CreatedSessionIsReadable(s: Session, obj: Object, createdAt: string)
    requires SessionHolds(s, obj, createdAt)
    ensures ReadableSession(s) <==>
      && IsTime(obj, StartedAt) && IsTime(obj, FinishedAt) && ParseInstant(createdAt).Some?
      && IsSmall(obj, StartPage) && IsSmall(obj, EndPage) && IsSmall(obj, Rating)
  {
    hide ParseInstant;
  }

  /** A progress entry, exactly when its times can be parsed, its value fits 32 bits, and its type, if it names one, is
      known. */
  lemma CreatedProgressIsReadable(p: Progress, obj: Object, createdAt: string)
    requires ProgressHolds(p, obj, createdAt)
    ensures ReadableProgress(p) <==>
      && IsTime(obj, LoggedAt) && ParseInstant(createdAt).Some? && IsSmall(obj, Value)
      && (IsText(obj, ProgressType) ==>
          LowerCase(obj[ProgressType].text) in ["page", "percent", "chapter", "duration"])
  {
    TypeIsKnown(p.progressType, obj);
    hide ParseInstant, LowerCase, ParseProgressType, NormalTagType, ParseFormat;
  }

  lemma TypeIsKnown(progressType: string, obj: Object)
    requires TextOr(progressType, obj, ProgressType, "page")
    ensures ParseProgressType(progressType).Some? <==>
      (IsText(obj, ProgressType) ==>
        LowerCase(obj[ProgressType].text) in ["page", "percent", "chapter", "duration"])
  {
    KindsAreNamed(progressType);
    LowerStays("page");
    hide LowerCase, ParseProgressType, NormalTagType, ParseFormat;
  }

  /** The entries of a list that belong to an entity type. */
  ghost function At(es: seq<Entry>, entity: EntityType): set<nat>
  {
    set i: nat | i < |es| && EntityOf(es[i]) == entity
  }

  /** A tally counts the entries of each type. */
  lemma {:induction false} TallyCounts(es: seq<Entry>)
    ensures CountsOf(es) ==
      BackfillCounts(|At(es, BookEntity)|, |At(es, SessionEntity)|, |At(es, ProgressEntity)|, |At(es, TagEntity)|)
  {
    if es == [] {
      assert At(es, BookEntity) == {} && At(es, SessionEntity) == {} && At(es, ProgressEntity) == {};
      assert At(es, TagEntity) == {};
    } else {
      TallyCounts(es[..|es| - 1]);
      LastEntry(es, BookEntity);
      LastEntry(es, SessionEntity);
      LastEntry(es, ProgressEntity);
      LastEntry(es, TagEntity);
      hide At;
    }
  }

  lemma LastEntry(es: seq<Entry>, entity: EntityType)
    requires es != []
    ensures var init, n := es[..|es| - 1], |es| - 1;
      |At(es, entity)| == |At(init, entity)| + if EntityOf(es[n]) == entity then 1 else 0
  {
    var init, n := es[..|es| - 1], |es| - 1;
    forall i: nat ensures i in At(es, entity) <==> i in At(init, entity) || (i == n && EntityOf(es[n]) == entity) {
      assert i < n ==> es[i] == init[i];
    }
    assert n !in At(init, entity);
    hide EntityOf, At;
    if EntityOf(es[n]) == entity {
      assert At(es, entity) == At(init, entity) + {n};
    } else {
      assert At(es, entity) == At(init, entity);
    }
  }
}
