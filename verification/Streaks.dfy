/** Reading streaks over days, numbered consecutively. */
module Streaks {

  datatype ReadingStreaks = ReadingStreaks(current: nat, longest: nat, total: nat)

  predicate Increasing(days: seq<int>)
  {
    forall i, j :: 0 <= i < j < |days| ==> days[i] < days[j]
  }

  /** `sort` and `dedup`: inserts a day in its place unless it is there. */
  function Insert(days: seq<int>, day: int): seq<int>
  {
    if days == [] || days[|days| - 1] < day then days + [day]
    else if days[|days| - 1] == day then days
    else Insert(days[..|days| - 1], day) + [days[|days| - 1]]
  }

  function SortedDays(days: seq<int>): seq<int>
  {
    if days == [] then [] else Insert(SortedDays(days[..|days| - 1]), days[|days| - 1])
  }

  lemma {:induction false} InsertSorts(days: seq<int>, day: int)
    requires Increasing(days)
    ensures Increasing(Insert(days, day))
    ensures forall d :: d in Insert(days, day) <==> d in days || d == day
  {
    if days != [] && day < days[|days| - 1] {
      var init, last := days[..|days| - 1], days[|days| - 1];
      InsertSorts(init, day);
      assert days == init + [last];
      var r := Insert(init, day);
      forall i | 0 <= i < |r| ensures r[i] < last {
        assert r[i] in r;
        assert r[i] in init || r[i] == day;
      }
    }
  }

  /** The sorted list holds the same days, each once. */
  lemma {:induction false} SortedIsSorted(days: seq<int>)
    ensures Increasing(SortedDays(days))
    ensures forall d :: d in SortedDays(days) <==> d in days
  {
    if days != [] {
      SortedIsSorted(days[..|days| - 1]);
      InsertSorts(SortedDays(days[..|days| - 1]), days[|days| - 1]);
      assert days == days[..|days| - 1] + [days[|days| - 1]];
    }
  }

  lemma {:induction false} CountDays(days: seq<int>)
    requires Increasing(days)
    ensures |set d | d in days| == |days|
  {
    if days != [] {
      var init, last := days[..|days| - 1], days[|days| - 1];
      CountDays(init);
      assert days == init + [last];
      assert (set d | d in days) == (set d | d in init) + {last};
      assert last !in init;
    } else {
      assert (set d | d in days) == {};
    }
  }

  // ---------------------------------------------------------------------------
  // Meaning
  // ---------------------------------------------------------------------------

  /** `n` consecutive days ending with `last` are active. */
  ghost predicate IsRun(days: seq<int>, last: int, n: nat)
  {
    forall d :: last - n < d <= last ==> d in days
  }

  /** The run that ends with `last` cannot be extended backward. */
  ghost predicate IsMaximalRun(days: seq<int>, last: int, n: nat)
  {
    IsRun(days, last, n) && last - n !in days
  }

  ghost predicate IsLongest(days: seq<int>, n: nat)
  {
    && (exists last :: IsRun(days, last, n))
    && (forall last, m: nat :: IsRun(days, last, m) ==> m <= n)
  }

  /** What the three numbers mean: `total` counts the active days, `longest` is the greatest number of
      consecutive active days, `current` is the length of the run ending with the last active day when
      that day is no earlier than yesterday. */
  ghost predicate Describes(r: ReadingStreaks, days: seq<int>, today: int)
  {
    && r.total == |set d | d in days|
    && IsLongest(days, r.longest)
    && (days == [] ==> r.current == 0)
    && (forall last :: last in days && (forall d :: d in days ==> d <= last) ==>
        if today - last <= 1 then IsMaximalRun(days, last, r.current) else r.current == 0)
  }

  /** A run among the days up to a new greatest day either ends with it or was there before. */
  lemma RunsOfMore(days: seq<int>, day: int, n: nat, last: int, m: nat)
    requires forall d :: d in days ==> d < day
    requires IsMaximalRun(days + [day], day, n) && IsRun(days + [day], last, m)
    ensures m <= n || IsRun(days, last, m)
  {
    if m > n && last != day {
      assert last in days + [day];
      forall d | last - m < d <= last ensures d in days {
        assert d in days + [day];
      }
    }
  }

  /** The longest run after one more day. */
  lemma LongestOfMore(days: seq<int>, day: int, longest: nat, n: nat)
    requires (forall d :: d in days ==> d < day) && IsLongest(days, longest) && IsMaximalRun(days + [day], day, n)
    ensures IsLongest(days + [day], if n > longest then n else longest)
  {
    forall last, m: nat | IsRun(days + [day], last, m) ensures m <= if n > longest then n else longest {
      RunsOfMore(days, day, n, last, m);
    }
    if n <= longest {
      var last :| IsRun(days, last, longest);
      assert IsRun(days + [day], last, longest);
    }
  }

  /** The run ending with a new greatest day extends the previous run exactly when it is the next day. */
  lemma RunOfMore(days: seq<int>, day: int, n: nat)
    requires days != [] && Increasing(days) && days[|days| - 1] < day && IsMaximalRun(days, days[|days| - 1], n)
    requires n >= 1
    ensures IsMaximalRun(days + [day], day, if day - days[|days| - 1] == 1 then n + 1 else 1)
  {
    var last := days[|days| - 1];
    assert forall d :: d in days ==> d <= last;
    assert last in days;
    assert day !in days;
    if day - last == 1 {
      assert day - (n + 1) == last - n;
      forall d | day - (n + 1) < d <= day ensures d in days + [day] {
        if d != day {
          assert last - n < d <= last;
        }
      }
    } else {
      assert day - 1 !in days;
    }
  }

  /** `compute_streaks`. */
  method ComputeStreaks(activity: seq<int>, today: int) returns (r: ReadingStreaks)
    ensures Describes(r, activity, today)
  {
    if activity == [] {
      r := ReadingStreaks(0, 0, 0);
      NoRuns();
      return;
    }
    var dates := SortedDays(activity);
    SortedIsSorted(activity);
    CountDays(dates);
    assert activity[0] in activity && dates != [];
    var longest, current := 1, 1;
    OneDay(dates[0]);
    assert dates[..1] == [dates[0]];
    for i := 1 to |dates|
      invariant current >= 1
      invariant IsMaximalRun(dates[..i], dates[i - 1], current)
      invariant IsLongest(dates[..i], longest)
    {
      assert dates[..i + 1] == dates[..i] + [dates[i]];
      RunOfMore(dates[..i], dates[i], current);
      if dates[i] - dates[i - 1] == 1 {
        current := current + 1;
      } else {
        current := 1;
      }
      LongestOfMore(dates[..i], dates[i], longest, current);
      longest := if current > longest then current else longest;
    }
    assert dates[..|dates|] == dates;
    var lastDate := dates[|dates| - 1];
    r := ReadingStreaks(if today - lastDate <= 1 then current else 0, longest, |dates|);
    SameDays(dates, activity, r, today);
  }

  lemma NoRuns()
    ensures IsLongest([], 0) && |set d: int | d in []| == 0
  {
    assert (set d: int | d in []) == {};
    assert IsRun([], 0, 0);
    forall last, m: nat ensures IsRun([], last, m) ==> m <= 0 {
      NoDay(last, m);
    }
  }

  lemma NoDay(last: int, m: nat)
    ensures IsRun([], last, m) ==> m <= 0
  {
    assert last !in [];
    assert m > 0 ==> last - m < last <= last;
  }

  lemma TwoDays(day: int, last: int, m: nat)
    ensures IsRun([day], last, m) ==> m <= 1
  {
    var d := if last == day then day - 1 else last;
    assert d !in [day];
    assert m > 1 ==> last - m < d <= last;
  }

  lemma OneDay(day: int)
    ensures IsMaximalRun([day], day, 1) && IsLongest([day], 1)
  {
    assert IsRun([day], day, 1);
    forall last, m: nat ensures IsRun([day], last, m) ==> m <= 1 {
      TwoDays(day, last, m);
    }
  }

  /** The meaning depends only on the set of days. */
  lemma SameDays(dates: seq<int>, activity: seq<int>, r: ReadingStreaks, today: int)
    requires dates != [] && Increasing(dates) && (forall d :: d in dates <==> d in activity)
    requires r.total == |dates| == |set d | d in dates| && IsLongest(dates, r.longest)
    requires if today - dates[|dates| - 1] <= 1 then IsMaximalRun(dates, dates[|dates| - 1], r.current)
      else r.current == 0
    ensures Describes(r, activity, today)
  {
    assert (set d | d in dates) == (set d | d in activity);
    forall last, m: nat ensures IsRun(dates, last, m) <==> IsRun(activity, last, m) {
    }
    SameLongest(dates, activity, r.longest);
    LastIsGreatest(dates);
    SameGreatest(dates, activity, r, today);
  }

  lemma LastIsGreatest(dates: seq<int>)
    requires dates != [] && Increasing(dates)
    ensures dates[|dates| - 1] in dates && forall d :: d in dates ==> d <= dates[|dates| - 1]
  {
  }

  lemma SameGreatest(dates: seq<int>, activity: seq<int>, r: ReadingStreaks, today: int)
    requires dates != [] && (forall d :: d in dates <==> d in activity)
    requires dates[|dates| - 1] in dates && forall d :: d in dates ==> d <= dates[|dates| - 1]
    requires if today - dates[|dates| - 1] <= 1 then IsMaximalRun(dates, dates[|dates| - 1], r.current)
      else r.current == 0
    ensures forall last :: last in activity && (forall d :: d in activity ==> d <= last) ==>
      if today - last <= 1 then IsMaximalRun(activity, last, r.current) else r.current == 0
  {
    forall last | last in activity && (forall d :: d in activity ==> d <= last) ensures last == dates[|dates| - 1] {
    }
  }

  lemma SameLongest(dates: seq<int>, activity: seq<int>, n: nat)
    requires IsLongest(dates, n)
    requires forall last, m: nat :: IsRun(dates, last, m) <==> IsRun(activity, last, m)
    ensures IsLongest(activity, n)
  {
    hide IsRun;
    var last :| IsRun(dates, last, n);
    assert IsRun(activity, last, n);
  }
}
