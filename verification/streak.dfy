/**
 * The dashboard's streak: how many consecutive calendar days, counting back
 * from the most recent complete day, were complete. A day is complete when all
 * five meal slots were met. The count is not anchored to today: a run that
 * ended days ago still counts.
 */
module Streak {
  import opened Tables
  import opened DailyLogs

  /** The dates on which some row is complete; several rows on one date count once. */
  ghost function CompleteDates(logs: seq<DailyLog>): set<Day>
  {
    set r | r in logs && Complete(r.value) :: r.date
  }

  /** A non-empty set of dates has an element. */
  lemma NonEmptyHasElement(c: set<Day>)
    requires c != {}
    ensures exists x :: x in c
  {
    if forall x :: x !in c {
      assert false;
    }
  }

  /** The latest date of a non-empty set of dates. */
  ghost function MaxDate(c: set<Day>): (m: Day)
    requires c != {}
    ensures m in c && forall x :: x in c ==> x <= m
  {
    NonEmptyHasElement(c);
    var x :| x in c;
    var others := c - {x};
    assert forall y :: y in c ==> y == x || y in others;
    if others == {} then x
    else
      var latest := MaxDate(others);
      if x < latest then latest else x
  }

  /** The `k` days ending on `m` are all in `c`, and the day before them is not. */
  ghost predicate RunsBack(c: set<Day>, m: Day, k: nat)
  {
    (forall d :: m - k < d <= m ==> d in c) && m - k !in c
  }

  /** The complete rows of a table, in their original order. */
  function CompleteRows(s: seq<DailyLog>): (r: seq<DailyLog>)
    ensures forall x :: x in r <==> x in s && Complete(x.value)
  {
    if s == [] then []
    else
      assert s == [s[0]] + s[1..];
      if Complete(s[0].value) then [s[0]] + CompleteRows(s[1..]) else CompleteRows(s[1..])
  }

  /** Sorting the table before keeping its complete rows leaves the same complete dates. */
  lemma CompleteRowsOfSorted(df: seq<DailyLog>)
    ensures Dates(CompleteRows(SortByDate(df))) == CompleteDates(df)
  {
    var sorted := SortByDate(df);
    forall r | r in sorted ensures r in df { assert r in multiset(sorted); }
    forall r | r in df ensures r in sorted { assert r in multiset(df); }
  }

  /** Strictly descending dates. */
  ghost predicate Decreasing(ds: seq<Day>)
  {
    forall i, j :: 0 <= i < j < |ds| ==> ds[j] < ds[i]
  }

  /** The distinct dates of a table, latest first (`sorted(unique(), reverse=True)`). */
  function DatesLatestFirst(rows: seq<DailyLog>): (fechas: seq<Day>)
    ensures Decreasing(fechas)
    ensures forall x :: x in fechas <==> x in Dates(rows)
  {
    var ascending := DistinctDates(rows);
    var n := |ascending|;
    var fechas := seq(n, k requires 0 <= k < n => ascending[n - 1 - k]);
    assert forall x :: x in ascending ==> x in fechas by {
      forall x | x in ascending ensures x in fechas {
        var k :| 0 <= k < n && ascending[k] == x;
        assert fechas[n - 1 - k] == x;
      }
    }
    fechas
  }

  /**
   * When the walk over the latest-first dates `fechas` of `c` stops after `i`
   * steps, each step having met the expected day, the first date is the
   * latest of `c` and `i` is the length of the run back from it.
   */
  lemma WalkStopsAtRunEnd(fechas: seq<Day>, c: set<Day>, i: nat)
    requires Decreasing(fechas) && forall x :: x in fechas <==> x in c
    requires 0 < i <= |fechas|
    requires forall j :: 0 <= j < i ==> fechas[j] == fechas[0] - j
    requires i == |fechas| || fechas[i] != fechas[0] - i
    ensures c != {} && MaxDate(c) == fechas[0]
    ensures RunsBack(c, fechas[0], i)
  {
    var m := fechas[0];
    assert m in fechas;
    forall x | x in c ensures x <= m {
      var k :| 0 <= k < |fechas| && fechas[k] == x;
    }
    forall d | m - i < d <= m ensures d in c {
      assert fechas[m - d] == d;
    }
    forall k | 0 <= k < |fechas| ensures fechas[k] != m - i {
      if k > i {
        assert fechas[k] < fechas[i] < fechas[i - 1];
      }
    }
  }

  /**
   * The streak of a daily-log table: 0 when no day is complete; otherwise,
   * with `m` the latest complete date, the number `k` of days from `m` back
   * to the first day that is not complete, so that `m - k + 1 .. m` are all
   * complete and `m - k` is not.
   */
  method CalculateStreak(df: seq<DailyLog>) returns (streak: nat)
    ensures CompleteDates(df) == {} ==> streak == 0
    ensures CompleteDates(df) != {} ==>
      streak >= 1 && RunsBack(CompleteDates(df), MaxDate(CompleteDates(df)), streak)
  {
    if |df| == 0 {
      return 0;
    }
    var dfSorted := SortByDate(df);
    var cumplidos := CompleteRows(dfSorted);
    CompleteRowsOfSorted(df);
    if |cumplidos| == 0 {
      return 0;
    }
    assert cumplidos[0] in cumplidos;
    var fechas := DatesLatestFirst(cumplidos);
    streak := 0;
    var esperada := fechas[0];
    var i := 0;
    while i < |fechas| && fechas[i] == esperada
      invariant 0 <= i <= |fechas|
      invariant streak == i
      invariant esperada == fechas[0] - i
      invariant forall j :: 0 <= j < i ==> fechas[j] == fechas[0] - j
    {
      streak := streak + 1;
      esperada := esperada - 1;
      i := i + 1;
    }
    WalkStopsAtRunEnd(fechas, CompleteDates(df), i);
  }

  /** The two conditions of `RunsBack` determine the length of the run. */
  lemma RunsBackUnique(c: set<Day>, m: Day, k1: nat, k2: nat)
    requires RunsBack(c, m, k1) && RunsBack(c, m, k2)
    ensures k1 == k2
  {
  }

  /** A row with a missed meal slot adds no complete day. */
  lemma IncompleteRowIgnored(logs: seq<DailyLog>, r: DailyLog)
    requires !Complete(r.value)
    ensures CompleteDates(logs + [r]) == CompleteDates(logs)
  {
    assert forall x :: x in logs + [r] <==> x in logs || x == r;
  }

  /** A second row equal to one already in the table adds no complete day. */
  lemma DuplicateRowIgnored(logs: seq<DailyLog>, r: DailyLog)
    requires r in logs
    ensures CompleteDates(logs + [r]) == CompleteDates(logs)
  {
    assert forall x :: x in logs + [r] <==> x in logs;
  }

  /**
   * Days 5, 4 and 3 complete and day 2 with one slot missed: the latest
   * complete day is 5 and the run back from it is 3 days long.
   */
  lemma ThreeDayExample()
    ensures var full := Entry(true, true, true, true, true, Bien, "");
            var partial := Entry(true, true, false, true, true, Bien, "");
            var logs := [Row(2, partial), Row(3, full), Row(4, full), Row(5, full)];
            CompleteDates(logs) == {3, 4, 5} && MaxDate({3, 4, 5}) == 5 && RunsBack({3, 4, 5}, 5, 3)
  {
    var full := Entry(true, true, true, true, true, Bien, "");
    var partial := Entry(true, true, false, true, true, Bien, "");
    var logs := [Row(2, partial), Row(3, full), Row(4, full), Row(5, full)];
    assert logs[1] in logs && logs[2] in logs && logs[3] in logs;
  }
}
