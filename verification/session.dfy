/**
 * The per-user session state of the app: the login flag, the weight profile,
 * the next appointment, the weight history and the daily-log table. A new
 * session starts from fixed defaults and seeded tables; the daily-log form
 * replaces the row of the submitted date; the weight history keeps a row for
 * today that follows the current weight.
 */
module Session {
  import opened Wrappers
  import opened Tables
  import opened DailyLogs

  /** The example weights (kg) and height (m) a new session starts with. */
  const DefaultInitialWeight: real := 80.0
  const DefaultCurrentWeight: real := 74.0
  const DefaultGoalWeight: real := 68.0
  const DefaultHeight: real := 1.65

  /** Days from today to the first suggested appointment. */
  const AppointmentLeadDays: int := 7

  /**
   * The seeded weight history: one row for each of the ten days ending
   * `today`, oldest first, going in equal steps from `start` to `end`.
   */
  function SeedWeights(today: Day, start: real, end: real): (w: seq<Row<real>>)
    ensures |w| == 10
    ensures StrictlyByDate(w)
    ensures forall i :: 0 <= i < 10 ==> w[i].date == today - 9 + i
    ensures w[0].value == start && w[9].value == end
    ensures forall i :: 0 < i < 10 ==> w[i].value - w[i - 1].value == (end - start) / 9.0
  {
    var step := (end - start) / 9.0;
    seq(10, i requires 0 <= i < 10 => Row(today - 9 + i, start + step * i as real))
  }

  /** The rows of `t` dated `d` are exactly `[rec]` when `t` holds `rec` and the rows of `s` not dated `d`. */
  lemma {:induction false} DayHoldsOnlySaved(t: seq<DailyLog>, s: seq<DailyLog>, rec: DailyLog)
    requires multiset(t) == multiset(WithoutDate(s, rec.date)) + multiset{rec}
    ensures OnDate(t, rec.date) == [rec]
  {
    var day := OnDate(t, rec.date);
    assert multiset(day) == multiset{rec} by {
      forall x ensures multiset(day)[x] == multiset{rec}[x] {
      }
    }
    assert |day| == 1 by {
      assert |multiset(day)| == 1;
    }
    assert day[0] in multiset(day);
  }

  /** After saving `rec`, the "Hoy" view on its date shows that record alone. */
  lemma SavedDayView(t: seq<DailyLog>, s: seq<DailyLog>, rec: DailyLog)
    requires multiset(t) == multiset(WithoutDate(s, rec.date)) + multiset{rec}
    ensures ViewRows(t, Hoy, rec.date) == [rec]
  {
    DayHoldsOnlySaved(t, s, rec);
  }

  /**
   * A table `t` holding `rec` and the rows of `s` not dated `rec.date`: its
   * only row of that date is `rec`, held once, and every row of another date
   * is held as often as in `s`.
   */
  lemma ReplacedDay(t: seq<DailyLog>, s: seq<DailyLog>, rec: DailyLog)
    requires multiset(t) == multiset(WithoutDate(s, rec.date)) + multiset{rec}
    ensures forall r :: r in t && r.date == rec.date ==> r == rec
    ensures multiset(t)[rec] == 1
    ensures forall r: DailyLog :: r.date != rec.date ==> multiset(t)[r] == multiset(s)[r]
  {
    forall r | r in t && r.date == rec.date ensures r == rec {
      assert r in multiset(t);
    }
  }

  /** Saving a record into a daily-log table keyed by date leaves it keyed by date. */
  lemma SaveKeepsKeyed(s: seq<DailyLog>, rec: DailyLog)
    requires StrictlyByDate(s)
    ensures StrictlyByDate(SortByDate(WithoutDate(s, rec.date) + [rec]))
  {
    var kept := WithoutDate(s, rec.date);
    WithoutDateKeyed(s, rec.date);
    SortAppend(kept, rec);
    SortSortedIsIdentity(kept);
    assert rec.date !in Dates(kept) by {
      forall r | r in kept ensures r.date != rec.date {
        assert r in multiset(kept);
      }
    }
    InsertKeyed(rec, kept);
  }

  /**
   * `b` is `a` with the weight of every row dated `d` set to `v`, each row
   * staying where it was.
   */
  ghost predicate OverwrittenOn(a: seq<Row<real>>, b: seq<Row<real>>, d: Day, v: real)
  {
    |b| == |a| && forall i :: 0 <= i < |a| ==> b[i] == if a[i].date == d then Row(d, v) else a[i]
  }

  /**
   * Overwriting the weight of date `d` in a table that has `d`: the table
   * then holds `(d, v)`, every row of `d` has weight `v`, rows of other dates
   * are the same, and a table keyed by date stays keyed.
   */
  lemma OverwriteFacts(a: seq<Row<real>>, b: seq<Row<real>>, d: Day, v: real)
    requires OverwrittenOn(a, b, d, v) && d in Dates(a)
    ensures Row(d, v) in b
    ensures forall r :: r in b && r.date == d ==> r.value == v
    ensures forall r: Row<real> :: r.date != d ==> (r in b <==> r in a)
    ensures SortedByDate(a) ==> SortedByDate(b)
    ensures StrictlyByDate(a) ==> StrictlyByDate(b)
  {
    var k :| 0 <= k < |a| && a[k].date == d;
    assert b[k] == Row(d, v);
    forall r: Row<real> | r.date != d && r in a ensures r in b {
      var j :| 0 <= j < |a| && a[j] == r;
      assert b[j] == r;
    }
    assert forall j :: 0 <= j < |a| ==> b[j].date == a[j].date;
  }

  /** A table holding the rows of `s` and one more row `x` holds exactly those rows. */
  lemma AddedRowFacts(t: seq<Row<real>>, s: seq<Row<real>>, x: Row<real>)
    requires multiset(t) == multiset(s) + multiset{x}
    ensures x in t
    ensures forall r :: r in t <==> r == x || r in s
  {
    assert x in multiset(t);
    forall r | r in t ensures r == x || r in s {
      assert r in multiset(t);
    }
    forall r | r in s ensures r in t {
      assert r in multiset(s);
      assert r in multiset(t);
    }
  }

  /** Adding a row of a new date to a weight table keyed by date and sorting keeps it keyed. */
  lemma AddKeepsKeyed(s: seq<Row<real>>, x: Row<real>)
    requires StrictlyByDate(s) && x.date !in Dates(s)
    ensures StrictlyByDate(SortByDate(s + [x]))
  {
    SortAppend(s, x);
    SortSortedIsIdentity(s);
    InsertKeyed(x, s);
  }

  /** The app's session state (`st.session_state`). */
  class Session {
    var loggedIn: bool
    var username: Option<string>
    var initialWeight: real
    var currentWeight: real
    var goalWeight: real
    var heightM: real
    var nextAppointmentDate: Day
    /** The appointment's time of day, in minutes since midnight. */
    var nextAppointmentTime: int
    /** The weight history: (date, weight) rows. */
    var weights: seq<Row<real>>
    /** The daily-log table. */
    var dailyLogs: seq<DailyLog>

    /** Both tables hold at most one row per date, ascending by date. */
    ghost predicate Valid()
      reads this
    {
      StrictlyByDate(weights) && StrictlyByDate(dailyLogs)
    }

    /**
     * A first visit: logged out, the example profile, an appointment a week
     * from today at the current time of day, ten days of weights from the
     * initial to the current weight and seven seeded days of logs.
     */
    constructor (today: Day, nowMinute: int)
      ensures !loggedIn && username == None
      ensures initialWeight == DefaultInitialWeight && currentWeight == DefaultCurrentWeight
      ensures goalWeight == DefaultGoalWeight && heightM == DefaultHeight
      ensures nextAppointmentDate == today + AppointmentLeadDays && nextAppointmentTime == nowMinute
      ensures weights == SeedWeights(today, DefaultInitialWeight, DefaultCurrentWeight)
      ensures |dailyLogs| == 7
      ensures forall j :: 0 <= j < 7 ==> dailyLogs[j] == Row(today - 6 + j, SeedEntry(5 - (6 - j) % 3))
      ensures Valid()
    {
      loggedIn := false;
      username := None;
      initialWeight := DefaultInitialWeight;
      currentWeight := DefaultCurrentWeight;
      goalWeight := DefaultGoalWeight;
      heightM := DefaultHeight;
      nextAppointmentDate := today + AppointmentLeadDays;
      nextAppointmentTime := nowMinute;
      weights := SeedWeights(today, DefaultInitialWeight, DefaultCurrentWeight);
      var registros := SeedDailyLogs(today);
      dailyLogs := registros;
    }

    /**
     * Makes the weight history agree with the current weight for `today`:
     * when rows dated today exist their weight is overwritten where they
     * stand; otherwise a row for today is added and the table is sorted by
     * date. Rows of other dates are kept.
     */
    method SyncWeightWithToday(today: Day)
      modifies this`weights
      ensures today in Dates(old(weights)) ==> OverwrittenOn(old(weights), weights, today, currentWeight)
      ensures today !in Dates(old(weights)) ==>
        SortedByDate(weights) && multiset(weights) == multiset(old(weights)) + multiset{Row(today, currentWeight)}
      ensures Row(today, currentWeight) in weights
      ensures forall r :: r in weights && r.date == today ==> r.value == currentWeight
      ensures forall r: Row<real> :: r.date != today ==> (r in weights <==> r in old(weights))
      ensures SortedByDate(old(weights)) ==> SortedByDate(weights)
      ensures old(Valid()) ==> Valid()
    {
      var cw := currentWeight;
      var row := Row(today, cw);
      if HasDate(weights, today) {
        var i := 0;
        while i < |weights|
          invariant 0 <= i <= |weights| == |old(weights)|
          invariant forall j :: 0 <= j < i ==>
            weights[j] == if old(weights)[j].date == today then row else old(weights)[j]
          invariant forall j :: i <= j < |weights| ==> weights[j] == old(weights)[j]
        {
          if weights[i].date == today {
            weights := weights[i := row];
          }
          i := i + 1;
        }
        OverwriteFacts(old(weights), weights, today, cw);
      } else {
        var before := weights;
        weights := SortByDate(before + [row]);
        AddedRowFacts(weights, before, row);
        if StrictlyByDate(before) {
          AddKeepsKeyed(before, row);
        }
      }
    }

    /**
     * Saves the daily form for `nuevo.date`: every row of that date is
     * dropped, `nuevo` is added and the table is sorted by date. Afterwards
     * `nuevo` is the only row of its date and every other row is kept, as
     * often as it was there.
     */
    method SaveDailyLog(nuevo: DailyLog)
      modifies this`dailyLogs
      ensures SortedByDate(dailyLogs)
      ensures multiset(dailyLogs) == multiset(WithoutDate(old(dailyLogs), nuevo.date)) + multiset{nuevo}
      ensures forall r :: r in dailyLogs && r.date == nuevo.date ==> r == nuevo
      ensures multiset(dailyLogs)[nuevo] == 1
      ensures forall r: DailyLog :: r.date != nuevo.date ==> multiset(dailyLogs)[r] == multiset(old(dailyLogs))[r]
      ensures old(Valid()) ==> Valid()
    {
      var fecha := nuevo.date;
      var daily := WithoutDate(dailyLogs, fecha);
      ghost var kept := daily;
      daily := daily + [nuevo];
      daily := SortByDate(daily);
      ReplacedDay(daily, dailyLogs, nuevo);
      if StrictlyByDate(dailyLogs) {
        SaveKeepsKeyed(dailyLogs, nuevo);
      }
      dailyLogs := daily;
    }
  }
}
