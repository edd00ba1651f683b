/**
 * What a new session's seeded daily logs show on the dashboard and the
 * progress page: the days 6, 3 and 0 days before today are the complete ones,
 * so the streak is 1, and the 7-day adherence is 580/7 percent (about 82.9),
 * which earns the best message.
 */
module SeededLogs {
  import opened Wrappers
  import opened Tables
  import opened DailyLogs
  import opened Streak
  import opened Adherence

  /** The seven seeded rows ending `today`, as the session starts with them. */
  ghost predicate IsSeed(logs: seq<DailyLog>, today: Day)
  {
    |logs| == 7 && forall j :: 0 <= j < 7 ==> logs[j] == Row(today - 6 + j, SeedEntry(5 - (6 - j) % 3))
  }

  /** The seeded table has one row per date, ascending. */
  lemma SeedKeyed(logs: seq<DailyLog>, today: Day)
    requires IsSeed(logs, today)
    ensures StrictlyByDate(logs)
  {
  }

  /** The complete seeded days are today, three days ago and six days ago. */
  lemma SeedCompleteDates(logs: seq<DailyLog>, today: Day)
    requires IsSeed(logs, today)
    ensures CompleteDates(logs) == {today - 6, today - 3, today}
  {
    var c := CompleteDates(logs);
    forall j | 0 <= j < 7 ensures Complete(logs[j].value) <==> (6 - j) % 3 == 0 {
      assert SlotCount(logs[j].value) == 5 - (6 - j) % 3;
    }
    assert logs[0] in logs && logs[3] in logs && logs[6] in logs;
    forall d | d in c ensures d == today - 6 || d == today - 3 || d == today {
      var r :| r in logs && Complete(r.value) && r.date == d;
      var j :| 0 <= j < 7 && logs[j] == r;
    }
  }

  /** The seeded logs give a streak of 1: today is complete and yesterday is not. */
  lemma SeedStreak(logs: seq<DailyLog>, today: Day)
    requires IsSeed(logs, today)
    ensures CompleteDates(logs) != {}
    ensures MaxDate(CompleteDates(logs)) == today
    ensures RunsBack(CompleteDates(logs), today, 1)
  {
    SeedCompleteDates(logs, today);
  }

  /** The seeded per-row ratios, oldest first. */
  lemma SeedRatios(logs: seq<DailyLog>, today: Day)
    requires IsSeed(logs, today)
    ensures Ratios(logs) == [1.0, 0.6, 0.8, 1.0, 0.6, 0.8, 1.0]
  {
    forall j | 0 <= j < 7 ensures Ratios(logs)[j] == [1.0, 0.6, 0.8, 1.0, 0.6, 0.8, 1.0][j] {
      assert SlotCount(logs[j].value) == 5 - (6 - j) % 3;
    }
  }

  /** Every seeded row lies in the 7-day window ending today. */
  lemma {:induction false} AllSince(logs: seq<DailyLog>, lo: Day)
    requires forall r :: r in logs ==> lo <= r.date
    ensures Since(logs, lo) == logs
  {
    if logs != [] {
      assert logs[0] in logs;
      AllSince(logs[1..], lo);
      assert logs == [logs[0]] + logs[1..];
    }
  }

  /** The seeded ratios average to 58/70, that is 580/7 percent. */
  lemma SeedPercent()
    ensures Percent([1.0, 0.6, 0.8, 1.0, 0.6, 0.8, 1.0]) == Some(580.0 / 7.0)
  {
    var xs := [1.0, 0.6, 0.8, 1.0, 0.6, 0.8, 1.0];
    assert xs[..1][..0] == [] && Sum(xs[..1]) == 1.0;
    assert xs[..2][..1] == xs[..1] && Sum(xs[..2]) == 1.6;
    assert xs[..3][..2] == xs[..2] && Sum(xs[..3]) == 2.4;
    assert xs[..4][..3] == xs[..3] && Sum(xs[..4]) == 3.4;
    assert xs[..5][..4] == xs[..4] && Sum(xs[..5]) == 4.0;
    assert xs[..6][..5] == xs[..5] && Sum(xs[..6]) == 4.8;
    assert xs[..6] == xs[..|xs| - 1] && Sum(xs) == 5.8;
  }

  /** The ratios of the seeded rows in the window ending today. */
  lemma SeedWindowRatios(logs: seq<DailyLog>, today: Day)
    requires IsSeed(logs, today)
    ensures Ratios(Since(logs, WindowStart(today))) == [1.0, 0.6, 0.8, 1.0, 0.6, 0.8, 1.0]
  {
    assert forall r :: r in logs ==> WindowStart(today) <= r.date;
    AllSince(logs, WindowStart(today));
    SeedRatios(logs, today);
  }

  /** The seeded adherence is 580/7 percent, which earns the best message. */
  lemma SeedAdherence(logs: seq<DailyLog>, today: Day)
    requires IsSeed(logs, today)
    ensures AdherencePct(logs, today) == Some(580.0 / 7.0)
    ensures MessageFor(580.0 / 7.0) == Excelente
  {
    SeedKeyed(logs, today);
    AdherenceOfKeyed(logs, today);
    SeedWindowRatios(logs, today);
    SeedPercent();
  }
}
