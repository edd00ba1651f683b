/**
 * The progress page's adherence figures. Each daily-log row scores the share
 * of its five meal slots that were met; the rows are grouped by date and each
 * date gets the mean of its rows' scores; the dates from six days before
 * today on form the 7-day window; the window's mean, as a percentage, is the
 * reported adherence, and it selects one of four encouragement messages.
 * Ratios and means are exact reals.
 */
module Adherence {
  import opened Wrappers
  import opened Tables
  import opened DailyLogs

  /** The adherence of one row: the share of its five meal slots that were met. */
  function Ratio(e: Entry): (r: real)
    ensures 0.0 <= r <= 1.0
    ensures r == 1.0 <==> Complete(e)
    ensures r == 0.0 <==> true !in Slots(e)
  {
    SlotCount(e) as real / 5.0
  }

  /** Three of five slots met is a ratio of 0.6. */
  lemma ThreeOfFive(e: Entry)
    requires SlotCount(e) == 3
    ensures Ratio(e) == 0.6
  {
  }

  /** The sum of a list of reals. */
  function Sum(xs: seq<real>): real
  {
    if xs == [] then 0.0 else Sum(xs[..|xs| - 1]) + xs[|xs| - 1]
  }

  /** A sum of values in [0, 1] lies between 0 and the number of values. */
  lemma {:induction false} SumBounds(xs: seq<real>)
    requires forall i :: 0 <= i < |xs| ==> 0.0 <= xs[i] <= 1.0
    ensures 0.0 <= Sum(xs) <= |xs| as real
  {
    if xs != [] {
      SumBounds(xs[..|xs| - 1]);
    }
  }

  /** A share `t / n` of a positive whole `n`, with `0 <= t <= n`, lies in [0, 1]. */
  lemma UnitFraction(t: real, n: real)
    requires 0.0 < n && 0.0 <= t <= n
    ensures 0.0 <= t / n <= 1.0
  {
    var q := t / n;
    assert q * n == t;
    assert (1.0 - q) * n == n - t;
  }

  /** The arithmetic mean of a non-empty list of reals (`Series.mean()`). */
  function Mean(xs: seq<real>): (m: real)
    requires |xs| > 0
    ensures (forall i :: 0 <= i < |xs| ==> 0.0 <= xs[i] <= 1.0) ==> 0.0 <= m <= 1.0
  {
    var total := Sum(xs);
    var n := |xs| as real;
    if forall i :: 0 <= i < |xs| ==> 0.0 <= xs[i] <= 1.0 then
      SumBounds(xs);
      UnitFraction(total, n);
      total / n
    else
      total / n
  }

  /** The per-row ratios of a table, in row order. */
  function Ratios(rows: seq<DailyLog>): (rs: seq<real>)
    ensures |rs| == |rows|
    ensures forall i :: 0 <= i < |rows| ==> 0.0 <= rs[i] <= 1.0
  {
    seq(|rows|, i requires 0 <= i < |rows| => Ratio(rows[i].value))
  }

  /** The `value` column of a table of (date, ratio) rows. */
  function Values(s: seq<Row<real>>): (vs: seq<real>)
    ensures |vs| == |s| && forall i :: 0 <= i < |s| ==> vs[i] == s[i].value
  {
    seq(|s|, i requires 0 <= i < |s| => s[i].value)
  }

  /** A date of the table has at least one row. */
  lemma OnDateNonEmpty(rows: seq<DailyLog>, d: Day)
    requires d in Dates(rows)
    ensures |OnDate(rows, d)| > 0
  {
    var r :| r in rows && r.date == d;
    assert r in multiset(rows);
    assert r in multiset(OnDate(rows, d));
  }

  /** The mean ratio of the rows dated `d` (one group of `groupby("date").mean()`). */
  function DayMean(rows: seq<DailyLog>, d: Day): (m: real)
    requires d in Dates(rows)
    ensures 0.0 <= m <= 1.0
  {
    OnDateNonEmpty(rows, d);
    Mean(Ratios(OnDate(rows, d)))
  }

  /**
   * The grouped adherence table: one row per distinct date, ascending by
   * date, holding the mean ratio of that date's rows.
   */
  function Summary(rows: seq<DailyLog>): (s: seq<Row<real>>)
    ensures StrictlyByDate(s)
    ensures Dates(s) == Dates(rows)
    ensures forall i :: 0 <= i < |s| ==> s[i].date in Dates(rows) && s[i].value == DayMean(rows, s[i].date)
    ensures forall x :: x in s ==> 0.0 <= x.value <= 1.0
  {
    var ds := DistinctDates(rows);
    var s := seq(|ds|, i requires 0 <= i < |ds| => Row(ds[i], DayMean(rows, ds[i])));
    assert Dates(s) == Dates(rows) by {
      forall d | d in Dates(rows) ensures d in Dates(s) {
        var k :| 0 <= k < |ds| && ds[k] == d;
        assert s[k] in s;
      }
    }
    s
  }

  /** The first day of the 7-day window ending today. */
  function WindowStart(today: Day): Day
  {
    today - 6
  }

  /** The grouped rows of the 7-day window: every date from `today - 6` on, later dates included. */
  function Window(summary: seq<Row<real>>, today: Day): (w: seq<Row<real>>)
    ensures forall x :: x in w <==> x in summary && today - 6 <= x.date
    ensures StrictlyByDate(summary) ==> StrictlyByDate(w)
  {
    SinceKeyed(summary, WindowStart(today));
    SinceMembers(summary, WindowStart(today));
    Since(summary, WindowStart(today))
  }

  /** 100 times the mean of a list of ratios; absent for an empty list. */
  function Percent(xs: seq<real>): (pct: Option<real>)
    ensures pct.None? <==> xs == []
    ensures (forall i :: 0 <= i < |xs| ==> 0.0 <= xs[i] <= 1.0) && pct.Some? ==> 0.0 <= pct.value <= 100.0
  {
    if xs == [] then None else Some(Mean(xs) * 100.0)
  }

  /**
   * The "Últimos 7 días" view of the daily-log page reaches one day further
   * back than the progress window: it shows the window's rows and also the
   * rows dated `today - 7`.
   */
  lemma ViewCoversWindow(rows: seq<DailyLog>, today: Day)
    ensures forall x :: x in ViewRows(rows, UltimosSieteDias, today) <==>
      x in Since(rows, WindowStart(today)) || (x in rows && x.date == today - 7)
  {
    SinceMembers(rows, WindowStart(today));
  }

  /**
   * The reported adherence percentage: 100 times the mean of the grouped
   * ratios in the 7-day window; absent (the page shows a notice instead)
   * when no row is dated inside the window, an empty table included.
   */
  function AdherencePct(rows: seq<DailyLog>, today: Day): (pct: Option<real>)
    ensures pct.None? <==> forall x :: x in rows ==> x.date < WindowStart(today)
    ensures pct.Some? ==> 0.0 <= pct.value <= 100.0
  {
    if |rows| == 0 then None
    else
      var summary := Summary(rows);
      var w := Window(summary, today);
      assert (exists x :: x in rows && WindowStart(today) <= x.date) <==> |w| > 0 by {
        if x :| x in rows && WindowStart(today) <= x.date {
          assert x.date in Dates(summary);
          var y :| y in summary && y.date == x.date;
          assert y in w;
        }
        if |w| > 0 {
          assert w[0] in w && w[0].date in Dates(rows);
        }
      }
      var vs := Values(w);
      assert forall i :: 0 <= i < |vs| ==> 0.0 <= vs[i] <= 1.0 by {
        forall i | 0 <= i < |vs| ensures 0.0 <= vs[i] <= 1.0 {
          assert w[i] in summary;
        }
      }
      Percent(vs)
  }

  /** The four encouragement messages, best first. */
  datatype Message = Excelente | BuenCamino | Avanzando | NoTeDesanimes

  /** The message for an adherence percentage: bands at 80, 60 and 40. */
  function MessageFor(pct: real): (m: Message)
    ensures m == Excelente <==> 80.0 <= pct
    ensures m == BuenCamino <==> 60.0 <= pct < 80.0
    ensures m == Avanzando <==> 40.0 <= pct < 60.0
    ensures m == NoTeDesanimes <==> pct < 40.0
  {
    if pct >= 80.0 then Excelente
    else if pct >= 60.0 then BuenCamino
    else if pct >= 40.0 then Avanzando
    else NoTeDesanimes
  }

  /** The position of a message from best (0) to worst (3). */
  function Rank(m: Message): nat
  {
    match m
    case Excelente => 0
    case BuenCamino => 1
    case Avanzando => 2
    case NoTeDesanimes => 3
  }

  /** A higher percentage never gets a worse message. */
  lemma MessageMonotone(p: real, q: real)
    requires p <= q
    ensures Rank(MessageFor(q)) <= Rank(MessageFor(p))
  {
  }

  // Tables keyed by date: each date has one row, so grouping is the identity
  // and the reported figure is the plain mean of the windowed rows' ratios.

  /** The (date, ratio) table of a daily-log table, one row per row. */
  function PerRow(rows: seq<DailyLog>): (s: seq<Row<real>>)
    ensures |s| == |rows|
  {
    seq(|rows|, i requires 0 <= i < |rows| => Row(rows[i].date, Ratio(rows[i].value)))
  }

  /** Strictly ascending lists of dates with the same elements are equal. */
  lemma {:induction false} IncreasingUnique(a: seq<Day>, b: seq<Day>)
    requires Increasing(a) && Increasing(b)
    requires forall x :: x in a <==> x in b
    ensures a == b
  {
    assert a != [] ==> a[0] in a && a[0] in b;
    assert b != [] ==> b[0] in b && b[0] in a;
    if a != [] && b != [] {
      assert a[0] == b[0] by {
        var i :| 0 <= i < |b| && b[i] == a[0];
        var j :| 0 <= j < |a| && a[j] == b[0];
        assert b[0] <= b[i] && a[0] <= a[j];
      }
      forall x ensures x in a[1..] <==> x in b[1..] {
        if x in a[1..] {
          var i :| 1 <= i < |a| && a[i] == x;
          assert x != b[0] && x in b;
        }
        if x in b[1..] {
          var i :| 1 <= i < |b| && b[i] == x;
          assert x != a[0] && x in a;
        }
      }
      IncreasingUnique(a[1..], b[1..]);
      assert a == [a[0]] + a[1..] && b == [b[0]] + b[1..];
    }
  }

  /** No row dated `d`, no group for `d`. */
  lemma OnDateAbsent(rows: seq<DailyLog>, d: Day)
    requires forall x :: x in rows ==> x.date != d
    ensures OnDate(rows, d) == []
  {
    var r := OnDate(rows, d);
    if r != [] {
      assert false;
    }
  }

  /** In a table keyed by date, the group of a row's date is that row alone. */
  lemma {:induction false} KeyedGroup(rows: seq<DailyLog>, i: nat)
    requires StrictlyByDate(rows) && i < |rows|
    ensures OnDate(rows, rows[i].date) == [rows[i]]
  {
    var d := rows[i].date;
    if i == 0 {
      KeyedHead(rows);
      OnDateAbsent(rows[1..], d);
    } else {
      KeyedGroup(rows[1..], i - 1);
    }
  }

  /** The dates of a table keyed by date, in row order, are its distinct dates. */
  lemma KeyedDistinctDates(rows: seq<DailyLog>)
    requires StrictlyByDate(rows)
    ensures |DistinctDates(rows)| == |rows|
    ensures forall i :: 0 <= i < |rows| ==> DistinctDates(rows)[i] == rows[i].date
  {
    var ds := DistinctDates(rows);
    var own := seq(|rows|, i requires 0 <= i < |rows| => rows[i].date);
    forall x ensures x in own <==> x in ds {
      if x in own {
        var i :| 0 <= i < |rows| && own[i] == x;
        assert rows[i] in rows;
      }
      if x in ds {
        var r :| r in rows && r.date == x;
        var i :| 0 <= i < |rows| && rows[i] == r;
        assert own[i] == x;
      }
    }
    IncreasingUnique(own, ds);
  }

  /** The mean of one ratio is that ratio. */
  lemma MeanOfOne(rows: seq<DailyLog>)
    requires |rows| == 1
    ensures Mean(Ratios(rows)) == Ratio(rows[0].value)
  {
    var rs := Ratios(rows);
    assert rs == [Ratio(rows[0].value)] && rs[..0] == [];
    assert Sum(rs) == Ratio(rows[0].value);
  }

  /** In a table keyed by date, the grouped adherence table is the per-row one. */
  lemma SummaryOfKeyed(rows: seq<DailyLog>)
    requires StrictlyByDate(rows)
    ensures Summary(rows) == PerRow(rows)
  {
    KeyedDistinctDates(rows);
    var s := Summary(rows);
    forall i | 0 <= i < |rows| ensures s[i] == PerRow(rows)[i] {
      KeyedGroup(rows, i);
      MeanOfOne([rows[i]]);
    }
  }

  /** The per-row table of `rows` starts with the first row's entry and goes on with the rest's. */
  lemma PerRowCons(rows: seq<DailyLog>)
    requires rows != []
    ensures PerRow(rows) == [Row(rows[0].date, Ratio(rows[0].value))] + PerRow(rows[1..])
  {
  }

  /** `Since` on a non-empty table, one row at a time. */
  lemma SinceCons<T(!new)>(s: seq<Row<T>>, lo: Day)
    requires s != []
    ensures Since(s, lo) == if s[0].date >= lo then [s[0]] + Since(s[1..], lo) else Since(s[1..], lo)
  {
  }

  /** Ratios of a table, one row at a time. */
  lemma RatiosCons(x: DailyLog, rest: seq<DailyLog>)
    ensures Ratios([x] + rest) == [Ratio(x.value)] + Ratios(rest)
  {
  }

  /** Values of a table, one row at a time. */
  lemma ValuesCons(x: Row<real>, rest: seq<Row<real>>)
    ensures Values([x] + rest) == [x.value] + Values(rest)
  {
  }

  /** Windowing the per-row table and taking its ratios is taking the ratios of the windowed rows. */
  lemma {:induction false} WindowPerRow(rows: seq<DailyLog>, lo: Day)
    ensures Values(Since(PerRow(rows), lo)) == Ratios(Since(rows, lo))
  {
    if rows != [] {
      WindowPerRow(rows[1..], lo);
      PerRowCons(rows);
      var head := Row(rows[0].date, Ratio(rows[0].value));
      var p := PerRow(rows);
      assert p[0] == head && p[1..] == PerRow(rows[1..]);
      SinceCons(p, lo);
      SinceCons(rows, lo);
      if rows[0].date >= lo {
        RatiosCons(rows[0], Since(rows[1..], lo));
        ValuesCons(head, Since(p[1..], lo));
      }
    }
  }

  /** For a table keyed by date, the window's grouped ratios are the windowed rows' ratios. */
  lemma KeyedWindowValues(rows: seq<DailyLog>, today: Day)
    requires StrictlyByDate(rows)
    ensures Values(Window(Summary(rows), today)) == Ratios(Since(rows, WindowStart(today)))
  {
    SummaryOfKeyed(rows);
    WindowPerRow(rows, WindowStart(today));
  }

  /**
   * For a table keyed by date, the reported percentage is 100 times the mean
   * ratio of the rows dated from `today - 6` on, and absent when there are none.
   */
  lemma AdherenceOfKeyed(rows: seq<DailyLog>, today: Day)
    requires StrictlyByDate(rows)
    ensures AdherencePct(rows, today) == Percent(Ratios(Since(rows, WindowStart(today))))
  {
    KeyedWindowValues(rows, today);
  }
}
