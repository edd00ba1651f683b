/**
 * Date-keyed in-memory tables.
 *
 * Every table the app keeps in its session (the weight history and the daily
 * logs) is a list of rows with a "date" column. A date is a day number, so
 * "one day earlier" is `d - 1`. The operations here are the sequence-level
 * meaning of the table library calls the app makes: sorting by date and
 * selecting the rows whose date passes a test.
 */
module Tables {

  /** A calendar date as a day number. */
  type Day = int

  /** One row of a date-keyed table: its "date" column and the rest of its columns. */
  datatype Row<T> = Row(date: Day, value: T)

  /** The set of dates that occur in a table. */
  ghost function Dates<T>(s: seq<Row<T>>): set<Day>
  {
    set r | r in s :: r.date
  }

  /** Whether some row is dated `d` (`d in df["date"].values`). */
  function HasDate<T>(s: seq<Row<T>>, d: Day): (b: bool)
    ensures b <==> d in Dates(s)
  {
    if s == [] then false
    else
      assert s == [s[0]] + s[1..];
      s[0].date == d || HasDate(s[1..], d)
  }

  /** Ascending by date, ties allowed. */
  ghost predicate SortedByDate<T>(s: seq<Row<T>>)
  {
    forall i, j :: 0 <= i < j < |s| ==> s[i].date <= s[j].date
  }

  /** Ascending by date with no two rows on the same date: the table is keyed by date. */
  ghost predicate StrictlyByDate<T>(s: seq<Row<T>>)
  {
    forall i, j :: 0 <= i < j < |s| ==> s[i].date < s[j].date
  }

  /**
   * Places `x` into a table sorted by date, after every row whose date is not
   * later than its own.
   */
  function Insert<T>(x: Row<T>, s: seq<Row<T>>): (r: seq<Row<T>>)
    ensures multiset(r) == multiset(s) + multiset{x}
    ensures |r| == |s| + 1
  {
    if s == [] then [x]
    else if x.date < s[0].date then [x] + s
    else
      assert s == [s[0]] + s[1..];
      [s[0]] + Insert(x, s[1..])
  }

  /** Every row of `Insert(x, s)` is `x` or a row of `s`. */
  lemma InsertFrom<T>(x: Row<T>, s: seq<Row<T>>, y: Row<T>)
    requires y in Insert(x, s)
    ensures y == x || y in s
  {
    assert y in multiset(Insert(x, s));
  }

  /** In a table sorted by date, the first row is dated no later than every later row. */
  lemma SortedHead<T>(s: seq<Row<T>>)
    requires SortedByDate(s) && s != []
    ensures SortedByDate(s[1..])
    ensures forall y :: y in s[1..] ==> s[0].date <= y.date
  {
    forall y | y in s[1..] ensures s[0].date <= y.date {
      var k :| 0 <= k < |s[1..]| && s[1..][k] == y;
      assert s[k + 1] == y;
    }
  }

  /** `[h] + rest` is sorted by date when `rest` is and `h` comes no later than all of it. */
  lemma ConsSorted<T>(h: Row<T>, rest: seq<Row<T>>)
    requires SortedByDate(rest)
    requires forall y :: y in rest ==> h.date <= y.date
    ensures SortedByDate([h] + rest)
  {
    var r := [h] + rest;
    forall i, j | 0 <= i < j < |r| ensures r[i].date <= r[j].date {
      assert r[j] == rest[j - 1] && rest[j - 1] in rest;
      if i > 0 { assert r[i] == rest[i - 1]; }
    }
  }

  /** Inserting into a table sorted by date keeps it sorted. */
  lemma {:induction false} InsertSorted<T>(x: Row<T>, s: seq<Row<T>>)
    requires SortedByDate(s)
    ensures SortedByDate(Insert(x, s))
  {
    if s != [] && x.date >= s[0].date {
      var rest := Insert(x, s[1..]);
      SortedHead(s);
      InsertSorted(x, s[1..]);
      forall y | y in rest ensures s[0].date <= y.date {
        InsertFrom(x, s[1..], y);
      }
      ConsSorted(s[0], rest);
    }
  }

  /** Inserting a row with a new date into a table keyed by date keeps it keyed. */
  lemma {:induction false} InsertKeyed<T>(x: Row<T>, s: seq<Row<T>>)
    requires StrictlyByDate(s) && x.date !in Dates(s)
    ensures StrictlyByDate(Insert(x, s))
  {
    if s != [] {
      assert s[0] in s;
      if x.date > s[0].date {
        var rest := Insert(x, s[1..]);
        assert x.date !in Dates(s[1..]) by {
          forall y | y in s[1..] ensures y.date != x.date { assert y in s; }
        }
        KeyedHead(s);
        InsertKeyed(x, s[1..]);
        forall y | y in rest ensures s[0].date < y.date {
          InsertFrom(x, s[1..], y);
        }
        ConsKeyed(s[0], rest);
      }
    }
  }

  /**
   * Sorts a table ascending by date (the meaning of `sort_values("date")`).
   * The result is a permutation of the input, sorted by date.
   */
  function SortByDate<T>(s: seq<Row<T>>): (r: seq<Row<T>>)
    ensures multiset(r) == multiset(s)
    ensures |r| == |s|
    ensures SortedByDate(r)
  {
    if s == [] then []
    else
      assert s == s[..|s| - 1] + [s[|s| - 1]];
      var sorted := SortByDate(s[..|s| - 1]);
      InsertSorted(s[|s| - 1], sorted);
      Insert(s[|s| - 1], sorted)
  }

  /** The rows dated `d`, in their original order. */
  function OnDate<T(!new)>(s: seq<Row<T>>, d: Day): (r: seq<Row<T>>)
    ensures forall x :: multiset(r)[x] == if x.date == d then multiset(s)[x] else 0
  {
    if s == [] then []
    else
      assert s == [s[0]] + s[1..];
      if s[0].date == d then [s[0]] + OnDate(s[1..], d) else OnDate(s[1..], d)
  }

  /** The rows not dated `d`, in their original order (`df[df["date"] != d]`). */
  function WithoutDate<T(!new)>(s: seq<Row<T>>, d: Day): (r: seq<Row<T>>)
    ensures forall x :: multiset(r)[x] == if x.date == d then 0 else multiset(s)[x]
  {
    if s == [] then []
    else
      assert s == [s[0]] + s[1..];
      if s[0].date == d then WithoutDate(s[1..], d) else [s[0]] + WithoutDate(s[1..], d)
  }

  /** The rows dated `lo` or later, in their original order (`df[df["date"] >= lo]`). */
  function Since<T(!new)>(s: seq<Row<T>>, lo: Day): (r: seq<Row<T>>)
    ensures forall x :: multiset(r)[x] == if x.date >= lo then multiset(s)[x] else 0
  {
    if s == [] then []
    else
      assert s == [s[0]] + s[1..];
      if s[0].date >= lo then [s[0]] + Since(s[1..], lo) else Since(s[1..], lo)
  }

  /** The rows kept by `Since`, as a set. */
  lemma SinceMembers<T(!new)>(s: seq<Row<T>>, lo: Day)
    ensures forall x :: x in Since(s, lo) <==> x in s && lo <= x.date
  {
    forall x ensures x in Since(s, lo) <==> x in s && lo <= x.date {
      assert x in Since(s, lo) <==> x in multiset(Since(s, lo));
      assert x in s <==> x in multiset(s);
    }
  }

  /** In a table keyed by date, the first row is dated before every later row. */
  lemma KeyedHead<T>(s: seq<Row<T>>)
    requires StrictlyByDate(s) && s != []
    ensures StrictlyByDate(s[1..])
    ensures forall y :: y in s[1..] ==> s[0].date < y.date
  {
    forall y | y in s[1..] ensures s[0].date < y.date {
      var k :| 0 <= k < |s[1..]| && s[1..][k] == y;
      assert s[k + 1] == y;
    }
  }

  /** A row kept by a filter is a row of the table. */
  lemma KeptFrom<T>(r: seq<Row<T>>, s: seq<Row<T>>, y: Row<T>)
    requires multiset(r) <= multiset(s) && y in r
    ensures y in s
  {
    assert y in multiset(r);
  }

  /** `[h] + rest` is keyed by date when `rest` is and `h` comes before all of it. */
  lemma ConsKeyed<T>(h: Row<T>, rest: seq<Row<T>>)
    requires StrictlyByDate(rest)
    requires forall y :: y in rest ==> h.date < y.date
    ensures StrictlyByDate([h] + rest)
  {
    var r := [h] + rest;
    forall i, j | 0 <= i < j < |r| ensures r[i].date < r[j].date {
      assert r[j] == rest[j - 1] && rest[j - 1] in rest;
      if i > 0 { assert r[i] == rest[i - 1]; }
    }
  }

  /** Dropping the rows of one date from a table keyed by date leaves it keyed. */
  lemma {:induction false} WithoutDateKeyed<T(!new)>(s: seq<Row<T>>, d: Day)
    requires StrictlyByDate(s)
    ensures StrictlyByDate(WithoutDate(s, d))
  {
    if s != [] {
      var rest := WithoutDate(s[1..], d);
      WithoutDateKeyed(s[1..], d);
      if s[0].date != d {
        KeyedHead(s);
        assert multiset(rest) <= multiset(s[1..]);
        forall y | y in rest ensures s[0].date < y.date {
          KeptFrom(rest, s[1..], y);
        }
        ConsKeyed(s[0], rest);
      }
    }
  }

  /** Keeping the rows from a date on of a table keyed by date leaves it keyed. */
  lemma {:induction false} SinceKeyed<T(!new)>(s: seq<Row<T>>, lo: Day)
    ensures StrictlyByDate(s) ==> StrictlyByDate(Since(s, lo))
  {
    if s != [] && StrictlyByDate(s) {
      var rest := Since(s[1..], lo);
      SinceKeyed(s[1..], lo);
      if s[0].date >= lo {
        KeyedHead(s);
        assert multiset(rest) <= multiset(s[1..]);
        forall y | y in rest ensures s[0].date < y.date {
          KeptFrom(rest, s[1..], y);
        }
        ConsKeyed(s[0], rest);
      }
    }
  }

  /** Strictly ascending dates. */
  ghost predicate Increasing(ds: seq<Day>)
  {
    forall i, j :: 0 <= i < j < |ds| ==> ds[i] < ds[j]
  }

  /** Adds `d` to a strictly ascending list of dates unless it is already there. */
  function AddDate(d: Day, ds: seq<Day>): (r: seq<Day>)
    requires Increasing(ds)
    ensures Increasing(r)
    ensures forall e :: e in r <==> e == d || e in ds
  {
    if ds == [] then [d]
    else if d < ds[0] then [d] + ds
    else if d == ds[0] then ds
    else
      var rest := AddDate(d, ds[1..]);
      assert forall e :: e in rest ==> ds[0] < e by {
        forall e | e in rest ensures ds[0] < e {
          if e != d {
            var k :| 0 <= k < |ds[1..]| && ds[1..][k] == e;
            assert ds[k + 1] == e;
          }
        }
      }
      var r := [ds[0]] + rest;
      assert forall i, j :: 0 <= i < j < |r| ==> r[i] < r[j] by {
        forall i, j | 0 <= i < j < |r| ensures r[i] < r[j] {
          assert r[j] == rest[j - 1] && rest[j - 1] in rest;
          if i > 0 { assert r[i] == rest[i - 1]; }
        }
      }
      r
  }

  /** The distinct dates of a table in ascending order (`unique()` followed by a sort). */
  function DistinctDates<T>(s: seq<Row<T>>): (ds: seq<Day>)
    ensures Increasing(ds)
    ensures forall d :: d in ds <==> d in Dates(s)
  {
    if s == [] then []
    else
      var init := s[..|s| - 1];
      assert s == init + [s[|s| - 1]];
      assert Dates(s) == Dates(init) + {s[|s| - 1].date};
      AddDate(s[|s| - 1].date, DistinctDates(init))
  }

  /** Sorting a table that is already sorted by date leaves it as it is. */
  lemma {:induction false} SortSortedIsIdentity<T>(s: seq<Row<T>>)
    requires SortedByDate(s)
    ensures SortByDate(s) == s
  {
    if s != [] {
      var init, last := s[..|s| - 1], s[|s| - 1];
      SortSortedIsIdentity(init);
      InsertLast(last, init);
      assert init + [last] == s;
    }
  }

  /** A row dated no earlier than every row of the table goes to its end. */
  lemma {:induction false} InsertLast<T>(x: Row<T>, s: seq<Row<T>>)
    requires forall y :: y in s ==> y.date <= x.date
    ensures Insert(x, s) == s + [x]
  {
    if s != [] {
      assert s[0] in s;
      InsertLast(x, s[1..]);
      assert [s[0]] + (s[1..] + [x]) == s + [x];
    }
  }

  /** Sorting `s + [x]` inserts `x` into the sorted `s`. */
  lemma SortAppend<T>(s: seq<Row<T>>, x: Row<T>)
    ensures SortByDate(s + [x]) == Insert(x, SortByDate(s))
  {
    assert (s + [x])[..|s|] == s;
  }
}
