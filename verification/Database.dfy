/** The store layer of `lib/Database.py`: combining the per-station series
    of a query into one frame, reducing a frame to the newest readings, and
    collecting the same-season windows of past years.  The store itself and
    its query language are outside the model: a query arrives here as the
    `QueryResult` it produced. */
module Database {
  import opened Time
  import opened Frames

  /** The samples of one measurement, tagged with its name. */
  function Tag(s: Series): (rows: seq<Row>)
    ensures |rows| == |s.samples|
    ensures forall i :: 0 <= i < |rows| ==>
              rows[i].station == s.name && rows[i].time == s.samples[i].time && rows[i].values == s.samples[i].values
  {
    seq(|s.samples|, i requires 0 <= i < |s.samples| => Row(s.samples[i].time, s.name, s.samples[i].values))
  }

  /** The series of a query result, tagged and concatenated in result order. */
  function Flatten(ss: seq<Series>): seq<Row>
  {
    if ss == [] then [] else Flatten(ss[..|ss| - 1]) + Tag(ss[|ss| - 1])
  }

  /** The sum of the per-measurement sample counts. */
  function RowCount(ss: seq<Series>): nat
  {
    if ss == [] then 0 else RowCount(ss[..|ss| - 1]) + |ss[|ss| - 1].samples|
  }

  lemma {:induction false} FlattenLength(ss: seq<Series>)
    ensures |Flatten(ss)| == RowCount(ss)
  {
    if ss != [] {
      FlattenLength(ss[..|ss| - 1]);
    }
  }

  /** Sample `i` of measurement `j` lands right after the samples of the
      measurements before it, tagged with `j`'s name. */
  lemma {:induction false} FlattenAt(ss: seq<Series>, j: nat, i: nat)
    requires j < |ss| && i < |ss[j].samples|
    ensures RowCount(ss[..j]) + i < |Flatten(ss)|
    ensures Flatten(ss)[RowCount(ss[..j]) + i] == Row(ss[j].samples[i].time, ss[j].name, ss[j].samples[i].values)
  {
    var n := |ss|;
    var init := ss[..n - 1];
    FlattenLength(init);
    FlattenLength(ss);
    if j == n - 1 {
      assert init == ss[..j];
      assert Flatten(ss)[RowCount(ss[..j]) + i] == Tag(ss[j])[i];
    } else {
      FlattenAt(init, j, i);
      assert init[..j] == ss[..j];
      assert init[j] == ss[j];
    }
  }

  /** Every combined row is a sample of some measurement, tagged with that
      measurement's name. */
  lemma {:induction false} FlattenOrigin(ss: seq<Series>, k: nat)
    requires k < |Flatten(ss)|
    ensures exists j, i :: 0 <= j < |ss| && 0 <= i < |ss[j].samples|
              && Flatten(ss)[k] == Row(ss[j].samples[i].time, ss[j].name, ss[j].samples[i].values)
  {
    var n := |ss|;
    var init := ss[..n - 1];
    if k < |Flatten(init)| {
      FlattenOrigin(init, k);
      var j, i :| 0 <= j < |init| && 0 <= i < |init[j].samples|
                  && Flatten(init)[k] == Row(init[j].samples[i].time, init[j].name, init[j].samples[i].values);
      assert init[j] == ss[j];
    } else {
      var i := k - |Flatten(init)|;
      assert Flatten(ss)[k] == Tag(ss[n - 1])[i];
    }
  }

  /** `Database.query_all`: no frame when the query matched no measurement,
      otherwise the measurements' samples in result order, each tagged with
      its measurement.  (Converting the index to local time is not part of
      this model: instants are already normalised.) */
  method QueryAll(result: QueryResult) returns (all: Option<Frame>)
    ensures all.None? <==> result.series == []
    ensures all.Some? ==> all.value == Frame(result.columns, Flatten(result.series))
  {
    all := None;
    var i := 0;
    while i < |result.series|
      invariant 0 <= i <= |result.series|
      invariant all == if i == 0 then None else Some(Frame(result.columns, Flatten(result.series[..i])))
    {
      var measurement := result.series[i];
      var data := Tag(measurement);
      assert result.series[..i + 1][..i] == result.series[..i];
      assert Flatten(result.series[..i + 1]) == Flatten(result.series[..i]) + data;
      if all.None? {
        assert result.series[..i] == [];
        assert Flatten(result.series[..i + 1]) == data;
        all := Some(Frame(result.columns, data));
      } else {
        all := Some(Frame(result.columns, all.value.rows + data));
      }
      i := i + 1;
    }
    assert result.series[..i] == result.series;
  }

  /** The newest timestamp among the rows (`result.index.max()`). */
  function MaxTime(rows: seq<Row>): (m: Instant)
    requires rows != []
    ensures exists i :: 0 <= i < |rows| && rows[i].time == m
    ensures forall i :: 0 <= i < |rows| ==> rows[i].time <= m
  {
    if |rows| == 1 then rows[0].time
    else
      var m := MaxTime(rows[..|rows| - 1]);
      if rows[|rows| - 1].time > m then rows[|rows| - 1].time else m
  }

  /** The rows at the newest timestamp, in frame order: stations without a
      reading at that instant are filtered out. */
  function Latest(rows: seq<Row>): (latest: seq<Row>)
    ensures rows == [] ==> latest == []
    ensures rows != [] ==> forall x :: x in latest <==> x in rows && x.time == MaxTime(rows)
  {
    if rows == [] then []
    else
      AtTimeMembers(rows, MaxTime(rows));
      AtTime(rows, MaxTime(rows))
  }

  /** The rows `query_combine` keeps are exactly those whose timestamp no
      other row exceeds. */
  lemma LatestIsNewest(rows: seq<Row>, x: Row)
    ensures x in Latest(rows) <==> x in rows && forall y :: y in rows ==> y.time <= x.time
  {
    if rows != [] && x in rows && forall y :: y in rows ==> y.time <= x.time {
      var k :| 0 <= k < |rows| && rows[k].time == MaxTime(rows);
      assert rows[k] in rows;
    }
    if x in Latest(rows) {
      forall y | y in rows ensures y.time <= x.time {
        var k :| 0 <= k < |rows| && rows[k] == y;
      }
    }
  }

  /** What `query_combine` hands back: an empty frame, or one mean per column. */
  datatype Combined = EmptyFrame | Means(columns: seq<Column>, means: seq<Option<real>>)

  /** `Database.query_combine`, applied to the frame `query_all` produced:
      the per-column mean of the newest rows, ignoring missing readings. */
  function QueryCombine(all: Option<Frame>): (c: Combined)
    ensures c == EmptyFrame <==> all.None?
    ensures c.Means? ==> c.columns == all.value.columns && |c.means| == |c.columns|
  {
    match all
    case None => EmptyFrame
    case Some(f) =>
      var latest := Latest(f.rows);
      Means(f.columns, seq(|f.columns|, c requires 0 <= c < |f.columns| => Mean(ColumnOf(latest, c))))
  }

  /** A column's combined value is missing exactly when none of the newest
      rows has a reading for it, and otherwise lies between any bounds of
      those readings. */
  lemma CombinedColumn(f: Frame, c: nat, lo: real, hi: real)
    requires c < |f.columns|
    requires forall r :: r in Latest(f.rows) && Cell(r, c).Some? ==> lo <= Cell(r, c).value <= hi
    ensures QueryCombine(Some(f)).means[c].None? <==>
              forall r :: r in Latest(f.rows) ==> Cell(r, c).None?
    ensures QueryCombine(Some(f)).means[c].Some? ==> lo <= QueryCombine(Some(f)).means[c].value <= hi
  {
    var latest := Latest(f.rows);
    var vs := ColumnOf(latest, c);
    forall i | 0 <= i < |vs| ensures vs[i] == Cell(latest[i], c) {
      ColumnOfAt(latest, c, i);
    }
    if forall r :: r in latest ==> Cell(r, c).None? {
      assert forall i :: 0 <= i < |vs| ==> vs[i].None? by {
        forall i | 0 <= i < |vs| ensures vs[i].None? {
          assert latest[i] in latest;
        }
      }
    } else {
      var r :| r in latest && Cell(r, c).Some?;
      var i :| 0 <= i < |latest| && latest[i] == r;
      assert vs[i].Some?;
    }
    MeanWithin(vs, lo, hi);
  }

  /** With a single newest row its readings are used directly. */
  lemma CombinedSingleRow(f: Frame, r: Row)
    requires Latest(f.rows) == [r]
    ensures forall c :: 0 <= c < |f.columns| ==> QueryCombine(Some(f)).means[c] == Cell(r, c)
  {
    forall c | 0 <= c < |f.columns| ensures QueryCombine(Some(f)).means[c] == Cell(r, c) {
      ColumnOfAt([r], c, 0);
      var vs := ColumnOf([r], c);
      assert vs == [Cell(r, c)];
      if Cell(r, c).Some? {
        MeanOfOne(Cell(r, c).value);
      }
    }
  }

  lemma MaxTimeUnchanged(xs: seq<Row>, ys: seq<Row>)
    requires xs != []
    requires forall y :: y in ys ==> y.time < MaxTime(xs)
    ensures MaxTime(xs + ys) == MaxTime(xs) && MaxTime(ys + xs) == MaxTime(xs)
  {
    var m := MaxTime(xs);
    var k :| 0 <= k < |xs| && xs[k].time == m;
    assert (xs + ys)[k] == xs[k];
    assert (ys + xs)[|ys| + k] == xs[k];
    var a :| 0 <= a < |xs + ys| && (xs + ys)[a].time == MaxTime(xs + ys);
    if a >= |xs| { assert (xs + ys)[a] == ys[a - |xs|]; assert ys[a - |xs|] in ys; }
    var b :| 0 <= b < |ys + xs| && (ys + xs)[b].time == MaxTime(ys + xs);
    if b < |ys| { assert (ys + xs)[b] == ys[b]; assert ys[b] in ys; }
    else { assert (ys + xs)[b] == xs[b - |ys|]; }
  }

  lemma NoneAtTime(ys: seq<Row>, t: Instant)
    requires forall y :: y in ys ==> y.time < t
    ensures AtTime(ys, t) == []
  {
    AtTimeMembers(ys, t);
    if AtTime(ys, t) != [] {
      assert AtTime(ys, t)[0] in AtTime(ys, t);
    }
  }

  /** Rows older than the newest timestamp, placed before or after the
      other rows, never affect `query_combine`. */
  lemma OlderRowsIgnored(columns: seq<Column>, xs: seq<Row>, ys: seq<Row>)
    requires xs != []
    requires forall y :: y in ys ==> y.time < MaxTime(xs)
    ensures QueryCombine(Some(Frame(columns, xs + ys))) == QueryCombine(Some(Frame(columns, xs)))
    ensures QueryCombine(Some(Frame(columns, ys + xs))) == QueryCombine(Some(Frame(columns, xs)))
  {
    var m := MaxTime(xs);
    MaxTimeUnchanged(xs, ys);
    AtTimeAppend(xs, ys, m);
    AtTimeAppend(ys, xs, m);
    NoneAtTime(ys, m);
    assert AtTime(xs, m) + [] == AtTime(xs, m);
    assert [] + AtTime(xs, m) == AtTime(xs, m);
    assert Latest(xs + ys) == Latest(xs);
    assert Latest(ys + xs) == Latest(xs);
  }

  /** The newest timestamp is the one some row carries and no row exceeds. */
  lemma MaxTimeIs(rows: seq<Row>, m: Instant)
    requires exists k :: 0 <= k < |rows| && rows[k].time == m
    requires forall k :: 0 <= k < |rows| ==> rows[k].time <= m
    ensures rows != [] && MaxTime(rows) == m
  {
    var k :| 0 <= k < |rows| && rows[k].time == m;
  }

  /** Position `j` of a sequence with row `i` removed. */
  lemma RemovedAt(rows: seq<Row>, i: nat, j: nat)
    requires i < |rows| && j < |rows| - 1
    ensures |rows[..i] + rows[i + 1..]| == |rows| - 1
    ensures (rows[..i] + rows[i + 1..])[j] == if j < i then rows[j] else rows[j + 1]
  {
  }

  /** Dropping a row that is not the newest leaves the newest timestamp. */
  lemma MaxTimeWithout(rows: seq<Row>, i: nat)
    requires i < |rows| && rows[i].time < MaxTime(rows)
    ensures rows[..i] + rows[i + 1..] != [] && MaxTime(rows[..i] + rows[i + 1..]) == MaxTime(rows)
  {
    var m := MaxTime(rows);
    var rest := rows[..i] + rows[i + 1..];
    var k :| 0 <= k < |rows| && rows[k].time == m;
    assert k != i;
    RemovedAt(rows, i, if k < i then k else k - 1);
    forall j | 0 <= j < |rest| ensures rest[j].time <= m {
      RemovedAt(rows, i, j);
    }
    MaxTimeIs(rest, m);
  }

  /** Dropping a row stamped otherwise leaves the rows stamped `t`. */
  lemma AtTimeWithout(rows: seq<Row>, i: nat, t: Instant)
    requires i < |rows| && rows[i].time != t
    ensures AtTime(rows[..i] + rows[i + 1..], t) == AtTime(rows, t)
  {
    var before, after := rows[..i], rows[i + 1..];
    var upto := before + [rows[i]];
    assert rows == upto + after;
    assert upto[..|upto| - 1] == before;
    assert AtTime(upto, t) == AtTime(before, t);
    AtTimeAppend(upto, after, t);
    AtTimeAppend(before, after, t);
  }

  /** Dropping any single row older than the newest timestamp, wherever it
      stands in the frame (say a stale reading of one station between two
      current ones), does not change `query_combine`. */
  lemma OlderRowIgnored(columns: seq<Column>, rows: seq<Row>, i: nat)
    requires i < |rows| && rows[i].time < MaxTime(rows)
    ensures QueryCombine(Some(Frame(columns, rows[..i] + rows[i + 1..]))) == QueryCombine(Some(Frame(columns, rows)))
  {
    MaxTimeWithout(rows, i);
    AtTimeWithout(rows, i, MaxTime(rows));
    assert Latest(rows[..i] + rows[i + 1..]) == Latest(rows);
  }

  /** `range(1, date_now.year - 2006)`: one window per past year back to 2007. */
  function YearsBack(nowYear: int): (r: nat)
    ensures r == 0 <==> nowYear <= 2007
    ensures r > 0 ==> nowYear - r == 2007
  {
    if nowYear > 2007 then nowYear - 2007 else 0
  }

  const WINDOW: int := 7 * DAY

  /** The samples strictly between `lo` and `hi` (`time > lo AND time < hi`). */
  function Within(samples: seq<Sample>, lo: Instant, hi: Instant): (r: seq<Sample>)
    ensures forall s :: s in r <==> s in samples && lo < s.time < hi
  {
    if samples == [] then []
    else
      var last := samples[|samples| - 1];
      Within(samples[..|samples| - 1], lo, hi) + (if lo < last.time < hi then [last] else [])
  }

  /** The series a windowed query returns: each station's samples inside the
      window, and no series for a station with none. */
  function WindowSeries(ss: seq<Series>, lo: Instant, hi: Instant): (r: seq<Series>)
    ensures forall s :: s in r ==> s.samples != [] && forall p :: p in s.samples ==> lo < p.time < hi
  {
    if ss == [] then []
    else
      var last := ss[|ss| - 1];
      var inside := Within(last.samples, lo, hi);
      WindowSeries(ss[..|ss| - 1], lo, hi) + (if inside == [] then [] else [Series(last.name, inside)])
  }

  /** The query `get_data_comparison` issues for the window around `centre`. */
  function WindowQuery(store: QueryResult, centre: Instant): QueryResult
  {
    QueryResult(store.columns, WindowSeries(store.series, centre - WINDOW, centre + WINDOW))
  }

  /** The windows of all past years, concatenated year by year. */
  function Comparison(store: QueryResult, centres: seq<Instant>): seq<Row>
  {
    if centres == [] then []
    else Comparison(store, centres[..|centres| - 1]) + Flatten(WindowQuery(store, centres[|centres| - 1]).series)
  }

  /** A windowed query with no matching series is exactly one without rows. */
  lemma {:induction false} FlattenEmpty(ss: seq<Series>)
    requires forall s :: s in ss ==> s.samples != []
    ensures Flatten(ss) == [] <==> ss == []
  {
    FlattenLength(ss);
    if ss != [] {
      assert ss[|ss| - 1] in ss;
      assert RowCount(ss) >= |ss[|ss| - 1].samples|;
    }
  }

  /** Every row of one windowed query lies strictly inside its window. */
  lemma WindowRowsInside(store: QueryResult, centre: Instant, k: nat)
    requires k < |Flatten(WindowQuery(store, centre).series)|
    ensures centre - WINDOW < Flatten(WindowQuery(store, centre).series)[k].time < centre + WINDOW
  {
    var ss := WindowQuery(store, centre).series;
    FlattenOrigin(ss, k);
    var j, i :| 0 <= j < |ss| && 0 <= i < |ss[j].samples|
                && Flatten(ss)[k] == Row(ss[j].samples[i].time, ss[j].name, ss[j].samples[i].values);
    assert ss[j] in ss;
    assert ss[j].samples[i] in ss[j].samples;
  }

  /** Every collected row lies strictly inside the ±7-day window of one of
      the past years. */
  lemma {:induction false} ComparisonInWindows(store: QueryResult, centres: seq<Instant>, k: nat)
    requires k < |Comparison(store, centres)|
    ensures exists x :: 0 <= x < |centres|
              && centres[x] - WINDOW < Comparison(store, centres)[k].time < centres[x] + WINDOW
  {
    var n := |centres|;
    var init := centres[..n - 1];
    var earlier := Comparison(store, init);
    var last := Flatten(WindowQuery(store, centres[n - 1]).series);
    assert Comparison(store, centres) == earlier + last;
    if k < |earlier| {
      ComparisonInWindows(store, init, k);
      var x :| 0 <= x < |init| && init[x] - WINDOW < earlier[k].time < init[x] + WINDOW;
      assert init[x] == centres[x];
    } else {
      WindowRowsInside(store, centres[n - 1], k - |earlier|);
    }
  }

  /** Every sample of every series of a query result appears in the
      combined frame, tagged with its series. */
  lemma FlattenHas(ss: seq<Series>, j: nat, p: Sample)
    requires j < |ss| && p in ss[j].samples
    ensures Row(p.time, ss[j].name, p.values) in Flatten(ss)
  {
    var i :| 0 <= i < |ss[j].samples| && ss[j].samples[i] == p;
    FlattenAt(ss, j, i);
  }

  /** The collected rows are those of the earlier years followed by those of
      the last year's window. */
  lemma ComparisonSplit(store: QueryResult, centres: seq<Instant>)
    requires centres != []
    ensures Comparison(store, centres)
            == Comparison(store, centres[..|centres| - 1]) + Flatten(WindowQuery(store, centres[|centres| - 1]).series)
  {
  }

  /** The rows of each year's window are among the collected rows. */
  lemma {:induction false} ComparisonHas(store: QueryResult, centres: seq<Instant>, x: nat, row: Row)
    requires x < |centres| && row in Flatten(WindowQuery(store, centres[x]).series)
    ensures row in Comparison(store, centres)
  {
    var init := centres[..|centres| - 1];
    ComparisonSplit(store, centres);
    if x < |init| {
      assert init[x] == centres[x];
      ComparisonHas(store, init, x, row);
    } else {
      assert x == |centres| - 1;
      assert centres[x] == centres[|centres| - 1];
      var last := Flatten(WindowQuery(store, centres[|centres| - 1]).series);
      assert row in last;
    }
  }

  /** A station with samples inside a window yields exactly those samples. */
  lemma {:induction false} WindowSeriesHas(ss: seq<Series>, lo: Instant, hi: Instant, j: nat)
    requires j < |ss| && Within(ss[j].samples, lo, hi) != []
    ensures Series(ss[j].name, Within(ss[j].samples, lo, hi)) in WindowSeries(ss, lo, hi)
  {
    var init, last := ss[..|ss| - 1], ss[|ss| - 1];
    var inside := Within(last.samples, lo, hi);
    assert WindowSeries(ss, lo, hi)
           == WindowSeries(init, lo, hi) + (if inside == [] then [] else [Series(last.name, inside)]);
    if j < |init| {
      assert init[j] == ss[j];
      WindowSeriesHas(init, lo, hi, j);
    }
  }

  /** A sample strictly inside a window is among the window's rows, tagged
      with its station. */
  lemma WindowHas(ss: seq<Series>, lo: Instant, hi: Instant, j: nat, p: Sample)
    requires j < |ss| && p in ss[j].samples && lo < p.time < hi
    ensures Row(p.time, ss[j].name, p.values) in Flatten(WindowSeries(ss, lo, hi))
  {
    var inside := Within(ss[j].samples, lo, hi);
    assert p in inside;
    WindowSeriesHas(ss, lo, hi, j);
    var ws := WindowSeries(ss, lo, hi);
    var k :| 0 <= k < |ws| && ws[k] == Series(ss[j].name, inside);
    FlattenHas(ws, k, p);
  }

  /** A row of the window around the `x`-th date is collected. */
  lemma ComparisonFromWindow(store: QueryResult, centres: seq<Instant>, x: nat, lo: Instant, hi: Instant, row: Row)
    requires x < |centres| && lo == centres[x] - WINDOW && hi == centres[x] + WINDOW
    requires row in Flatten(WindowSeries(store.series, lo, hi))
    ensures row in Comparison(store, centres)
  {
    assert WindowQuery(store, centres[x]).series == WindowSeries(store.series, lo, hi);
    ComparisonHas(store, centres, x, row);
  }

  /** Every stored sample strictly within seven days of one of the past
      years' dates is collected, tagged with its station: the windows miss
      nothing. */
  lemma ComparisonComplete(store: QueryResult, centres: seq<Instant>, x: nat, j: nat, p: Sample)
    requires x < |centres| && j < |store.series| && p in store.series[j].samples
    requires centres[x] - WINDOW < p.time < centres[x] + WINDOW
    ensures Row(p.time, store.series[j].name, p.values) in Comparison(store, centres)
  {
    var lo, hi := centres[x] - WINDOW, centres[x] + WINDOW;
    var row := Row(p.time, store.series[j].name, p.values);
    WindowHas(store.series, lo, hi, j, p);
    ComparisonFromWindow(store, centres, x, lo, hi, row);
  }

  predicate SortedByTime(rows: seq<Row>)
  {
    forall i, j :: 0 <= i < j < |rows| ==> rows[i].time <= rows[j].time
  }

  function Insert(r: Row, sorted: seq<Row>): (out: seq<Row>)
    requires SortedByTime(sorted)
    ensures SortedByTime(out)
    ensures multiset(out) == multiset(sorted) + multiset{r}
  {
    if sorted == [] then [r]
    else if r.time <= sorted[0].time then [r] + sorted
    else
      var rest := Insert(r, sorted[1..]);
      HeadBelowRest(r, sorted, rest);
      [sorted[0]] + rest
  }

  /** Inserting behind the head keeps the head first. */
  lemma HeadBelowRest(r: Row, sorted: seq<Row>, rest: seq<Row>)
    requires SortedByTime(sorted) && sorted != [] && sorted[0].time < r.time
    requires multiset(rest) == multiset(sorted[1..]) + multiset{r}
    ensures forall i :: 0 <= i < |rest| ==> sorted[0].time <= rest[i].time
    ensures multiset([sorted[0]] + rest) == multiset(sorted) + multiset{r}
  {
    assert sorted == [sorted[0]] + sorted[1..];
    forall i | 0 <= i < |rest| ensures sorted[0].time <= rest[i].time {
      var x := rest[i];
      assert x in multiset(rest);
      if x != r {
        assert x in multiset(sorted[1..]);
        var j :| 0 <= j < |sorted[1..]| && sorted[1..][j] == x;
        assert sorted[j + 1] == x;
      }
    }
  }

  /** `sort_index`: the rows ascending by timestamp, a permutation of the input. */
  function SortByTime(rows: seq<Row>): (out: seq<Row>)
    ensures SortedByTime(out)
    ensures multiset(out) == multiset(rows)
  {
    if rows == [] then []
    else
      assert rows == rows[..|rows| - 1] + [rows[|rows| - 1]];
      Insert(rows[|rows| - 1], SortByTime(rows[..|rows| - 1]))
  }

  /** `Database.get_data_comparison`: the samples within seven days either
      side of today's date in each past year back to 2007, combined and
      sorted by time; no frame when no window held any sample (including
      when no year is iterated).  `centres[x - 1]` is the current instant
      with its year set back by `x`; calendar arithmetic is not modelled. */
  method GetDataComparison(store: QueryResult, nowYear: int, centres: seq<Instant>)
    returns (result: Option<Frame>)
    requires |centres| == YearsBack(nowYear)
    ensures result.None? <==> Comparison(store, centres) == []
    ensures result.Some? ==> result.value.columns == store.columns
    ensures result.Some? ==> SortedByTime(result.value.rows)
    ensures result.Some? ==> multiset(result.value.rows) == multiset(Comparison(store, centres))
  {
    result := None;
    var i := 0;
    while i < |centres|
      invariant 0 <= i <= |centres|
      invariant result.None? <==> Comparison(store, centres[..i]) == []
      invariant result.Some? ==> result.value == Frame(store.columns, Comparison(store, centres[..i]))
    {
      var query := WindowQuery(store, centres[i]);
      var data := QueryAll(query);
      FlattenEmpty(query.series);
      assert centres[..i + 1][..i] == centres[..i];
      assert Comparison(store, centres[..i + 1]) == Comparison(store, centres[..i]) + Flatten(query.series);
      if result.None? {
        result := data;
      } else if data.Some? {
        // appending nothing leaves the frame as it is
        result := Some(Frame(store.columns, result.value.rows + data.value.rows));
      }
      i := i + 1;
    }
    assert centres[..i] == centres;
    if result.Some? {
      result := Some(Frame(result.value.columns, SortByTime(result.value.rows)));
    }
  }
}
