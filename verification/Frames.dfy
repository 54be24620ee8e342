/** The data the store hands back: per-station series of timestamped
    samples, and the combined multi-station frame built from them.  A reading
    is `None` where the station reported nothing for that column (a NaN in
    the frame). */
module Frames {
  import opened Time

  datatype Option<+T> = None | Some(value: T)

  type Station = string
  type Column = string

  /** One point of one measurement, with one value per selected column. */
  datatype Sample = Sample(time: Instant, values: seq<Option<real>>)

  /** The points of one measurement (station) in a query result. */
  datatype Series = Series(name: Station, samples: seq<Sample>)

  /** A query result: one series per measurement that matched, all with the
      columns the query selected. */
  datatype QueryResult = QueryResult(columns: seq<Column>, series: seq<Series>)

  /** A row of a combined frame, tagged with the station it came from. */
  datatype Row = Row(time: Instant, station: Station, values: seq<Option<real>>)

  datatype Frame = Frame(columns: seq<Column>, rows: seq<Row>)

  /** The reading of column `c` in a row. */
  function Cell(row: Row, c: nat): Option<real>
  {
    if c < |row.values| then row.values[c] else None
  }

  /** The position of a named column. */
  function ColumnIndex(columns: seq<Column>, name: Column): (r: Option<nat>)
    ensures r.None? <==> name !in columns
    ensures r.Some? ==> r.value < |columns| && columns[r.value] == name
  {
    if columns == [] then None
    else if columns[0] == name then Some(0)
    else match ColumnIndex(columns[1..], name)
      case None => None
      case Some(i) => Some(i + 1)
  }

  /** The readings of column `c`, in row order. */
  function ColumnOf(rows: seq<Row>, c: nat): (vs: seq<Option<real>>)
    ensures |vs| == |rows|
  {
    if rows == [] then [] else ColumnOf(rows[..|rows| - 1], c) + [Cell(rows[|rows| - 1], c)]
  }

  lemma {:induction false} ColumnOfAt(rows: seq<Row>, c: nat, i: nat)
    requires i < |rows|
    ensures ColumnOf(rows, c)[i] == Cell(rows[i], c)
  {
    if i < |rows| - 1 {
      ColumnOfAt(rows[..|rows| - 1], c, i);
    }
  }

  /** The rows stamped exactly `t`, in their original order. */
  function AtTime(rows: seq<Row>, t: Instant): (r: seq<Row>)
    ensures |r| <= |rows|
  {
    if rows == [] then []
    else AtTime(rows[..|rows| - 1], t) + (if rows[|rows| - 1].time == t then [rows[|rows| - 1]] else [])
  }

  /** The rows kept are exactly the rows stamped `t`. */
  lemma {:induction false} AtTimeMembers(rows: seq<Row>, t: Instant)
    ensures forall x :: x in AtTime(rows, t) <==> x in rows && x.time == t
  {
    if rows != [] {
      AtTimeMembers(rows[..|rows| - 1], t);
      assert rows == rows[..|rows| - 1] + [rows[|rows| - 1]];
    }
  }

  lemma {:induction false} AtTimeAppend(xs: seq<Row>, ys: seq<Row>, t: Instant)
    ensures AtTime(xs + ys, t) == AtTime(xs, t) + AtTime(ys, t)
  {
    if ys == [] {
      assert xs + ys == xs;
    } else {
      assert (xs + ys)[..|xs + ys| - 1] == xs + ys[..|ys| - 1];
      AtTimeAppend(xs, ys[..|ys| - 1], t);
    }
  }

  /** The readings that are present, in their original order (the
      `np.isnan` mask, or `skipna`). */
  function Present(vs: seq<Option<real>>): (r: seq<real>)
    ensures |r| <= |vs|
    ensures r == [] <==> forall i :: 0 <= i < |vs| ==> vs[i].None?
  {
    if vs == [] then []
    else Present(vs[..|vs| - 1]) + (if vs[|vs| - 1].Some? then [vs[|vs| - 1].value] else [])
  }

  /** Every present reading comes from some position of the column. */
  lemma {:induction false} PresentFrom(vs: seq<Option<real>>, k: nat)
    requires k < |Present(vs)|
    ensures exists i :: 0 <= i < |vs| && vs[i] == Some(Present(vs)[k])
  {
    var init := vs[..|vs| - 1];
    if k < |Present(init)| {
      PresentFrom(init, k);
      var i :| 0 <= i < |init| && init[i] == Some(Present(init)[k]);
      assert vs[i] == init[i];
    } else {
      assert vs[|vs| - 1] == Some(Present(vs)[k]);
    }
  }

  lemma {:induction false} PresentAppend(xs: seq<Option<real>>, ys: seq<Option<real>>)
    ensures Present(xs + ys) == Present(xs) + Present(ys)
  {
    if ys == [] {
      assert xs + ys == xs;
    } else {
      assert (xs + ys)[..|xs + ys| - 1] == xs + ys[..|ys| - 1];
      PresentAppend(xs, ys[..|ys| - 1]);
    }
  }

  function Sum(xs: seq<real>): real
  {
    if xs == [] then 0.0 else Sum(xs[..|xs| - 1]) + xs[|xs| - 1]
  }

  /** The pandas mean with `skipna=True`: the average of the present
      readings, or NaN (`None`) when there is none. */
  function Mean(vs: seq<Option<real>>): (m: Option<real>)
    ensures m.None? <==> forall i :: 0 <= i < |vs| ==> vs[i].None?
  {
    var xs := Present(vs);
    if xs == [] then
      None
    else
      Some(Sum(xs) / (|xs| as real))
  }

  lemma {:induction false} SumBounds(xs: seq<real>, lo: real, hi: real)
    requires forall i :: 0 <= i < |xs| ==> lo <= xs[i] <= hi
    ensures (|xs| as real) * lo <= Sum(xs) <= (|xs| as real) * hi
  {
    if xs != [] {
      SumBounds(xs[..|xs| - 1], lo, hi);
    }
  }

  lemma QuotientBounds(s: real, n: real, lo: real, hi: real)
    requires n > 0.0 && n * lo <= s <= n * hi
    ensures lo <= s / n <= hi
  {
    var m := s / n;
    assert m * n == s;
  }

  /** A mean lies between any bounds of the readings it averages. */
  lemma MeanWithin(vs: seq<Option<real>>, lo: real, hi: real)
    requires forall i :: 0 <= i < |vs| && vs[i].Some? ==> lo <= vs[i].value <= hi
    ensures Mean(vs).Some? ==> lo <= Mean(vs).value <= hi
  {
    var xs := Present(vs);
    if xs != [] {
      forall k | 0 <= k < |xs| ensures lo <= xs[k] <= hi {
        PresentFrom(vs, k);
      }
      SumBounds(xs, lo, hi);
      QuotientBounds(Sum(xs), |xs| as real, lo, hi);
    }
  }

  /** Missing readings do not move the mean. */
  lemma MeanIgnoresMissing(xs: seq<Option<real>>, ys: seq<Option<real>>)
    ensures Mean(xs + [None] + ys) == Mean(xs + ys)
  {
    var none: seq<Option<real>> := [None];
    assert none[..0] == [];
    assert Present(none) == [];
    PresentAppend(xs, none);
    PresentAppend(xs + none, ys);
    PresentAppend(xs, ys);
    assert xs + [None] + ys == (xs + none) + ys;
    assert Present(xs + [None] + ys) == Present(xs + ys);
  }

  /** A single present reading is its own mean. */
  lemma MeanOfOne(v: real)
    ensures Mean([Some(v)]) == Some(v)
  {
    var one: seq<Option<real>> := [Some(v)];
    assert one[..0] == [];
    assert Present(one) == [v];
    assert Sum([v]) == v by { assert [v][..0] == []; }
  }
}
