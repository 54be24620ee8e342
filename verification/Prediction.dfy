/** `lib/Prediction.py`: the recency-weighted temperature search over the
    last eight years, and the pressure-trend classifier. */
module Prediction {
  import opened Time
  import opened Frames
  import opened AnalogSearch

  /** `range(8)`: the years searched, this year included. */
  const TEMP_YEARS: int := 8

  /** `Prediction.predict_temp`.  `history` is what `get_data_comparison`
      returned and `current` what `get_last_five_hours` returned; `now` is
      the UTC clock reading of the call, placed on the same time line as the
      frames' local-time index.  Without current data there is no forecast
      and no search; otherwise the answer is the first candidate with the
      smallest positive recency-weighted score among years 0 to 7 and day
      offsets 0 to 13. */
  method PredictTemp(history: Option<Frame>, current: Option<Frame>, now: Instant) returns (r: Forecast)
    requires current.Some? ==> HasTemperature(current.value)
    requires history.Some? ==> HasTemperature(history.value)
    ensures r == NoData <==> current.None?
    ensures current.Some? ==> Answers(r, history, current.value, now, 0, TEMP_YEARS, Recency)
  {
    if current.None? {
      return NoData;
    }
    r := SearchAt(history, current.value, now, 0, TEMP_YEARS, Recency);
  }

  /** The column `predict_press` reads. */
  const PRESSURE: Column := "barometric_pressure_qfe"

  /** The four pressure trends, from a strong rise to a strong fall. */
  datatype Trend = StrongRise | Rise | Fall | StrongFall

  /** The icon shown for each trend: sun, sun behind cloud, sun behind rain
      cloud, thunderstorm. */
  function Icon(t: Trend): string
  {
    match t
    case StrongRise => "\U{2600}\U{FE0F}"
    case Rise => "\U{26C5}"
    case Fall => "\U{1F326}"
    case StrongFall => "\U{26C8}"
  }

  /** Different trends show different icons. */
  lemma IconsDistinct(s: Trend, t: Trend)
    requires Icon(s) == Icon(t)
    ensures s == t
  {
  }

  /** The if-chain on the pressure difference, in hPa. */
  function Classify(delta: real): (t: Trend)
    ensures t == StrongRise <==> delta > 5.0
    ensures t == Rise <==> 0.0 < delta <= 5.0
    ensures t == Fall <==> -5.0 < delta <= 0.0
    ensures t == StrongFall <==> delta <= -5.0
  {
    if delta > 5.0 then StrongRise
    else if delta > 0.0 then Rise
    else if delta > -5.0 then Fall
    else StrongFall
  }

  /** How good a trend is: 3 for a strong rise down to 0 for a strong fall. */
  function Outlook(t: Trend): nat
  {
    match t
    case StrongRise => 3
    case Rise => 2
    case Fall => 1
    case StrongFall => 0
  }

  /** A larger rise never gives a worse outlook. */
  lemma ClassifyMonotone(a: real, b: real)
    requires a <= b
    ensures Outlook(Classify(a)) <= Outlook(Classify(b))
  {
  }

  /** What `predict_press` returns: the empty string, one of the icons, or
      the `IndexError` of reading the first valid value of an all-NaN
      column. */
  datatype PressureForecast = Blank | Shown(trend: Trend) | NoValidReading

  /** `v` is the first present reading of `vs`. */
  ghost predicate IsFirstValid(vs: seq<Option<real>>, v: real)
  {
    exists i :: 0 <= i < |vs| && vs[i] == Some(v) && forall j :: 0 <= j < i ==> vs[j].None?
  }

  /** `v` is the last present reading of `vs`. */
  ghost predicate IsLastValid(vs: seq<Option<real>>, v: real)
  {
    exists i :: 0 <= i < |vs| && vs[i] == Some(v) && forall j :: i < j < |vs| ==> vs[j].None?
  }

  /** The first entry of the NaN-free array is the first valid reading. */
  lemma {:induction false} FirstOfPresent(vs: seq<Option<real>>)
    requires Present(vs) != []
    ensures IsFirstValid(vs, Present(vs)[0])
  {
    var init := vs[..|vs| - 1];
    if Present(init) == [] {
      assert vs[|vs| - 1].Some?;
      forall j | 0 <= j < |vs| - 1 ensures vs[j].None? {
        assert vs[j] == init[j];
      }
    } else {
      FirstOfPresent(init);
      var i :| 0 <= i < |init| && init[i] == Some(Present(init)[0]) && forall j :: 0 <= j < i ==> init[j].None?;
      assert vs[i] == init[i];
      forall j | 0 <= j < i ensures vs[j].None? {
        assert vs[j] == init[j];
      }
    }
  }

  /** The last entry of the NaN-free array is the last valid reading. */
  lemma {:induction false} LastOfPresent(vs: seq<Option<real>>)
    requires Present(vs) != []
    ensures IsLastValid(vs, Present(vs)[|Present(vs)| - 1])
  {
    var init := vs[..|vs| - 1];
    if vs[|vs| - 1].None? {
      LastOfPresent(init);
      var i :| 0 <= i < |init| && init[i] == Some(Present(init)[|Present(init)| - 1])
                && forall j :: i < j < |init| ==> init[j].None?;
      assert vs[i] == init[i];
      forall j | i < j < |vs| ensures vs[j].None? {
        if j < |init| {
          assert vs[j] == init[j];
        }
      }
    }
  }

  /** The pressure readings of a frame, in row order. */
  function PressureColumn(f: Frame): seq<Option<real>>
  {
    match ColumnIndex(f.columns, PRESSURE)
    case None => []
    case Some(c) => ColumnOf(f.rows, c)
  }

  /** `Prediction.predict_press` on what `get_last_five_hours` returned: the
      trend of the last valid pressure reading in row order minus the first
      one.  The rows are the stations' series one after the other, so the
      two readings may come from different stations. */
  function PredictPress(data: Option<Frame>): (r: PressureForecast)
    ensures r == Blank <==> data.None? || PRESSURE !in data.value.columns
    ensures r == NoValidReading <==>
              data.Some? && PRESSURE in data.value.columns && Present(PressureColumn(data.value)) == []
  {
    match data
    case None => Blank
    case Some(f) =>
      match ColumnIndex(f.columns, PRESSURE)
      case None => Blank
      case Some(c) =>
        var valid := Present(ColumnOf(f.rows, c));
        if valid == [] then NoValidReading
        else Shown(Classify(valid[|valid| - 1] - valid[0]))
  }

  /** With at least one valid reading, the trend is that of the last valid
      reading in row order minus the first one. */
  lemma PressTrendFromEnds(f: Frame)
    requires PRESSURE in f.columns && Present(PressureColumn(f)) != []
    ensures exists first, last ::
              && IsFirstValid(PressureColumn(f), first)
              && IsLastValid(PressureColumn(f), last)
              && PredictPress(Some(f)) == Shown(Classify(last - first))
  {
    var vs := PressureColumn(f);
    FirstOfPresent(vs);
    LastOfPresent(vs);
    var first, last := Present(vs)[0], Present(vs)[|Present(vs)| - 1];
    assert IsFirstValid(vs, first) && IsLastValid(vs, last);
  }

  /** A single valid reading is both the first and the last one: the
      difference is zero and the forecast is a fall. */
  lemma SingleReadingFalls(f: Frame)
    requires PRESSURE in f.columns && |Present(PressureColumn(f))| == 1
    ensures PredictPress(Some(f)) == Shown(Fall)
  {
  }
}
