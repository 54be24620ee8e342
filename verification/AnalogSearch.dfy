/** The analog temperature search shared by `Prediction.predict_temp` and
    `Prediciton.calculate_best_match`: every candidate start date in a range
    of past years and fourteen day offsets is scored by comparing 29
    ten-minute samples before it with the 29 samples before now, and the
    first candidate with the smallest positive score wins. */
module AnalogSearch {
  import opened Time
  import opened Frames

  const AIR_TEMPERATURE: Column := "air_temperature"

  /** `range(29)` ten-minute samples per comparison. */
  const SAMPLES: nat := 29

  /** `range(14)` day offsets per year. */
  const DAYS: nat := 14

  /** A year back is taken as 365 days. */
  const YEAR_DAYS: int := 365

  datatype Weighting = Recency | Uniform

  /** The weight of sample `k`: `30 - k` in `predict_temp`, 1 in
      `calculate_best_match`. */
  function Weight(w: Weighting, k: nat): (r: int)
    ensures k < SAMPLES ==> 1 <= r <= 30
    ensures w.Recency? ==> r + k == 30
    ensures w.Uniform? ==> r == 1
  {
    if w.Recency? then 30 - k else 1
  }

  /** Under recency weighting every sample counts, and a more recent sample
      counts more than an older one. */
  lemma RecencyFavoursRecent(k: nat, k': nat)
    requires k < k' < SAMPLES
    ensures Weight(Recency, k) > Weight(Recency, k') >= 2
  {
  }

  function Abs(x: real): real { if x < 0.0 then -x else x }

  /** `abs(past - current) * weight`: never negative for a sample of the
      window, and zero when the two readings agree. */
  function Term(past: real, current: real, w: Weighting, k: nat): (t: real)
    ensures k < SAMPLES ==> t >= 0.0
    ensures past == current ==> t == 0.0
  {
    Abs(past - current) * (Weight(w, k) as real)
  }

  /** The outcome of looking a timestamp up in a frame: absent from the
      index, or present with the mean of the stations' readings there
      (`None` when all of them are missing, a NaN). */
  datatype Reading = Absent | AtIndex(mean: Option<real>)

  function Lookup(f: Frame, c: nat, t: Instant): Reading
  {
    var at := AtTime(f.rows, t);
    if at == [] then Absent else AtIndex(Mean(ColumnOf(at, c)))
  }

  /** A timestamp is absent exactly when no row carries it. */
  lemma LookupAbsent(f: Frame, c: nat, t: Instant)
    ensures Lookup(f, c, t).Absent? <==> forall x :: x in f.rows ==> x.time != t
  {
    var at := AtTime(f.rows, t);
    AtTimeMembers(f.rows, t);
    if at != [] {
      assert at[0] in at;
    }
  }

  /** A timestamp only one station reported is read directly. */
  lemma LookupSingleStation(f: Frame, c: nat, t: Instant, r: Row)
    requires AtTime(f.rows, t) == [r]
    ensures Lookup(f, c, t) == AtIndex(Cell(r, c))
  {
    ColumnOfAt([r], c, 0);
    assert ColumnOf([r], c) == [Cell(r, c)];
    if Cell(r, c).Some? {
      MeanOfOne(Cell(r, c).value);
    }
  }

  /** The running `difference`: a number, or NaN once a missing reading
      entered the sum. */
  datatype Score = Num(value: real) | NaN

  /** `difference > 0`, which is false for NaN. */
  predicate Counts(s: Score)
  {
    s.Num? && s.value > 0.0
  }

  /** What one search compares: the historical and the current frame with
      the position of their temperature column, the rounded current instant
      and the rounded instant seven days ahead. */
  datatype Context = Context(history: Frame, hcol: nat, current: Frame, ccol: nat,
                             now: Instant, seven: Instant, weighting: Weighting)

  /** The candidate start date for `years` back and `days` earlier. */
  function Key(seven: Instant, years: int, days: int): (r: Instant)
    ensures years >= 0 && days >= 0 ==> r <= seven
    ensures (seven - r) % DAY == 0
  {
    DivModUnique(seven - (seven - (years * YEAR_DAYS + days) * DAY), DAY, years * YEAR_DAYS + days, 0);
    seven - (years * YEAR_DAYS + days) * DAY
  }

  function PastReading(ctx: Context, key: Instant, k: nat): Reading
  {
    Lookup(ctx.history, ctx.hcol, key - k * TEN_MINUTES)
  }

  function CurrentReading(ctx: Context, k: nat): Reading
  {
    Lookup(ctx.current, ctx.ccol, ctx.now - k * TEN_MINUTES)
  }

  /** What sample `k` compares: the historical reading `k` steps before the
      candidate date and the current reading `k` steps before now. */
  datatype Pair = Pair(past: Reading, current: Reading)

  /** The 29 pairs a candidate is scored on. */
  function Pairs(ctx: Context, key: Instant): (ps: seq<Pair>)
    ensures |ps| == SAMPLES
  {
    seq(SAMPLES, k requires 0 <= k => Pair(PastReading(ctx, key, k), CurrentReading(ctx, k)))
  }

  /** Sample `k` added to the running score: skipped when either timestamp
      is absent from its index, NaN once either mean is missing or the
      score is already NaN. */
  function Step(p: Pair, w: Weighting, k: nat, acc: Score): (s: Score)
    ensures s.NaN? <==> acc.NaN? || Poisoned(p)
    ensures k < SAMPLES && s.Num? ==> s.value >= acc.value
    ensures Agrees(p) ==> s == acc
  {
    if p.past.Absent? || p.current.Absent? then acc
    else if acc.NaN? || p.past.mean.None? || p.current.mean.None? then NaN
    else Num(acc.value + Term(p.past.mean.value, p.current.mean.value, w, k))
  }

  /** The score after the pairs `ps`, the first of them being sample 0. */
  function Accumulate(ps: seq<Pair>, w: Weighting): Score
  {
    if ps == [] then Num(0.0) else Step(ps[|ps| - 1], w, |ps| - 1, Accumulate(ps[..|ps| - 1], w))
  }

  lemma PairAt(ctx: Context, key: Instant, k: nat)
    requires k < SAMPLES
    ensures Pairs(ctx, key)[k] == Pair(PastReading(ctx, key, k), CurrentReading(ctx, k))
  {
  }

  /** Scoring one more sample extends the running score by one step. */
  lemma AccumulateNext(ps: seq<Pair>, w: Weighting, k: nat)
    requires k < |ps|
    ensures Accumulate(ps[..k + 1], w) == Step(ps[k], w, k, Accumulate(ps[..k], w))
  {
    assert ps[..k + 1][..k] == ps[..k];
  }

  /** The score of the candidate `years` back and `days` earlier. */
  function ScoreAt(ctx: Context, years: int, days: int): Score
  {
    Accumulate(Pairs(ctx, Key(ctx.seven, years, days)), ctx.weighting)
  }

  /** A score is a sum of non-negative terms. */
  lemma {:induction false} ScoreNonNegative(ps: seq<Pair>, w: Weighting)
    requires |ps| <= SAMPLES
    ensures Accumulate(ps, w).Num? ==> Accumulate(ps, w).value >= 0.0
  {
    if ps != [] {
      ScoreNonNegative(ps[..|ps| - 1], w);
    }
  }

  /** The pair gives no reason to tell the two windows apart: one of the
      timestamps is missing from its index, or both means agree. */
  predicate Agrees(p: Pair)
  {
    p.past.Absent? || p.current.Absent? ||
    (p.past.mean.Some? && p.current.mean.Some? && p.past.mean.value == p.current.mean.value)
  }

  /** A candidate without overlap, or matching exactly where it overlaps,
      scores zero. */
  lemma {:induction false} AgreementScoresZero(ps: seq<Pair>, w: Weighting)
    requires |ps| <= SAMPLES
    requires forall k :: 0 <= k < |ps| ==> Agrees(ps[k])
    ensures Accumulate(ps, w) == Num(0.0)
  {
    if ps != [] {
      AgreementScoresZero(ps[..|ps| - 1], w);
      assert Agrees(ps[|ps| - 1]);
    }
  }

  /** Both timestamps are present but a mean is missing on one side. */
  predicate Poisoned(p: Pair)
  {
    p.past.AtIndex? && p.current.AtIndex? && (p.past.mean.None? || p.current.mean.None?)
  }

  /** The score is NaN exactly when some sample has both timestamps but a
      missing mean: NaN, once in the sum, stays there. */
  lemma {:induction false} NaNExactlyWhenPoisoned(ps: seq<Pair>, w: Weighting)
    ensures Accumulate(ps, w).NaN? <==> exists k :: 0 <= k < |ps| && Poisoned(ps[k])
  {
    if ps != [] {
      var init := ps[..|ps| - 1];
      NaNExactlyWhenPoisoned(init, w);
      if exists k :: 0 <= k < |init| && Poisoned(init[k]) {
        var k :| 0 <= k < |init| && Poisoned(init[k]);
        assert ps[k] == init[k];
      }
      if exists k :: 0 <= k < |ps| && Poisoned(ps[k]) {
        var k :| 0 <= k < |ps| && Poisoned(ps[k]);
        if k < |init| {
          assert init[k] == ps[k];
        }
      }
    }
  }

  /** Different (years, days) pairs give different keys, so no insertion
      into the candidate dictionary overwrites another. */
  lemma KeyInjective(seven: Instant, y1: int, d1: int, y2: int, d2: int)
    requires 0 <= d1 < DAYS && 0 <= d2 < DAYS
    requires Key(seven, y1, d1) == Key(seven, y2, d2)
    ensures y1 == y2 && d1 == d2
  {
    assert (y1 * YEAR_DAYS + d1) * DAY == (y2 * YEAR_DAYS + d2) * DAY;
    assert y1 * YEAR_DAYS + d1 == y2 * YEAR_DAYS + d2;
    assert (y1 - y2) * YEAR_DAYS == d2 - d1;
  }

  /** The scored candidates of one search: candidate keys are counted back
      from `seven`, and `score` gives the score of the candidate `years`
      back and `days` earlier. */
  datatype Scoring = Scoring(seven: Instant, score: (int, int) -> Score)

  function ScoringOf(ctx: Context): Scoring
  {
    Scoring(ctx.seven, (years, days) => ScoreAt(ctx, years, days))
  }

  /** `sc` holds the scores of the candidates of `ctx`.  The equation is
      only brought into play where a score of `ctx` is computed. */
  ghost predicate ScoresOf(sc: Scoring, ctx: Context)
  {
    && sc.seven == ctx.seven
    && forall years, days {:trigger ScoreAt(ctx, years, days)} :: sc.score(years, days) == ScoreAt(ctx, years, days)
  }

  lemma ScoringOfScores(ctx: Context)
    ensures ScoresOf(ScoringOf(ctx), ctx)
  {
  }

  /** An entry of the candidate dictionary, with the loop counters that
      produced its key. */
  datatype Candidate = Candidate(years: int, days: int, date: Instant, score: real)

  function Record(sc: Scoring, years: int, days: int): seq<Candidate>
  {
    var s := sc.score(years, days);
    if Counts(s) then [Candidate(years, days, Key(sc.seven, years, days), s.value)] else []
  }

  /** The entries recorded for the first `days` offsets of one year. */
  function RecordedDays(sc: Scoring, years: int, days: nat): seq<Candidate>
  {
    if days == 0 then [] else RecordedDays(sc, years, days - 1) + Record(sc, years, days - 1)
  }

  /** The entries recorded for the years `from` up to, not including, `until`,
      in insertion order. */
  function Recorded(sc: Scoring, from: int, until: int): seq<Candidate>
    decreases until - from
  {
    if until <= from then [] else Recorded(sc, from, until - 1) + RecordedDays(sc, until - 1, DAYS)
  }

  lemma RecordedDaysNext(sc: Scoring, years: int, days: nat)
    ensures RecordedDays(sc, years, days + 1) == RecordedDays(sc, years, days) + Record(sc, years, days)
  {
  }

  lemma RecordedNext(sc: Scoring, from: int, years: int)
    requires from <= years
    ensures Recorded(sc, from, years + 1) == Recorded(sc, from, years) + RecordedDays(sc, years, DAYS)
  {
  }

  lemma RecordedEmpty(sc: Scoring, from: int, until: int)
    requires until <= from
    ensures Recorded(sc, from, until) == []
  {
  }

  /** Enumeration order: years ascending, then days ascending. */
  predicate EnumeratedBefore(y1: int, d1: int, y2: int, d2: int)
  {
    y1 < y2 || (y1 == y2 && d1 < d2)
  }

  /** The candidate for (`c.years`, `c.days`) is correctly scored and keyed,
      and its score is positive. */
  predicate Genuine(sc: Scoring, c: Candidate)
  {
    c.date == Key(sc.seven, c.years, c.days) && sc.score(c.years, c.days) == Num(c.score) && c.score > 0.0
  }

  lemma {:induction false} RecordedDaysExactly(sc: Scoring, years: int, days: nat, c: Candidate)
    ensures c in RecordedDays(sc, years, days) <==>
              c.years == years && 0 <= c.days < days && Genuine(sc, c)
  {
    if days > 0 {
      RecordedDaysExactly(sc, years, days - 1, c);
      var s := sc.score(years, days - 1);
      assert RecordedDays(sc, years, days) == RecordedDays(sc, years, days - 1) + Record(sc, years, days - 1);
      assert c in Record(sc, years, days - 1) <==> c.years == years && c.days == days - 1 && Genuine(sc, c);
    }
  }

  /** The dictionary holds exactly the candidates of the range with a
      positive score. */
  lemma {:induction false} RecordedExactly(sc: Scoring, from: int, until: int, c: Candidate)
    ensures c in Recorded(sc, from, until) <==>
              from <= c.years < until && 0 <= c.days < DAYS && Genuine(sc, c)
    decreases until - from
  {
    if until > from {
      RecordedExactly(sc, from, until - 1, c);
      RecordedDaysExactly(sc, until - 1, DAYS, c);
    }
  }

  lemma {:induction false} RecordedDaysOrdered(sc: Scoring, years: int, days: nat)
    ensures forall i, j :: 0 <= i < j < |RecordedDays(sc, years, days)| ==>
              RecordedDays(sc, years, days)[i].days < RecordedDays(sc, years, days)[j].days
  {
    if days > 0 {
      var prefix := RecordedDays(sc, years, days - 1);
      RecordedDaysOrdered(sc, years, days - 1);
      forall i | 0 <= i < |prefix| ensures prefix[i].days < days - 1 {
        RecordedDaysExactly(sc, years, days - 1, prefix[i]);
      }
    }
  }

  /** Insertion order is enumeration order. */
  predicate InEnumerationOrder(cs: seq<Candidate>)
  {
    forall i, j :: 0 <= i < j < |cs| ==> EnumeratedBefore(cs[i].years, cs[i].days, cs[j].years, cs[j].days)
  }

  lemma {:induction false} RecordedOrdered(sc: Scoring, from: int, until: int)
    ensures InEnumerationOrder(Recorded(sc, from, until))
    decreases until - from
  {
    if until > from {
      var prefix := Recorded(sc, from, until - 1);
      var last := RecordedDays(sc, until - 1, DAYS);
      RecordedOrdered(sc, from, until - 1);
      RecordedDaysOrdered(sc, until - 1, DAYS);
      forall i | 0 <= i < |prefix| ensures prefix[i].years < until - 1 {
        RecordedExactly(sc, from, until - 1, prefix[i]);
      }
      forall j | 0 <= j < |last| ensures last[j].years == until - 1 {
        RecordedDaysExactly(sc, until - 1, DAYS, last[j]);
      }
    }
  }

  /** No candidate of the range has a positive score. */
  ghost predicate NoneCounts(sc: Scoring, from: int, until: int)
  {
    forall y, d :: from <= y < until && 0 <= d < DAYS ==> !Counts(sc.score(y, d))
  }

  /** `date` is the key that `min(difference_dict, key=difference_dict.get)`
      returns: the key of a candidate of the range with a positive score
      that no positive score undercuts, and that every candidate enumerated
      before it with a positive score exceeds. */
  ghost predicate IsBestMatch(sc: Scoring, from: int, until: int, date: Instant)
  {
    exists y, d ::
      && from <= y < until && 0 <= d < DAYS
      && date == Key(sc.seven, y, d)
      && Counts(sc.score(y, d))
      && forall y', d' ::
           from <= y' < until && 0 <= d' < DAYS && Counts(sc.score(y', d')) ==>
             && sc.score(y, d).value <= sc.score(y', d').value
             && (EnumeratedBefore(y', d', y, d) ==> sc.score(y, d).value < sc.score(y', d').value)
  }

  /** At most one date is the best match. */
  lemma BestMatchUnique(sc: Scoring, from: int, until: int, a: Instant, b: Instant)
    requires IsBestMatch(sc, from, until, a) && IsBestMatch(sc, from, until, b)
    ensures a == b
  {
    var ya, da :| && from <= ya < until && 0 <= da < DAYS && a == Key(sc.seven, ya, da)
                  && Counts(sc.score(ya, da))
                  && forall y', d' ::
                       from <= y' < until && 0 <= d' < DAYS && Counts(sc.score(y', d')) ==>
                         && sc.score(ya, da).value <= sc.score(y', d').value
                         && (EnumeratedBefore(y', d', ya, da) ==> sc.score(ya, da).value < sc.score(y', d').value);
    var yb, db :| && from <= yb < until && 0 <= db < DAYS && b == Key(sc.seven, yb, db)
                  && Counts(sc.score(yb, db))
                  && forall y', d' ::
                       from <= y' < until && 0 <= d' < DAYS && Counts(sc.score(y', d')) ==>
                         && sc.score(yb, db).value <= sc.score(y', d').value
                         && (EnumeratedBefore(y', d', yb, db) ==> sc.score(yb, db).value < sc.score(y', d').value);
    assert sc.score(ya, da).value <= sc.score(yb, db).value;
    assert sc.score(yb, db).value <= sc.score(ya, da).value;
    assert !EnumeratedBefore(ya, da, yb, db) && !EnumeratedBefore(yb, db, ya, da);
  }

  /** A candidate that agrees with the current window wherever both have a
      timestamp, in particular one without any overlap, is never the answer:
      its score is zero, which the search treats as "not found" rather than
      as a perfect match. */
  lemma AgreeingCandidateNeverChosen(ctx: Context, from: int, until: int, y: int, d: int)
    requires 0 <= d < DAYS
    requires forall k :: 0 <= k < SAMPLES ==>
               Agrees(Pair(PastReading(ctx, Key(ctx.seven, y, d), k), CurrentReading(ctx, k)))
    ensures !IsBestMatch(ScoringOf(ctx), from, until, Key(ctx.seven, y, d))
  {
    var ps := Pairs(ctx, Key(ctx.seven, y, d));
    assert forall k :: 0 <= k < SAMPLES ==> ps[k] == Pair(PastReading(ctx, Key(ctx.seven, y, d), k), CurrentReading(ctx, k));
    AgreementScoresZero(ps, ctx.weighting);
    var sc := ScoringOf(ctx);
    forall y', d' | 0 <= d' < DAYS && Key(ctx.seven, y, d) == Key(ctx.seven, y', d')
      ensures !Counts(sc.score(y', d'))
    {
      KeyInjective(ctx.seven, y, d, y', d');
    }
  }

  /** One pass of the loop over the samples: look both timestamps up and
      add the weighted difference of their means, if both are indexed. */
  method AddSample(ctx: Context, key: Instant, k: nat, difference: Score) returns (next: Score)
    requires k < SAMPLES
    ensures next == Step(Pairs(ctx, key)[k], ctx.weighting, k, difference)
  {
    var past := Lookup(ctx.history, ctx.hcol, key - k * TEN_MINUTES);
    var current := Lookup(ctx.current, ctx.ccol, ctx.now - k * TEN_MINUTES);
    PairAt(ctx, key, k);
    next := difference;
    if past.AtIndex? && current.AtIndex? {
      if difference.Num? && past.mean.Some? && current.mean.Some? {
        next := Num(difference.value + Term(past.mean.value, current.mean.value, ctx.weighting, k));
      } else {
        next := NaN;
      }
    }
  }

  /** The inner loop over the 29 samples of one candidate. */
  method ScoreCandidate(ctx: Context, years: int, days: int) returns (difference: Score)
    ensures difference == ScoreAt(ctx, years, days)
  {
    var key := Key(ctx.seven, years, days);
    ghost var ps := Pairs(ctx, key);
    difference := Num(0.0);
    var k := 0;
    while k < SAMPLES
      invariant 0 <= k <= SAMPLES
      invariant difference == Accumulate(ps[..k], ctx.weighting)
    {
      AccumulateNext(ps, ctx.weighting, k);
      difference := AddSample(ctx, key, k, difference);
      k := k + 1;
    }
    assert ps[..SAMPLES] == ps;
  }

  /** One pass of the inner loop over day offsets: score the candidate
      `years` back and `days` earlier and record it if its score is
      positive. */
  method RecordCandidate(ctx: Context, ghost sc: Scoring, years: int, days: int, differences: seq<Candidate>)
    returns (updated: seq<Candidate>)
    requires ScoresOf(sc, ctx)
    ensures updated == differences + Record(sc, years, days)
  {
    var key := Key(ctx.seven, years, days);
    var difference := ScoreCandidate(ctx, years, days);
    if difference.Num? && difference.value > 0.0 {
      updated := differences + [Candidate(years, days, key, difference.value)];
    } else {
      updated := differences;
    }
  }

  /** The loop over the fourteen day offsets of one year. */
  method SearchYear(ctx: Context, ghost sc: Scoring, years: int, differences: seq<Candidate>)
    returns (updated: seq<Candidate>)
    requires ScoresOf(sc, ctx)
    ensures updated == differences + RecordedDays(sc, years, DAYS)
  {
    updated := differences;
    var days := 0;
    while days < DAYS
      invariant 0 <= days <= DAYS
      invariant updated == differences + RecordedDays(sc, years, days)
    {
      updated := RecordCandidate(ctx, sc, years, days, updated);
      RecordedDaysNext(sc, years, days);
      days := days + 1;
    }
  }

  /** The two outer loops: every candidate of years `from` up to `until` and
      day offsets 0 to 13, recording those with a positive score. */
  method Search(ctx: Context, ghost sc: Scoring, from: int, until: int) returns (differences: seq<Candidate>)
    requires ScoresOf(sc, ctx)
    ensures differences == Recorded(sc, from, until)
  {
    differences := [];
    var years := from;
    RecordedEmpty(sc, from, from);
    while years < until
      invariant from <= years && (from <= until ==> years <= until) && (until < from ==> years == from)
      invariant differences == Recorded(sc, from, years)
    {
      differences := SearchYear(ctx, sc, years, differences);
      RecordedNext(sc, from, years);
      years := years + 1;
    }
    if until < from {
      RecordedEmpty(sc, from, until);
    }
  }

  /** `min(difference_dict, key=difference_dict.get)` over a non-empty
      dictionary: the first entry, in insertion order, with the smallest
      score. */
  method FirstMinimal(differences: seq<Candidate>) returns (best: nat)
    requires differences != []
    ensures best < |differences|
    ensures forall j :: 0 <= j < |differences| ==> differences[best].score <= differences[j].score
    ensures forall j :: 0 <= j < best ==> differences[best].score < differences[j].score
  {
    best := 0;
    var i := 1;
    while i < |differences|
      invariant best < i <= |differences|
      invariant forall j :: 0 <= j < i ==> differences[best].score <= differences[j].score
      invariant forall j :: 0 <= j < best ==> differences[best].score < differences[j].score
    {
      if differences[i].score < differences[best].score {
        best := i;
      }
      i := i + 1;
    }
  }

  lemma EmptyRecordMeansNoneCounts(sc: Scoring, from: int, until: int)
    ensures Recorded(sc, from, until) == [] <==> NoneCounts(sc, from, until)
  {
    if Recorded(sc, from, until) == [] {
      forall y, d | from <= y < until && 0 <= d < DAYS ensures !Counts(sc.score(y, d)) {
        var s := sc.score(y, d);
        if s.Num? {
          RecordedExactly(sc, from, until, Candidate(y, d, Key(sc.seven, y, d), s.value));
        }
      }
    } else {
      var c := Recorded(sc, from, until)[0];
      RecordedExactly(sc, from, until, c);
      assert Counts(sc.score(c.years, c.days));
    }
  }

  /** The first minimal entry of the dictionary is the best match. */
  lemma FirstMinimalIsBestMatch(sc: Scoring, from: int, until: int, best: nat)
    requires best < |Recorded(sc, from, until)|
    requires forall j :: 0 <= j < |Recorded(sc, from, until)| ==>
               Recorded(sc, from, until)[best].score <= Recorded(sc, from, until)[j].score
    requires forall j :: 0 <= j < best ==>
               Recorded(sc, from, until)[best].score < Recorded(sc, from, until)[j].score
    ensures IsBestMatch(sc, from, until, Recorded(sc, from, until)[best].date)
  {
    var cands := Recorded(sc, from, until);
    var c := cands[best];
    RecordedExactly(sc, from, until, c);
    RecordedOrdered(sc, from, until);
    var y, d := c.years, c.days;
    forall y', d' | from <= y' < until && 0 <= d' < DAYS && Counts(sc.score(y', d'))
      ensures sc.score(y, d).value <= sc.score(y', d').value
      ensures EnumeratedBefore(y', d', y, d) ==> sc.score(y, d).value < sc.score(y', d').value
    {
      var other := Candidate(y', d', Key(sc.seven, y', d'), sc.score(y', d').value);
      RecordedExactly(sc, from, until, other);
      var j :| 0 <= j < |cands| && cands[j] == other;
      assert best < j ==> EnumeratedBefore(y, d, y', d');
    }
  }

  /** One complete search over the years `from` up to `until`: the argmin of
      the recorded dictionary, or the `ValueError` of `min` over an empty
      one. */
  method BestMatch(ctx: Context, from: int, until: int) returns (r: Forecast)
    ensures r == Raised(NoCandidate) <==> NoneCounts(ScoringOf(ctx), from, until)
    ensures r != Raised(NoCandidate) ==> r.Found? && IsBestMatch(ScoringOf(ctx), from, until, r.date)
  {
    ghost var sc := ScoringOf(ctx);
    ScoringOfScores(ctx);
    var differences := Search(ctx, sc, from, until);
    EmptyRecordMeansNoneCounts(sc, from, until);
    if differences == [] {
      r := Raised(NoCandidate);
    } else {
      var best := FirstMinimal(differences);
      FirstMinimalIsBestMatch(sc, from, until, best);
      r := Found(differences[best].date);
    }
  }

  /** The exceptions a forecast call lets escape: `None` has no `.index`
      (`AttributeError`), `min` of an empty dictionary (`ValueError`), and a
      retry nested deeper than the interpreter allows (`RecursionError`). */
  datatype SearchError = MissingHistory | NoCandidate | RecursionLimit

  /** What a forecast call produces: `None` when there is no current data,
      the best-matching date, an escaping exception, or, for the retrying
      variant, no answer within the store states considered. */
  datatype Forecast = NoData | Found(date: Instant) | Raised(error: SearchError) | Pending

  predicate HasTemperature(f: Frame)
  {
    AIR_TEMPERATURE in f.columns
  }

  /** The search context for a call at `now`: both frames' temperature
      columns, `get_time_rounded(now)` and `get_time_rounded(now + 7 days)`. */
  function MakeContext(history: Frame, current: Frame, now: Instant, w: Weighting): (ctx: Context)
    requires HasTemperature(history) && HasTemperature(current)
    ensures ctx.history == history && ctx.current == current && ctx.weighting == w
    ensures ctx.hcol < |history.columns| && history.columns[ctx.hcol] == AIR_TEMPERATURE
    ensures ctx.ccol < |current.columns| && current.columns[ctx.ccol] == AIR_TEMPERATURE
    ensures ctx.now <= now < ctx.now + TEN_MINUTES && ctx.now % TEN_MINUTES == 0
    ensures ctx.seven == ctx.now + 7 * DAY
  {
    RoundDownShift(now, 7 * DAY);
    Context(history, ColumnIndex(history.columns, AIR_TEMPERATURE).value,
            current, ColumnIndex(current.columns, AIR_TEMPERATURE).value,
            RoundDown(now), RoundDown(now + 7 * DAY), w)
  }

  /** `r` is what a search at `now` over the years `from` up to `until`
      answers, given the historical data and present current data. */
  ghost predicate Answers(r: Forecast, history: Option<Frame>, current: Frame, now: Instant,
                          from: int, until: int, w: Weighting)
    requires HasTemperature(current) && (history.Some? ==> HasTemperature(history.value))
  {
    match history
    case None => r == Raised(if from < until then MissingHistory else NoCandidate)
    case Some(h) =>
      var sc := ScoringOf(MakeContext(h, current, now, w));
      (r == Raised(NoCandidate) && NoneCounts(sc, from, until)) || (r.Found? && IsBestMatch(sc, from, until, r.date))
  }

  /** The search once current data is present.  Missing historical data
      fails at the first membership test, unless no year is iterated. */
  method SearchAt(history: Option<Frame>, current: Frame, now: Instant, from: int, until: int, w: Weighting)
    returns (r: Forecast)
    requires HasTemperature(current) && (history.Some? ==> HasTemperature(history.value))
    ensures Answers(r, history, current, now, from, until, w)
  {
    if history.None? {
      r := Raised(if from < until then MissingHistory else NoCandidate);
    } else {
      var ctx := MakeContext(history.value, current, now, w);
      r := BestMatch(ctx, from, until);
    }
  }

  /** A search has one answer: two results that both answer the same
      search are equal. */
  lemma AnswersUnique(r1: Forecast, r2: Forecast, history: Option<Frame>, current: Frame, now: Instant,
                      from: int, until: int, w: Weighting)
    requires HasTemperature(current) && (history.Some? ==> HasTemperature(history.value))
    requires Answers(r1, history, current, now, from, until, w)
    requires Answers(r2, history, current, now, from, until, w)
    ensures r1 == r2
  {
    if history.Some? {
      var sc := ScoringOf(MakeContext(history.value, current, now, w));
      if r1.Found? && r2.Found? {
        BestMatchUnique(sc, from, until, r1.date, r2.date);
      }
    }
  }
}
