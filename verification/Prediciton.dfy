/** `lib/Prediciton.py`: the unweighted temperature search over every year
    back to 2007, which waits for the synchronisation to deliver current
    data by calling itself again. */
module Prediciton {
  import opened Time
  import opened Frames
  import opened AnalogSearch

  /** `range(1, year - 2006)`: the last year offset searched is
      `year - 2007`. */
  const BASE_YEAR: int := 2006

  /** What one call of `calculate_best_match` sees: the clock, the calendar
      year of the rounded clock, and the two frames the store returns at
      that moment.  Between two attempts the source imports the latest data
      from the weather service, which is what makes the next attempt see
      different frames. */
  datatype Attempt = Attempt(now: Instant, year: int, history: Option<Frame>, current: Option<Frame>)

  /** Both frames, where present, carry the temperature column. */
  predicate WellFormed(a: Attempt)
  {
    && (a.current.Some? ==> HasTemperature(a.current.value))
    && (a.history.Some? ==> HasTemperature(a.history.value))
  }

  /** The position of the first attempt that finds current data. */
  function FirstReady(attempts: seq<Attempt>): (r: Option<nat>)
    ensures r.None? <==> forall i :: 0 <= i < |attempts| ==> attempts[i].current.None?
    ensures r.Some? ==> && r.value < |attempts| && attempts[r.value].current.Some?
                        && forall j :: 0 <= j < r.value ==> attempts[j].current.None?
  {
    if attempts == [] then None
    else if attempts[0].current.Some? then Some(0)
    else match FirstReady(attempts[1..])
      case None => None
      case Some(i) => Some(i + 1)
  }

  /** `Prediciton.calculate_best_match`, given the successive attempts the
      retry makes.  Each attempt without current data triggers an import and
      a fresh, nested call; the first attempt with current data searches the
      years 1 up to `year - 2007` with unweighted scores.  `depth` is the
      number of nested calls the interpreter's recursion limit still allows:
      an attempt without current data when none is left raises
      `RecursionError`.  `Pending` stands for an answer still awaited when
      the attempts run out. */
  method CalculateBestMatch(attempts: seq<Attempt>, depth: nat) returns (r: Forecast)
    requires FirstReady(attempts).Some? ==> WellFormed(attempts[FirstReady(attempts).value])
    ensures r == Raised(RecursionLimit) <==> depth < |attempts| && FirstReady(attempts[..depth + 1]).None?
    ensures r == Pending <==> |attempts| <= depth && FirstReady(attempts).None?
    ensures FirstReady(attempts).Some? && FirstReady(attempts).value <= depth ==>
              var a := attempts[FirstReady(attempts).value];
              WellFormed(a) && Answers(r, a.history, a.current.value, a.now, 1, a.year - BASE_YEAR, Uniform)
    decreases |attempts|
  {
    if attempts == [] {
      return Pending;
    }
    var a := attempts[0];
    if a.current.Some? {
      r := SearchAt(a.history, a.current.value, a.now, 1, a.year - BASE_YEAR, Uniform);
    } else if depth == 0 {
      r := Raised(RecursionLimit);
    } else {
      if depth < |attempts| {
        assert attempts[..depth + 1][1..] == attempts[1..][..depth];
      }
      r := CalculateBestMatch(attempts[1..], depth - 1);
    }
  }

  /** Attempts made after the first one with current data change nothing. */
  lemma LaterAttemptsIgnored(attempts: seq<Attempt>, more: seq<Attempt>)
    requires FirstReady(attempts).Some?
    ensures FirstReady(attempts + more) == FirstReady(attempts)
  {
    var i := FirstReady(attempts).value;
    assert (attempts + more)[i] == attempts[i];
  }
}
