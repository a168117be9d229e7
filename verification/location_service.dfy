/** internal/location_service/location_processing.go: its own validateDate,
    which takes `+hh:mm` or `Z` offsets, and the distance accumulation of
    getTraveledDistance. */
module LocationService {
  import opened Lexical
  import Rfc3339
  import opened Models

  // ---------------------------------------------------------------------------
  // validateDate

  /** `^\d{4}-\d{2}-\d{2}T\d{2}:\d{2}:\d{2}(\+\d{2}:\d{2}|Z)$`, one shape per
      alternative. */
  const PlusPattern := "####-##-##T##:##:##+##:##"
  const UtcPattern := "####-##-##T##:##:##Z"

  /** The pattern, then `time.Parse(time.RFC3339, date)`. */
  function ValidateDate(date: string, strictOffset: bool): (ok: bool)
    ensures ok ==> (|date| == 25 && date[19] == '+') || (|date| == 20 && date[19] == 'Z')
  {
    (FitsShape(date, PlusPattern) || FitsShape(date, UtcPattern))
    && Rfc3339.Parse(date, strictOffset).Some?
  }

  /** What is accepted is a valid date-time with no fraction of a second and
      an offset that is UTC or ahead of it, written exactly as Format writes
      it. */
  lemma ValidateDateSound(date: string, strictOffset: bool)
    requires ValidateDate(date, strictOffset)
    ensures var r := Rfc3339.Parse(date, strictOffset);
            && r.Some? && Rfc3339.Valid(r.value, strictOffset)
            && r.value.secfrac == [] && (r.value.offset.Utc? || r.value.offset.plus)
            && Rfc3339.Format(r.value) == date
  {
    var dt := Rfc3339.Parse(date, strictOffset).value;
    Rfc3339.FormatParse(date, strictOffset);
    Rfc3339.FormatLayout(dt);
  }

  /** Every valid date-time with no fraction and an offset that is UTC or
      ahead of it is accepted in its printed form. */
  lemma ValidateDateComplete(dt: Rfc3339.DateTime, strictOffset: bool)
    requires Rfc3339.Valid(dt, strictOffset) && dt.secfrac == []
    requires dt.offset.Utc? || dt.offset.plus
    ensures ValidateDate(Rfc3339.Format(dt), strictOffset)
  {
    Rfc3339.ParseFormat(dt, strictOffset);
    if dt.offset.Utc? {
      Rfc3339.UtcFormatFitsShape(dt);
    } else {
      Rfc3339.NumericFormatFitsShape(dt);
    }
  }

  /** An offset behind UTC is never accepted, unlike in the command-line
      client's validateDate. */
  lemma ValidateDateRejectsMinus(date: string, strictOffset: bool)
    requires |date| > 19 && date[19] == '-'
    ensures !ValidateDate(date, strictOffset)
  {
  }

  // ---------------------------------------------------------------------------
  // The distance travelled

  /** The distance between consecutive locations `a` and `b`, by the
      great-circle function `dist` (haversine, taken as given). */
  function Leg(a: Location, b: Location, dist: (real, real, real, real) -> real): real {
    dist(a.latitude, a.longitude, b.latitude, b.longitude)
  }

  /** The length of the path through `locations` in list order: the first
      leg plus the length of the rest. */
  function PathLength(locations: seq<Location>, dist: (real, real, real, real) -> real): real
    decreases |locations|
  {
    if |locations| < 2 then 0.0
    else Leg(locations[0], locations[1], dist) + PathLength(locations[1..], dist)
  }

  /** The sum of the first `k` legs, added left to right as the loop adds them. */
  function LegsSum(locations: seq<Location>, k: nat, dist: (real, real, real, real) -> real): real
    requires k < |locations| || k == 0
  {
    if k == 0 then 0.0
    else LegsSum(locations, k - 1, dist) + Leg(locations[k - 1], locations[k], dist)
  }

  /** Dropping the first location takes its leg off the front of the sum. */
  lemma {:induction false} LegsSumTail(locations: seq<Location>, k: nat, dist: (real, real, real, real) -> real)
    requires 1 <= k < |locations|
    ensures LegsSum(locations, k, dist)
            == Leg(locations[0], locations[1], dist) + LegsSum(locations[1..], k - 1, dist)
  {
    if k > 1 {
      LegsSumTail(locations, k - 1, dist);
      assert locations[1..][k - 2] == locations[k - 1] && locations[1..][k - 1] == locations[k];
    }
  }

  /** The two ways of adding up the legs agree. */
  lemma {:induction false} PathLengthIsLegsSum(locations: seq<Location>, dist: (real, real, real, real) -> real)
    requires |locations| >= 1
    ensures PathLength(locations, dist) == LegsSum(locations, |locations| - 1, dist)
    decreases |locations|
  {
    if |locations| >= 2 {
      PathLengthIsLegsSum(locations[1..], dist);
      LegsSumTail(locations, |locations| - 1, dist);
    }
  }

  /** The loop of getTraveledDistance: `totalDistance += haversine(...)` for
      each `i` from 0 while `i < len(locations)-1`. */
  method TraveledDistance(locations: seq<Location>, haversine: (real, real, real, real) -> real)
    returns (totalDistance: real)
    ensures totalDistance == PathLength(locations, haversine)
  {
    totalDistance := 0.0;
    var i := 0;
    while i < |locations| - 1
      invariant 0 <= i && (i < |locations| || i == 0)
      invariant totalDistance == LegsSum(locations, i, haversine)
    {
      totalDistance := totalDistance + Leg(locations[i], locations[i + 1], haversine);
      i := i + 1;
    }
    if |locations| >= 1 {
      PathLengthIsLegsSum(locations, haversine);
    }
  }

  /** An empty list or a single location gives a total of 0. */
  lemma ShortPath(locations: seq<Location>, dist: (real, real, real, real) -> real)
    requires |locations| < 2
    ensures PathLength(locations, dist) == 0.0
  {
  }

  /** Two paths joined end to start: each keeps its own legs, and the one
      new leg joins the last location of the first to the first of the
      second. */
  lemma {:induction false} PathLengthConcat(a: seq<Location>, b: seq<Location>, dist: (real, real, real, real) -> real)
    requires |a| >= 1 && |b| >= 1
    ensures PathLength(a + b, dist)
            == PathLength(a, dist) + Leg(a[|a| - 1], b[0], dist) + PathLength(b, dist)
    decreases |a|
  {
    if |a| == 1 {
      assert (a + b)[1..] == b;
    } else {
      PathLengthConcat(a[1..], b, dist);
      assert (a + b)[1..] == a[1..] + b;
    }
  }

  /** Appending one location adds exactly the leg from the last one to it. */
  lemma PathLengthAppend(locations: seq<Location>, next: Location, dist: (real, real, real, real) -> real)
    requires |locations| >= 1
    ensures PathLength(locations + [next], dist)
            == PathLength(locations, dist) + Leg(locations[|locations| - 1], next, dist)
  {
    PathLengthConcat(locations, [next], dist);
  }

  /** With a distance that is never negative, neither is the total. */
  lemma {:induction false} PathLengthNonNegative(locations: seq<Location>, dist: (real, real, real, real) -> real)
    requires forall a, b, c, d :: dist(a, b, c, d) >= 0.0
    ensures PathLength(locations, dist) >= 0.0
    decreases |locations|
  {
    if |locations| >= 2 {
      PathLengthNonNegative(locations[1..], dist);
    }
  }
}
