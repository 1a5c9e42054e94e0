/** `calculate_speed_vectorized` (gps_spoofing.py): the speed of each report of
    one vessel's group relative to the report before it. */
module SpoofingSpeed {
  import opened Wrappers

  /** One row of the dataset: `MMSI`, `# Timestamp` (whole seconds), `Latitude`
      and `Longitude`. A missing timestamp (NaT) or coordinate (NaN) is `None`. */
  datatype Report = Report(mmsi: int, ts: Option<int>, lat: Option<real>, lon: Option<real>)

  /** The floating-point collaborators, kept abstract: `dist` is the Haversine
      `calculate_distance(lat1, lon1, lat2, lon2)` in km, and `isInf` is the
      test `speed == np.inf` that a float division can satisfy and a real one
      cannot. */
  datatype Metric = Metric(dist: (real, real, real, real) -> real, isInf: real -> bool)

  const SecondsPerHour: real := 3600.0

  /** `column.shift(1)` read at position `i`: the previous row's value, and
      missing for the first row of the group. */
  function PrevTs(g: seq<Report>, i: nat): Option<int>
    requires i < |g|
  {
    if i == 0 then None else g[i - 1].ts
  }

  function PrevLat(g: seq<Report>, i: nat): Option<real>
    requires i < |g|
  {
    if i == 0 then None else g[i - 1].lat
  }

  function PrevLon(g: seq<Report>, i: nat): Option<real>
    requires i < |g|
  {
    if i == 0 then None else g[i - 1].lon
  }

  /** `group['# Timestamp'].diff().dt.total_seconds() / 3600` at position `i`:
      elapsed hours, missing when either timestamp is. */
  function RawTimeDiff(g: seq<Report>, i: nat): Option<real>
    requires i < |g|
  {
    match (PrevTs(g, i), g[i].ts)
    case (Some(a), Some(b)) => Some((b - a) as real / SecondsPerHour)
    case _ => None
  }

  /** The elapsed hours after `time_diff.replace(0, np.nan)`: a zero difference
      becomes missing, so no present value is zero and nothing else changes. */
  function TimeDiff(g: seq<Report>, i: nat): (h: Option<real>)
    requires i < |g|
    ensures h.Some? ==> h.value != 0.0
    ensures h.Some? <==> RawTimeDiff(g, i).Some? && RawTimeDiff(g, i).value != 0.0
    ensures h.Some? ==> h == RawTimeDiff(g, i)
  {
    match RawTimeDiff(g, i)
    case Some(d) => if d == 0.0 then None else Some(d)
    case None => None
  }

  /** `valid_idx`: elapsed time present and the previous position present. */
  predicate InMask(g: seq<Report>, i: nat)
    requires i < |g|
  {
    TimeDiff(g, i).Some? && PrevLat(g, i).Some? && PrevLon(g, i).Some?
  }

  /** `distances` after `np.zeros` and the masked assignment: zero outside the
      mask; inside it, the distance, which is NaN when the current position
      is missing. */
  function DistanceAt(g: seq<Report>, i: nat, m: Metric): Option<real>
    requires i < |g|
  {
    if !InMask(g, i) then Some(0.0)
    else match (g[i].lat, g[i].lon)
      case (Some(lat), Some(lon)) => Some(m.dist(PrevLat(g, i).value, PrevLon(g, i).value, lat, lon))
      case _ => None
  }

  /** `(distances / time_diff).fillna(0)` at position `i`. */
  function SpeedAt(g: seq<Report>, i: nat, m: Metric): real
    requires i < |g|
  {
    match (DistanceAt(g, i, m), TimeDiff(g, i))
    case (Some(d), Some(h)) => d / h
    case _ => 0.0
  }

  /** A consecutive pair carries a speed: both timestamps, both positions, and
      distinct timestamps. */
  predicate Measurable(prev: Report, cur: Report)
  {
    && prev.ts.Some? && cur.ts.Some? && prev.ts.value != cur.ts.value
    && prev.lat.Some? && prev.lon.Some? && cur.lat.Some? && cur.lon.Some?
  }

  /** Elapsed hours between two present timestamps; nonzero for a measurable pair. */
  function Hours(prev: Report, cur: Report): (h: real)
    requires prev.ts.Some? && cur.ts.Some?
    ensures h == 0.0 <==> prev.ts == cur.ts
  {
    (cur.ts.value - prev.ts.value) as real / SecondsPerHour
  }

  /** Distance over elapsed hours for a measurable pair. */
  function PairSpeed(prev: Report, cur: Report, m: Metric): real
    requires Measurable(prev, cur)
  {
    m.dist(prev.lat.value, prev.lon.value, cur.lat.value, cur.lon.value) / Hours(prev, cur)
  }

  /** The speed of sample `i` is distance over elapsed hours exactly when the
      sample has a predecessor and the pair is measurable, and 0 otherwise:
      the first report of a group, a zero elapsed time and any missing value
      all give 0, and none of them divides by zero. */
  lemma SpeedAtIff(g: seq<Report>, i: nat, m: Metric)
    requires i < |g|
    ensures SpeedAt(g, i, m) ==
      if i > 0 && Measurable(g[i - 1], g[i]) then PairSpeed(g[i - 1], g[i], m) else 0.0
  {
    if i > 0 && g[i - 1].ts.Some? && g[i].ts.Some? {
      assert RawTimeDiff(g, i) == Some(Hours(g[i - 1], g[i]));
    }
  }

  /** The zero-elapsed guard: two reports with the same timestamp give a
      missing time difference and speed 0, whatever their positions. */
  lemma SameTimestampSpeedZero(g: seq<Report>, i: nat, m: Metric)
    requires 0 < i < |g| && g[i - 1].ts.Some? && g[i - 1].ts == g[i].ts
    ensures TimeDiff(g, i) == None
    ensures SpeedAt(g, i, m) == 0.0
  {
    assert RawTimeDiff(g, i) == Some(0.0);
  }

  /** The first report of a group has a missing predecessor and speed 0. */
  lemma FirstSpeedZero(g: seq<Report>, m: Metric)
    requires |g| > 0
    ensures PrevTs(g, 0) == None && PrevLat(g, 0) == None && PrevLon(g, 0) == None
    ensures SpeedAt(g, 0, m) == 0.0
  {
  }

  /** The vectorised computation, step by step over arrays as pandas does it:
      the time-difference series, the in-place zero replacement, the zero
      distance array with its masked assignment, and the division with NaN
      filled by 0. The result is the speed of every sample. */
  method CalculateSpeedVectorized(g: seq<Report>, m: Metric) returns (speeds: seq<real>)
    ensures |speeds| == |g|
    ensures forall i :: 0 <= i < |g| ==> speeds[i] == SpeedAt(g, i, m)
  {
    var n := |g|;
    var timeDiff := new Option<real>[n];
    for i := 0 to n
      invariant forall k :: 0 <= k < i ==> timeDiff[k] == RawTimeDiff(g, k)
    {
      if i > 0 && g[i - 1].ts.Some? && g[i].ts.Some? {
        timeDiff[i] := Some((g[i].ts.value - g[i - 1].ts.value) as real / SecondsPerHour);
      } else {
        timeDiff[i] := None;
      }
    }

    // time_diff.replace(0, np.nan, inplace=True)
    for i := 0 to n
      invariant forall k :: 0 <= k < i ==> timeDiff[k] == TimeDiff(g, k)
      invariant forall k :: i <= k < n ==> timeDiff[k] == RawTimeDiff(g, k)
    {
      if timeDiff[i] == Some(0.0) {
        timeDiff[i] := None;
      }
    }

    var distances := new Option<real>[n](_ => Some(0.0));
    for i := 0 to n
      invariant forall k :: 0 <= k < n ==> timeDiff[k] == TimeDiff(g, k)
      invariant forall k :: 0 <= k < i ==> distances[k] == DistanceAt(g, k, m)
      invariant forall k :: i <= k < n ==> distances[k] == Some(0.0)
    {
      if timeDiff[i].Some? && i > 0 && g[i - 1].lat.Some? && g[i - 1].lon.Some? {
        if g[i].lat.Some? && g[i].lon.Some? {
          distances[i] := Some(m.dist(g[i - 1].lat.value, g[i - 1].lon.value, g[i].lat.value, g[i].lon.value));
        } else {
          distances[i] := None;
        }
      }
    }

    speeds := [];
    for i := 0 to n
      invariant forall k :: 0 <= k < n ==> timeDiff[k] == TimeDiff(g, k)
      invariant |speeds| == i
      invariant forall k :: 0 <= k < i ==> speeds[k] == SpeedAt(g, k, m)
    {
      var s := 0.0;
      if distances[i].Some? && timeDiff[i].Some? {
        s := distances[i].value / timeDiff[i].value;
      }
      speeds := speeds + [s];
    }
  }
}
