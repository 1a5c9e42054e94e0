/** `detect_spoofing_in_chunk` and `process_chunks_with_print`
    (gps_spoofing.py): per-vessel anomaly records for one chunk of reports. */
module SpoofingDetect {
  import opened Wrappers
  import opened SpoofingSpeed
  import opened SpoofingSort

  /** The default `speed_threshold`, in km/h. */
  const DefaultSpeedThreshold: real := 50.0

  const ImplausibleSpeed: string := "Implausible speed"

  /** One entry of a vessel's `'Anomalies'` list. Timestamps stay in seconds
      (their text formatting is not modelled). The current position and the
      distance are missing (NaN) when the current report lacks a coordinate,
      which only a negative threshold lets through. */
  datatype AnomalyRecord = AnomalyRecord(
    prevTs: int, curTs: int,
    prevLat: real, prevLon: real,
    curLat: Option<real>, curLon: Option<real>,
    distanceKm: Option<real>,
    reason: string,
    speed: real)

  /** What the loop raises: `strftime` on a missing current timestamp. */
  datatype DetectError = NaTTimestamp

  /** `anomalies_by_mmsi`: vessel identity to its `'Anomalies'` list. */
  type Anomalies = map<int, seq<AnomalyRecord>>

  /** Sample `i` is among `speeds[speeds > speed_threshold]` and passes the
      `== np.inf` test. */
  predicate Flagged(g: seq<Report>, i: nat, thr: real, m: Metric)
    requires i < |g|
  {
    SpeedAt(g, i, m) > thr && !m.isInf(SpeedAt(g, i, m))
  }

  /** A flagged sample without a current timestamp: formatting it raises. */
  predicate Raises(g: seq<Report>, i: nat, thr: real, m: Metric)
    requires i < |g|
  {
    Flagged(g, i, thr, m) && g[i].ts.None?
  }

  /** A flagged sample with its current timestamp and the previous timestamp,
      latitude and longitude all present: it yields a record. */
  predicate Emits(g: seq<Report>, i: nat, thr: real, m: Metric)
    requires i < |g|
  {
    && Flagged(g, i, thr, m) && g[i].ts.Some?
    && PrevTs(g, i).Some? && PrevLat(g, i).Some? && PrevLon(g, i).Some?
  }

  /** The scalar `calculate_distance` from the previous position to the
      current report, NaN when a current coordinate is missing. */
  function DistanceTo(prevLat: real, prevLon: real, cur: Report, m: Metric): Option<real>
  {
    match (cur.lat, cur.lon)
    case (Some(lat), Some(lon)) => Some(m.dist(prevLat, prevLon, lat, lon))
    case _ => None
  }

  /** The record the loop appends for sample `i`. */
  function RecordAt(g: seq<Report>, i: nat, m: Metric): AnomalyRecord
    requires i < |g| && g[i].ts.Some?
    requires PrevTs(g, i).Some? && PrevLat(g, i).Some? && PrevLon(g, i).Some?
  {
    AnomalyRecord(
      PrevTs(g, i).value, g[i].ts.value,
      PrevLat(g, i).value, PrevLon(g, i).value,
      g[i].lat, g[i].lon,
      DistanceTo(PrevLat(g, i).value, PrevLon(g, i).value, g[i], m),
      ImplausibleSpeed,
      SpeedAt(g, i, m))
  }

  /** Records of the samples before `n`, in sample order. */
  function RecordsUpTo(g: seq<Report>, n: nat, thr: real, m: Metric): seq<AnomalyRecord>
    requires n <= |g|
  {
    if n == 0 then []
    else RecordsUpTo(g, n - 1, thr, m) + (if Emits(g, n - 1, thr, m) then [RecordAt(g, n - 1, m)] else [])
  }

  /** The positions of the samples before `n` that yield a record. */
  function EmittedUpTo(g: seq<Report>, n: nat, thr: real, m: Metric): seq<nat>
    requires n <= |g|
  {
    if n == 0 then []
    else EmittedUpTo(g, n - 1, thr, m) + (if Emits(g, n - 1, thr, m) then [n - 1] else [])
  }

  function RecordsOf(g: seq<Report>, thr: real, m: Metric): seq<AnomalyRecord>
  {
    RecordsUpTo(g, |g|, thr, m)
  }

  predicate RaisesIn(g: seq<Report>, thr: real, m: Metric)
  {
    exists i :: 0 <= i < |g| && Raises(g, i, thr, m)
  }

  /** The time-ordered track of vessel `k` in a chunk: its group after sorting. */
  function Track(chunk: seq<Report>, k: int): seq<Report>
  {
    GroupOf(SortChunk(chunk), k)
  }

  /** The outcome of `detect_spoofing_in_chunk(chunk, thr)`: it raises if any
      group raises; otherwise a vessel has a key exactly when it has at least
      one record, holding its records in sample order. */
  function Detect(chunk: seq<Report>, thr: real, m: Metric): Result<Anomalies, DetectError>
  {
    var s := SortChunk(chunk);
    if exists k :: k in Mmsis(s) && RaisesIn(GroupOf(s, k), thr, m) then Failure(NaTTimestamp)
    else Success(map k | k in Mmsis(s) && RecordsOf(GroupOf(s, k), thr, m) != [] :: RecordsOf(GroupOf(s, k), thr, m))
  }

  // ---------------------------------------------------------------------
  // Properties of one group

  /** With a nonnegative threshold the emission rule is: the sample has a
      predecessor, the pair is measurable (both timestamps and positions
      present, elapsed time nonzero), and distance over elapsed hours is above
      the threshold and not infinite. */
  lemma EmitsIff(g: seq<Report>, i: nat, thr: real, m: Metric)
    requires i < |g| && thr >= 0.0
    ensures Emits(g, i, thr, m) <==>
      i > 0 && Measurable(g[i - 1], g[i]) &&
      PairSpeed(g[i - 1], g[i], m) > thr && !m.isInf(PairSpeed(g[i - 1], g[i], m))
    ensures !Raises(g, i, thr, m)
  {
    SpeedAtIff(g, i, m);
  }

  /** A record is emitted for sample `i` exactly when `Emits` holds; the
      records are those of the emitting positions, in increasing order. */
  lemma {:induction false} RecordsIndexed(g: seq<Report>, n: nat, thr: real, m: Metric)
    requires n <= |g|
    ensures var e, r := EmittedUpTo(g, n, thr, m), RecordsUpTo(g, n, thr, m);
      && |e| == |r|
      && (forall j :: 0 <= j < |e| ==> e[j] < n && Emits(g, e[j], thr, m) && r[j] == RecordAt(g, e[j], m))
      && (forall j1, j2 :: 0 <= j1 < j2 < |e| ==> e[j1] < e[j2])
      && (forall i :: 0 <= i < n ==> (Emits(g, i, thr, m) <==> i in e))
  {
    if n > 0 {
      RecordsIndexed(g, n - 1, thr, m);
    }
  }

  /** One record of a time-ordered group: its previous timestamp is not after
      its current one, and strictly before it under a nonnegative threshold. */
  lemma RecordTimes(g: seq<Report>, thr: real, m: Metric, j: nat)
    requires TimeOrdered(g) && j < |RecordsOf(g, thr, m)|
    ensures RecordsOf(g, thr, m)[j].prevTs <= RecordsOf(g, thr, m)[j].curTs
    ensures thr >= 0.0 ==> RecordsOf(g, thr, m)[j].prevTs < RecordsOf(g, thr, m)[j].curTs
  {
    RecordsIndexed(g, |g|, thr, m);
    var i := EmittedUpTo(g, |g|, thr, m)[j];
    assert 0 < i;
    if thr >= 0.0 {
      EmitsIff(g, i, thr, m);
    }
  }

  /** Two records of a time-ordered group: the later one's current timestamp
      is not before the earlier one's, and strictly after it under a
      nonnegative threshold. */
  lemma RecordsAscend(g: seq<Report>, thr: real, m: Metric, j1: nat, j2: nat)
    requires TimeOrdered(g) && j1 < j2 < |RecordsOf(g, thr, m)|
    ensures RecordsOf(g, thr, m)[j1].curTs <= RecordsOf(g, thr, m)[j2].curTs
    ensures thr >= 0.0 ==> RecordsOf(g, thr, m)[j1].curTs < RecordsOf(g, thr, m)[j2].curTs
  {
    RecordsIndexed(g, |g|, thr, m);
    var e := EmittedUpTo(g, |g|, thr, m);
    var a, b := e[j1], e[j2];
    assert a < b && b > 0;
    assert g[a].ts.value <= g[b - 1].ts.value;
    if thr >= 0.0 {
      EmitsIff(g, b, thr, m);
    }
  }

  /** In a time-ordered group the records come in chronological order: each
      record's previous timestamp is not after its current one and the
      current timestamps do not decrease; with a nonnegative threshold both
      orders are strict. */
  lemma RecordsChronological(g: seq<Report>, thr: real, m: Metric)
    requires TimeOrdered(g)
    ensures var r := RecordsOf(g, thr, m);
      && (forall j :: 0 <= j < |r| ==> r[j].prevTs <= r[j].curTs)
      && (forall j1, j2 :: 0 <= j1 < j2 < |r| ==> r[j1].curTs <= r[j2].curTs)
      && (thr >= 0.0 ==> forall j :: 0 <= j < |r| ==> r[j].prevTs < r[j].curTs)
      && (thr >= 0.0 ==> forall j1, j2 :: 0 <= j1 < j2 < |r| ==> r[j1].curTs < r[j2].curTs)
  {
    forall j | 0 <= j < |RecordsOf(g, thr, m)| {
      RecordTimes(g, thr, m, j);
    }
    forall j1, j2 | 0 <= j1 < j2 < |RecordsOf(g, thr, m)| {
      RecordsAscend(g, thr, m, j1, j2);
    }
  }

  /** The first sample of a group never yields a record, so a group of at most
      one report has none. */
  lemma ShortGroupNoRecords(g: seq<Report>, thr: real, m: Metric)
    requires |g| <= 1
    ensures RecordsOf(g, thr, m) == []
  {
    if |g| == 1 {
      assert !Emits(g, 0, thr, m);
      assert RecordsOf(g, thr, m) == RecordsUpTo(g, 0, thr, m) + [];
    }
  }

  // ---------------------------------------------------------------------
  // Properties of the chunk result

  /** A vessel's track is exactly that vessel's reports, ordered by time with
      missing timestamps last. */
  lemma TrackFacts(chunk: seq<Report>, k: int)
    ensures multiset(Track(chunk, k)) == multiset(GroupOf(chunk, k))
    ensures forall r :: r in Track(chunk, k) ==> r in chunk && r.mmsi == k
    ensures TimeOrdered(Track(chunk, k))
  {
    GroupOfSortChunk(chunk, k);
    SortChunkSorted(chunk);
    GroupOfSortedTimeOrdered(SortChunk(chunk), k);
    forall r | r in Track(chunk, k) ensures r in chunk {
      assert r in multiset(GroupOf(chunk, k));
    }
  }

  /** With a nonnegative threshold (the default is 50.0) the chunk never
      raises. */
  lemma DetectSucceeds(chunk: seq<Report>, thr: real, m: Metric)
    requires thr >= 0.0
    ensures Detect(chunk, thr, m).Success?
  {
    var s := SortChunk(chunk);
    forall k | k in Mmsis(s) ensures !RaisesIn(GroupOf(s, k), thr, m) {
      forall i | 0 <= i < |GroupOf(s, k)| ensures !Raises(GroupOf(s, k), i, thr, m) {
        EmitsIff(GroupOf(s, k), i, thr, m);
      }
    }
  }

  /** A vessel key is present exactly when the vessel occurs in the chunk and
      its track yields at least one record (keys are created lazily), and it
      maps to those records. */
  lemma DetectKeys(chunk: seq<Report>, thr: real, m: Metric, k: int)
    requires Detect(chunk, thr, m).Success?
    ensures var d := Detect(chunk, thr, m).value;
      && (k in d <==> (exists r :: r in chunk && r.mmsi == k) && RecordsOf(Track(chunk, k), thr, m) != [])
      && (k in d ==> d[k] == RecordsOf(Track(chunk, k), thr, m) && d[k] != [])
  {
    MmsisSortChunk(chunk);
  }

  /** Within a key the records are in chronological order; with a
      nonnegative threshold strictly so. */
  lemma DetectChronological(chunk: seq<Report>, thr: real, m: Metric, k: int)
    requires Detect(chunk, thr, m).Success? && k in Detect(chunk, thr, m).value
    ensures var r := Detect(chunk, thr, m).value[k];
      && (forall j1, j2 :: 0 <= j1 < j2 < |r| ==> r[j1].curTs <= r[j2].curTs)
      && (thr >= 0.0 ==> forall j :: 0 <= j < |r| ==> r[j].prevTs < r[j].curTs)
      && (thr >= 0.0 ==> forall j1, j2 :: 0 <= j1 < j2 < |r| ==> r[j1].curTs < r[j2].curTs)
  {
    TrackFacts(chunk, k);
    RecordsChronological(Track(chunk, k), thr, m);
  }

  /** Every record of a group is an implausible-speed record above the
      threshold and finite; with a nonnegative threshold its distance is
      present and its speed is that distance over the nonzero elapsed hours. */
  lemma RecordFacts(g: seq<Report>, thr: real, m: Metric, j: nat)
    requires j < |RecordsOf(g, thr, m)|
    ensures var rec := RecordsOf(g, thr, m)[j];
      && rec.reason == ImplausibleSpeed && rec.speed > thr && !m.isInf(rec.speed)
      && (thr >= 0.0 ==>
           && rec.distanceKm.Some? && rec.curLat.Some? && rec.curLon.Some? && rec.prevTs != rec.curTs
           && rec.distanceKm.value == m.dist(rec.prevLat, rec.prevLon, rec.curLat.value, rec.curLon.value)
           && rec.speed == rec.distanceKm.value / ((rec.curTs - rec.prevTs) as real / SecondsPerHour))
  {
    RecordsIndexed(g, |g|, thr, m);
    var i := EmittedUpTo(g, |g|, thr, m)[j];
    if thr >= 0.0 {
      EmitsIff(g, i, thr, m);
      SpeedAtIff(g, i, m);
      assert Hours(g[i - 1], g[i]) == (g[i].ts.value - g[i - 1].ts.value) as real / SecondsPerHour;
    }
  }

  /** A vessel with at most one report in the chunk never gets a key. */
  lemma SingleReportNoAnomaly(chunk: seq<Report>, thr: real, m: Metric, k: int)
    requires |GroupOf(chunk, k)| <= 1
    requires Detect(chunk, thr, m).Success?
    ensures k !in Detect(chunk, thr, m).value
  {
    TrackFacts(chunk, k);
    assert |Track(chunk, k)| == |multiset(GroupOf(chunk, k))|;
    ShortGroupNoRecords(Track(chunk, k), thr, m);
  }

  /** A group whose reports all carry one timestamp yields no record under a
      nonnegative threshold: the zero-elapsed guard makes every speed 0. */
  lemma SameTimestampNoRecords(g: seq<Report>, thr: real, m: Metric)
    requires thr >= 0.0
    requires forall i :: 0 <= i < |g| ==> g[i].ts == g[0].ts
    ensures RecordsOf(g, thr, m) == []
  {
    forall i | 0 <= i < |g| ensures !Emits(g, i, thr, m) {
      EmitsIff(g, i, thr, m);
    }
    NoEmitsNoRecords(g, |g|, thr, m);
  }

  lemma {:induction false} NoEmitsNoRecords(g: seq<Report>, n: nat, thr: real, m: Metric)
    requires n <= |g|
    requires forall i :: 0 <= i < n ==> !Emits(g, i, thr, m)
    ensures RecordsUpTo(g, n, thr, m) == []
  {
    if n > 0 {
      NoEmitsNoRecords(g, n - 1, thr, m);
    }
  }

  /** A vessel whose reports all carry the same timestamp never gets a key. */
  lemma SameTimestampNoAnomaly(chunk: seq<Report>, thr: real, m: Metric, k: int)
    requires thr >= 0.0
    requires forall a, b :: a in chunk && b in chunk && a.mmsi == k && b.mmsi == k ==> a.ts == b.ts
    ensures Detect(chunk, thr, m).Success?
    ensures k !in Detect(chunk, thr, m).value
  {
    DetectSucceeds(chunk, thr, m);
    TrackFacts(chunk, k);
    var g := Track(chunk, k);
    forall i | 0 <= i < |g| ensures g[i].ts == g[0].ts {
      assert g[i] in g && g[0] in g;
    }
    SameTimestampNoRecords(g, thr, m);
    DetectKeys(chunk, thr, m, k);
  }

  // ---------------------------------------------------------------------
  // The loop itself

  /** The dictionary state after the groups of the vessels in `s[..i]`. */
  ghost function Partial(s: seq<Report>, i: nat, thr: real, m: Metric): Anomalies
    requires i <= |s|
  {
    map k | k in Mmsis(s[..i]) && RecordsOf(GroupOf(s, k), thr, m) != [] :: RecordsOf(GroupOf(s, k), thr, m)
  }

  /** `d` with key `k` bound to `rs`, or `d` itself when `rs` is empty:
      the lazily created key. */
  function WithRecords(d: Anomalies, k: int, rs: seq<AnomalyRecord>): Anomalies
  {
    if rs == [] then d else d[k := rs]
  }

  /** No vessel among the first `i` reports of `s` has a raising group. */
  ghost predicate NoneRaiseBefore(s: seq<Report>, i: nat, thr: real, m: Metric)
    requires i <= |s|
  {
    forall k :: k in Mmsis(s[..i]) ==> !RaisesIn(GroupOf(s, k), thr, m)
  }

  /** The loop's state after the groups of the vessels in `s[..i]`: none of
      them raised and the dictionary holds their records. */
  ghost predicate Walked(s: seq<Report>, i: nat, thr: real, m: Metric, anomalies: Anomalies)
    requires i <= |s|
  {
    NoneRaiseBefore(s, i, thr, m) && anomalies == Partial(s, i, thr, m)
  }

  /** The next maximal run of a sorted chunk is a vessel's whole group, and
      that vessel has no key yet. */
  lemma GroupStep(chunk: seq<Report>, s: seq<Report>, i: nat, j: nat, k: int, thr: real, m: Metric)
    requires s == SortChunk(chunk)
    requires i < j <= |s|
    requires forall t :: i <= t < j ==> s[t].mmsi == k
    requires i == 0 || s[i - 1].mmsi != k
    requires j == |s| || s[j].mmsi != k
    ensures GroupOf(s, k) == s[i..j] && k in Mmsis(s)
    ensures k !in Partial(s, i, thr, m)
  {
    SortChunkSorted(chunk);
    GroupIsRun(s, i, j, k);
    PartialStep(s, i, j, k, thr, m);
    assert s[i] in s;
  }

  /** The loop's state after a run that does not raise: the dictionary with
      that vessel's records added lazily is the specification after `s[..j]`,
      and still no vessel seen so far raises. */
  lemma GroupAdvance(chunk: seq<Report>, s: seq<Report>, i: nat, j: nat, k: int, thr: real, m: Metric, before: Anomalies, after: Anomalies)
    requires s == SortChunk(chunk)
    requires i < j <= |s|
    requires forall t :: i <= t < j ==> s[t].mmsi == k
    requires i == 0 || s[i - 1].mmsi != k
    requires j == |s| || s[j].mmsi != k
    requires Walked(s, i, thr, m, before)
    requires !RaisesIn(s[i..j], thr, m)
    requires after == WithRecords(before, k, RecordsOf(s[i..j], thr, m))
    ensures Walked(s, j, thr, m, after)
  {
    SortChunkSorted(chunk);
    GroupIsRun(s, i, j, k);
    PartialStep(s, i, j, k, thr, m);
  }

  lemma PartialStep(s: seq<Report>, i: nat, j: nat, k: int, thr: real, m: Metric)
    requires i <= j <= |s|
    requires k !in Mmsis(s[..i])
    requires Mmsis(s[..j]) == Mmsis(s[..i]) + {k}
    ensures k !in Partial(s, i, thr, m)
    ensures Partial(s, j, thr, m) == WithRecords(Partial(s, i, thr, m), k, RecordsOf(GroupOf(s, k), thr, m))
  {
  }

  lemma DetectFails(chunk: seq<Report>, thr: real, m: Metric, k: int)
    requires k in Mmsis(SortChunk(chunk))
    requires RaisesIn(GroupOf(SortChunk(chunk), k), thr, m)
    ensures Detect(chunk, thr, m) == Failure(NaTTimestamp)
  {
  }

  lemma DetectSucceedsWith(chunk: seq<Report>, thr: real, m: Metric, anomalies: Anomalies)
    requires Walked(SortChunk(chunk), |SortChunk(chunk)|, thr, m, anomalies)
    ensures Detect(chunk, thr, m) == Success(anomalies)
  {
    var s := SortChunk(chunk);
    assert s[..|s|] == s;
  }

  /** The inner loop of `detect_spoofing_in_chunk` over one vessel's group:
      compute the speeds, and for each implausible sample skip the infinite
      ones, format the timestamp (which raises on NaT), skip those without a
      previous report, create the vessel's key on first use and append. */
  method ScanGroup(group: seq<Report>, mmsi: int, thr: real, m: Metric, before: Anomalies)
    returns (result: Result<Anomalies, DetectError>)
    requires mmsi !in before
    ensures result.Failure? <==> RaisesIn(group, thr, m)
    ensures result.Success? ==> result.value == WithRecords(before, mmsi, RecordsOf(group, thr, m))
  {
    var speeds := CalculateSpeedVectorized(group, m);
    var anomalies := before;
    for idx := 0 to |group|
      invariant forall t :: 0 <= t < idx ==> !Raises(group, t, thr, m)
      invariant anomalies == WithRecords(before, mmsi, RecordsUpTo(group, idx, thr, m))
    {
      ghost var done := RecordsUpTo(group, idx, thr, m);
      assert RecordsUpTo(group, idx + 1, thr, m) ==
        done + (if Emits(group, idx, thr, m) then [RecordAt(group, idx, m)] else []);
      var speed := speeds[idx];
      if speed <= thr || m.isInf(speed) {
        assert !Flagged(group, idx, thr, m);
        assert RecordsUpTo(group, idx + 1, thr, m) == done;
        assert anomalies == WithRecords(before, mmsi, RecordsUpTo(group, idx + 1, thr, m));
        assert !Raises(group, idx, thr, m);
        continue;
      }
      assert Flagged(group, idx, thr, m);
      if group[idx].ts.None? {
        assert Raises(group, idx, thr, m);
        result := Failure(NaTTimestamp);
        return;
      }
      var timestamp := group[idx].ts.value;
      var latitude, longitude := group[idx].lat, group[idx].lon;
      var prevTime, prevLat, prevLon := PrevTs(group, idx), PrevLat(group, idx), PrevLon(group, idx);
      if prevTime.None? || prevLat.None? || prevLon.None? {
        assert !Emits(group, idx, thr, m);
        assert RecordsUpTo(group, idx + 1, thr, m) == done;
        assert anomalies == WithRecords(before, mmsi, RecordsUpTo(group, idx + 1, thr, m));
        assert !Raises(group, idx, thr, m);
        continue;
      }
      assert Emits(group, idx, thr, m);
      var distance := DistanceTo(prevLat.value, prevLon.value, group[idx], m);
      if mmsi !in anomalies {
        assert done == [];
        anomalies := anomalies[mmsi := []];
      }
      assert anomalies[mmsi] == done;
      var rec := AnomalyRecord(prevTime.value, timestamp, prevLat.value, prevLon.value,
                               latitude, longitude, distance, ImplausibleSpeed, speed);
      assert rec == RecordAt(group, idx, m);
      anomalies := anomalies[mmsi := anomalies[mmsi] + [rec]];
      assert anomalies == before[mmsi := done + [rec]];
      assert RecordsUpTo(group, idx + 1, thr, m) == done + [rec];
      assert anomalies == WithRecords(before, mmsi, RecordsUpTo(group, idx + 1, thr, m));
      assert !Raises(group, idx, thr, m);
    }
    assert group[..] == group;
    result := Success(anomalies);
  }

  /** The nested loop of `detect_spoofing_in_chunk`: sort, walk the groups,
      compute their speeds, and for each implausible sample skip the infinite
      ones, format the timestamp (which raises on NaT), skip those without a
      previous report, create the vessel's key on first use and append. */
  method DetectSpoofingInChunk(chunk: seq<Report>, thr: real, m: Metric)
    returns (result: Result<Anomalies, DetectError>)
    ensures result == Detect(chunk, thr, m)
  {
    var s := SortChunk(chunk);
    var anomalies: Anomalies := map[];
    var i := 0;
    while i < |s|
      invariant 0 <= i <= |s|
      invariant 0 < i < |s| ==> s[i - 1].mmsi != s[i].mmsi
      invariant Walked(s, i, thr, m, anomalies)
    {
      var mmsi := s[i].mmsi;
      var j := i + 1;
      while j < |s| && s[j].mmsi == mmsi
        invariant i < j <= |s|
        invariant forall t :: i <= t < j ==> s[t].mmsi == mmsi
      {
        j := j + 1;
      }
      var group := s[i..j];
      GroupStep(chunk, s, i, j, mmsi, thr, m);
      var scanned := ScanGroup(group, mmsi, thr, m, anomalies);
      if scanned.Failure? {
        DetectFails(chunk, thr, m, mmsi);
        result := Failure(NaTTimestamp);
        return;
      }
      GroupAdvance(chunk, s, i, j, mmsi, thr, m, anomalies, scanned.value);
      anomalies := scanned.value;
      i := j;
    }
    DetectSucceedsWith(chunk, thr, m, anomalies);
    result := Success(anomalies);
  }

  /** `process_chunks_with_print`: no anomalies for an empty chunk; otherwise
      the chunk's dictionary wrapped in a one-element list when it is
      nonempty, and an empty list when it is empty. */
  method ProcessChunksWithPrint(chunk: seq<Report>, m: Metric) returns (anomalies: seq<Anomalies>)
    ensures |anomalies| <= 1
    ensures anomalies == [] <==> |chunk| == 0 || Detect(chunk, DefaultSpeedThreshold, m) == Success(map[])
    ensures anomalies != [] ==> Detect(chunk, DefaultSpeedThreshold, m) == Success(anomalies[0])
  {
    anomalies := [];
    if |chunk| == 0 {
      return;
    }
    DetectSucceeds(chunk, DefaultSpeedThreshold, m);
    var chunkAnomalies := DetectSpoofingInChunk(chunk, DefaultSpeedThreshold, m);
    if chunkAnomalies.value != map[] {
      anomalies := anomalies + [chunkAnomalies.value];
    }
  }
}
