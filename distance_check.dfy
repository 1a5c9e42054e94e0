/** task_1.py: each per-vessel CSV file is read 100 rows at a time, and within
    each chunk a row is reported when it lies more than 50 km from the row
    before it in the same chunk. */
module DistanceCheck {
  import opened Wrappers
  import opened Slicing

  const TimestampHeader: string := "# Timestamp"
  const TimestampColumn: string := "Timestamp"
  const DistanceColumn: string := "Distance"
  const LatitudeColumn: string := "Latitude"
  const LongitudeColumn: string := "Longitude"

  /** `chunk_size` of `pd.read_csv`. */
  const ChunkRows: nat := 100

  /** The distance, in km, above which a row is reported. */
  const DistanceLimitKm: real := 50.0

  /** One row of a per-vessel file: its timestamp text and its position, a
      missing coordinate (NaN) being `None`. Other columns ride along
      unmodelled. */
  datatype Fix = Fix(timestamp: string, lat: Option<real>, lon: Option<real>)

  /** A reported row together with its `Distance` cell. */
  datatype Flagged = Flagged(row: Fix, distanceKm: real)

  /** How `process_file` ends: anomalies printed, "No anomalies detected", or
      the exception handler's "Error processing". */
  datatype FileOutcome =
    | AnomaliesDetected(anomalies: seq<Flagged>)
    | NoAnomaliesDetected
    | ProcessingError

  /** `vectorized_haversine` between two rows, kept abstract as `dist`; NaN
      when any of the four coordinates is missing. */
  function PairDistance(prev: Fix, cur: Fix, dist: (real, real, real, real) -> real): Option<real>
  {
    if prev.lat.Some? && prev.lon.Some? && cur.lat.Some? && cur.lon.Some? then
      Some(dist(prev.lat.value, prev.lon.value, cur.lat.value, cur.lon.value))
    else None
  }

  /** The `Distance` column at row `i`: against the shifted previous row, so
      NaN for the first row of the chunk. */
  function DistanceAt(rows: seq<Fix>, i: nat, dist: (real, real, real, real) -> real): Option<real>
    requires i < |rows|
  {
    if i == 0 then None else PairDistance(rows[i - 1], rows[i], dist)
  }

  /** What row `i` contributes after `dropna(subset=['Distance'])` and the
      filter `Distance > 50`. */
  function Keep(rows: seq<Fix>, i: nat, dist: (real, real, real, real) -> real): seq<Flagged>
    requires i < |rows|
  {
    var d := DistanceAt(rows, i, dist);
    if d.Some? && d.value > DistanceLimitKm then [Flagged(rows[i], d.value)] else []
  }

  /** The selected rows among the first `n`, in row order. */
  function SelectedUpTo(rows: seq<Fix>, n: nat, dist: (real, real, real, real) -> real): seq<Flagged>
    requires n <= |rows|
  {
    if n == 0 then [] else SelectedUpTo(rows, n - 1, dist) + Keep(rows, n - 1, dist)
  }

  /** The positions among the first `n` that are selected. */
  function SelectedIndices(rows: seq<Fix>, n: nat, dist: (real, real, real, real) -> real): seq<nat>
    requires n <= |rows|
  {
    if n == 0 then [] else SelectedIndices(rows, n - 1, dist) + (if Keep(rows, n - 1, dist) != [] then [n - 1] else [])
  }

  /** The rows `process_chunk` returns. */
  function ChunkAnomalies(rows: seq<Fix>, dist: (real, real, real, real) -> real): seq<Flagged>
  {
    SelectedUpTo(rows, |rows|, dist)
  }

  /** `anomalies` after the loop: the chunk results concatenated in chunk order. */
  function AnomaliesOfChunks(chunks: seq<seq<Fix>>, dist: (real, real, real, real) -> real): seq<Flagged>
  {
    if chunks == [] then [] else ChunkAnomalies(chunks[0], dist) + AnomaliesOfChunks(chunks[1..], dist)
  }

  /** The chunks `pd.read_csv(..., chunksize=100)` yields: consecutive
      100-row slices, or, for a file with a header and no rows, one empty
      chunk (the reader's first read always returns a frame). */
  function ReaderChunks(rows: seq<Fix>): (cs: seq<seq<Fix>>)
    ensures cs != []
    ensures forall j :: 0 <= j < |cs| ==> |cs[j]| <= ChunkRows
    ensures cs == [[]] <==> rows == []
  {
    if rows == [] then [[]]
    else
      var cs := Slices(rows, ChunkRows);
      assert cs != [] && cs[0] != [];
      cs
  }

  function FileAnomalies(rows: seq<Fix>, dist: (real, real, real, real) -> real): seq<Flagged>
  {
    AnomaliesOfChunks(ReaderChunks(rows), dist)
  }

  /** `chunk.rename(columns={'# Timestamp': 'Timestamp'})`, applied only when
      the old name is present. */
  function RenameColumns(cols: seq<string>): (r: seq<string>)
    ensures |r| == |cols|
    ensures TimestampHeader !in r
    ensures TimestampHeader !in cols ==> r == cols
  {
    if TimestampHeader in cols then
      seq(|cols|, i requires 0 <= i < |cols| => if cols[i] == TimestampHeader then TimestampColumn else cols[i])
    else cols
  }

  predicate HasPosition(cols: seq<string>)
  {
    LatitudeColumn in cols && LongitudeColumn in cols
  }

  /** The outcome of `process_file`: a chunk without the position columns
      raises inside `process_chunk`; printing the anomalies needs a
      `Timestamp` column. */
  function Outcome(header: seq<string>, rows: seq<Fix>, dist: (real, real, real, real) -> real): FileOutcome
  {
    if !HasPosition(RenameColumns(header)) then ProcessingError
    else
      var a := FileAnomalies(rows, dist);
      if a == [] then NoAnomaliesDetected
      else if TimestampColumn !in RenameColumns(header) then ProcessingError
      else AnomaliesDetected(a)
  }

  // ---------------------------------------------------------------------
  // Properties

  /** The rename touches only `'# Timestamp'` cells, turns each into
      `'Timestamp'`, and leaves a header without it unchanged. */
  lemma RenameFacts(cols: seq<string>)
    ensures |RenameColumns(cols)| == |cols|
    ensures TimestampHeader !in RenameColumns(cols)
    ensures TimestampHeader !in cols ==> RenameColumns(cols) == cols
    ensures forall i :: 0 <= i < |cols| && cols[i] != TimestampHeader ==> RenameColumns(cols)[i] == cols[i]
    ensures forall i :: 0 <= i < |cols| && cols[i] == TimestampHeader ==> RenameColumns(cols)[i] == TimestampColumn
  {
  }

  /** Each reported row is the row at its selected position, paired with a
      present distance above 50 km to the row before it in the chunk. */
  predicate Pairs(rows: seq<Fix>, e: seq<nat>, r: seq<Flagged>, n: nat, dist: (real, real, real, real) -> real)
    requires n <= |rows|
  {
    && |e| == |r|
    && forall j :: 0 <= j < |e| ==>
         && 0 < e[j] < n
         && PairDistance(rows[e[j] - 1], rows[e[j]], dist).Some?
         && r[j] == Flagged(rows[e[j]], PairDistance(rows[e[j] - 1], rows[e[j]], dist).value)
         && r[j].distanceKm > DistanceLimitKm
  }

  /** Whether row `i` passes the test of `process_chunk`. */
  predicate Far(rows: seq<Fix>, i: nat, dist: (real, real, real, real) -> real)
    requires i < |rows|
  {
    i > 0 && PairDistance(rows[i - 1], rows[i], dist).Some? &&
    PairDistance(rows[i - 1], rows[i], dist).value > DistanceLimitKm
  }

  lemma {:induction false} SelectedPairs(rows: seq<Fix>, n: nat, dist: (real, real, real, real) -> real)
    requires n <= |rows|
    ensures Pairs(rows, SelectedIndices(rows, n, dist), SelectedUpTo(rows, n, dist), n, dist)
  {
    if n > 0 {
      SelectedPairs(rows, n - 1, dist);
    }
  }

  lemma {:induction false} SelectedMembership(rows: seq<Fix>, n: nat, dist: (real, real, real, real) -> real)
    requires n <= |rows|
    ensures forall j :: 0 <= j < |SelectedIndices(rows, n, dist)| ==> SelectedIndices(rows, n, dist)[j] < n
    ensures forall j1, j2 :: 0 <= j1 < j2 < |SelectedIndices(rows, n, dist)| ==>
      SelectedIndices(rows, n, dist)[j1] < SelectedIndices(rows, n, dist)[j2]
    ensures forall i :: 0 <= i < n ==> (i in SelectedIndices(rows, n, dist) <==> Far(rows, i, dist))
  {
    if n > 0 {
      SelectedMembership(rows, n - 1, dist);
    }
  }

  /** A chunk's result is exactly the rows at the selected positions, in
      increasing order: row `i` is reported iff it has a predecessor in the
      chunk, both positions are present, and their distance exceeds 50 km.
      In particular the first row of a chunk is never reported. */
  lemma ChunkAnomaliesIndexed(rows: seq<Fix>, dist: (real, real, real, real) -> real)
    ensures var e := SelectedIndices(rows, |rows|, dist);
      && Pairs(rows, e, ChunkAnomalies(rows, dist), |rows|, dist)
      && (forall j1, j2 :: 0 <= j1 < j2 < |e| ==> e[j1] < e[j2])
      && (forall i :: 0 <= i < |rows| ==> (i in e <==> Far(rows, i, dist)))
  {
    SelectedPairs(rows, |rows|, dist);
    SelectedMembership(rows, |rows|, dist);
  }

  /** The first row of a chunk has no shifted predecessor, so its distance is
      NaN, it is dropped, and it is never reported. */
  lemma {:induction false} FirstRowNeverReported(rows: seq<Fix>, dist: (real, real, real, real) -> real)
    requires rows != []
    ensures 0 !in SelectedIndices(rows, |rows|, dist)
    ensures forall j :: 0 <= j < |SelectedIndices(rows, |rows|, dist)| ==> SelectedIndices(rows, |rows|, dist)[j] >= 1
  {
    SelectedPairs(rows, |rows|, dist);
    SelectedMembership(rows, |rows|, dist);
  }

  /** Reference for the whole file: row `i` of the file is reported iff it is
      not the first row of its 100-row chunk and lies more than 50 km from
      row `i - 1`. Pairs across a chunk boundary are never compared. */
  function BoundaryAware(rows: seq<Fix>, n: nat, dist: (real, real, real, real) -> real): seq<Flagged>
    requires n <= |rows|
  {
    if n == 0 then []
    else BoundaryAware(rows, n - 1, dist) + (if (n - 1) % ChunkRows == 0 then [] else Keep(rows, n - 1, dist))
  }

  lemma {:induction false} BoundaryAwarePrefix(rows: seq<Fix>, n: nat, k: nat, dist: (real, real, real, real) -> real)
    requires n <= k <= |rows|
    ensures BoundaryAware(rows[..k], n, dist) == BoundaryAware(rows, n, dist)
  {
    if n > 0 {
      BoundaryAwarePrefix(rows, n - 1, k, dist);
      if n - 1 > 0 {
        assert rows[..k][n - 2] == rows[n - 2];
      }
    }
  }

  /** Within one chunk the reference and `process_chunk` agree. */
  lemma {:induction false} BoundaryAwareInChunk(rows: seq<Fix>, n: nat, dist: (real, real, real, real) -> real)
    requires n <= |rows| <= ChunkRows
    ensures BoundaryAware(rows, n, dist) == SelectedUpTo(rows, n, dist)
  {
    if n > 0 {
      BoundaryAwareInChunk(rows, n - 1, dist);
      assert (n - 1) % ChunkRows == 0 <==> n - 1 == 0;
    }
  }

  /** Row `ChunkRows + i` of a file is row `i` of the file without its first
      chunk, with the same predecessor when `i > 0`. */
  lemma KeepShift(rows: seq<Fix>, i: nat, dist: (real, real, real, real) -> real)
    requires 0 < i && ChunkRows + i < |rows|
    ensures Keep(rows[ChunkRows..], i, dist) == Keep(rows, ChunkRows + i, dist)
  {
    var rest := rows[ChunkRows..];
    assert rest[i] == rows[ChunkRows + i] && rest[i - 1] == rows[ChunkRows + i - 1];
  }

  lemma ModShift(i: nat)
    ensures (ChunkRows + i) % ChunkRows == i % ChunkRows
  {
  }

  /** Shifting by one chunk: the reference over `ChunkRows + n` rows is that of
      the first chunk followed by that of the rest. */
  lemma {:induction false} BoundaryAwareShift(rows: seq<Fix>, n: nat, dist: (real, real, real, real) -> real)
    requires ChunkRows + n <= |rows|
    ensures BoundaryAware(rows, ChunkRows + n, dist) ==
      BoundaryAware(rows, ChunkRows, dist) + BoundaryAware(rows[ChunkRows..], n, dist)
  {
    if n > 0 {
      BoundaryAwareShift(rows, n - 1, dist);
      ModShift(n - 1);
      if n - 1 > 0 {
        KeepShift(rows, n - 1, dist);
      }
    }
  }

  /** The file's anomalies, the per-chunk results concatenated in chunk
      order, are exactly the boundary-aware reference: every pair inside a
      chunk is tested and no pair across a boundary is. */
  lemma {:induction false} FileAnomaliesReference(rows: seq<Fix>, dist: (real, real, real, real) -> real)
    ensures FileAnomalies(rows, dist) == BoundaryAware(rows, |rows|, dist)
    decreases |rows|
  {
    if rows == [] {
      var none: seq<Fix> := [];
      assert AnomaliesOfChunks([none], dist) == ChunkAnomalies(none, dist) + AnomaliesOfChunks([], dist) by {
        assert [none][1..] == [];
      }
    } else if |rows| <= ChunkRows {
      BoundaryAwareInChunk(rows, |rows|, dist);
      assert Slices(rows, ChunkRows) == [rows];
      assert AnomaliesOfChunks([rows], dist) == ChunkAnomalies(rows, dist) + AnomaliesOfChunks([], dist) by {
        assert [rows][1..] == [];
      }
    } else {
      var first, rest := rows[..ChunkRows], rows[ChunkRows..];
      assert Slices(rows, ChunkRows) == [first] + Slices(rest, ChunkRows);
      FileAnomaliesReference(rest, dist);
      BoundaryAwareInChunk(first, ChunkRows, dist);
      BoundaryAwarePrefix(rows, ChunkRows, ChunkRows, dist);
      BoundaryAwareShift(rows, |rows| - ChunkRows, dist);
    }
  }

  /** "No anomalies detected" is printed exactly when the position columns are
      there (or there are no rows) and no row of the file passes the
      boundary-aware distance test. */
  lemma NoAnomaliesIff(header: seq<string>, rows: seq<Fix>, dist: (real, real, real, real) -> real)
    ensures Outcome(header, rows, dist) == NoAnomaliesDetected <==>
      HasPosition(RenameColumns(header)) &&
      forall i :: 0 <= i < |rows| && Tested(i) ==> !Far(rows, i, dist)
  {
    FileAnomaliesReference(rows, dist);
    BoundaryAwareEmpty(rows, |rows|, dist);
  }

  /** Row `i` is compared with its predecessor: it is not the first row of its
      100-row chunk. */
  predicate Tested(i: nat)
  {
    i % ChunkRows != 0
  }

  /** Row `i` contributes a report exactly when it passes the distance test. */
  lemma KeepFar(rows: seq<Fix>, i: nat, dist: (real, real, real, real) -> real)
    requires i < |rows|
    ensures |Keep(rows, i, dist)| == (if Far(rows, i, dist) then 1 else 0)
  {
  }

  /** The concatenation of `f(0), ..., f(n - 1)`. */
  function ConcatUpTo<T>(f: nat -> seq<T>, n: nat): seq<T>
  {
    if n == 0 then [] else ConcatUpTo(f, n - 1) + f(n - 1)
  }

  lemma {:induction false} ConcatUpToEmpty<T>(f: nat -> seq<T>, n: nat)
    ensures ConcatUpTo(f, n) == [] <==> forall i :: 0 <= i < n ==> f(i) == []
  {
    if n > 0 {
      ConcatUpToEmpty(f, n - 1);
    }
  }

  /** What row `i` contributes to the file reference. */
  function Entry(rows: seq<Fix>, i: nat, dist: (real, real, real, real) -> real): seq<Flagged>
  {
    if i < |rows| && Tested(i) then Keep(rows, i, dist) else []
  }

  function Entries(rows: seq<Fix>, dist: (real, real, real, real) -> real): nat -> seq<Flagged>
  {
    (i: nat) => Entry(rows, i, dist)
  }

  lemma {:induction false} BoundaryAwareConcat(rows: seq<Fix>, n: nat, dist: (real, real, real, real) -> real)
    requires n <= |rows|
    ensures BoundaryAware(rows, n, dist) == ConcatUpTo(Entries(rows, dist), n)
  {
    if n > 0 {
      BoundaryAwareConcat(rows, n - 1, dist);
    }
  }

  lemma {:induction false} BoundaryAwareEmpty(rows: seq<Fix>, n: nat, dist: (real, real, real, real) -> real)
    requires n <= |rows|
    ensures BoundaryAware(rows, n, dist) == [] <==>
      forall i :: 0 <= i < n && Tested(i) ==> !Far(rows, i, dist)
  {
    var f := Entries(rows, dist);
    BoundaryAwareConcat(rows, n, dist);
    ConcatUpToEmpty(f, n);
    forall i | 0 <= i < n
      ensures f(i) == [] <==> (Tested(i) ==> !Far(rows, i, dist))
    {
      KeepFar(rows, i, dist);
    }
  }

  // ---------------------------------------------------------------------
  // The operations

  /** A chunk of the CSV reader: a DataFrame that `process_chunk` changes in
      place (rename, new `Distance` column). */
  class CsvChunk {
    var columns: seq<string>
    var rows: seq<Fix>
    /** The `Distance` column once assigned; empty before. */
    var distance: seq<Option<real>>

    constructor (columns: seq<string>, rows: seq<Fix>)
      ensures this.columns == columns && this.rows == rows && distance == []
    {
      this.columns := columns;
      this.rows := rows;
      distance := [];
    }
  }

  /** `process_chunk`: rename the timestamp column in place, raise when a
      position column is missing, assign the `Distance` column, and return
      the rows whose distance is present and above 50 km. */
  method ProcessChunk(chunk: CsvChunk, dist: (real, real, real, real) -> real)
    returns (result: Result<seq<Flagged>, string>)
    modifies chunk
    ensures chunk.rows == old(chunk.rows)
    ensures result.Failure? <==> !HasPosition(RenameColumns(old(chunk.columns)))
    ensures result.Failure? ==> chunk.columns == RenameColumns(old(chunk.columns)) && chunk.distance == old(chunk.distance)
    ensures result.Success? ==>
      && chunk.columns == RenameColumns(old(chunk.columns)) + (if DistanceColumn in RenameColumns(old(chunk.columns)) then [] else [DistanceColumn])
      && |chunk.distance| == |chunk.rows|
      && (forall i :: 0 <= i < |chunk.rows| ==> chunk.distance[i] == DistanceAt(chunk.rows, i, dist))
      && result.value == ChunkAnomalies(chunk.rows, dist)
  {
    if TimestampHeader in chunk.columns {
      chunk.columns := RenameColumns(chunk.columns);
    }
    if !HasPosition(chunk.columns) {
      return Failure("KeyError");
    }
    var rows := chunk.rows;
    chunk.distance := seq(|rows|, i requires 0 <= i < |rows| => DistanceAt(rows, i, dist));
    if DistanceColumn !in chunk.columns {
      chunk.columns := chunk.columns + [DistanceColumn];
    }
    result := Success(ChunkAnomalies(rows, dist));
  }

  /** The loop of `process_file`: read 100-row chunks, run `process_chunk` on
      each, concatenate the results in chunk order, and report. */
  method ProcessFile(header: seq<string>, rows: seq<Fix>, dist: (real, real, real, real) -> real)
    returns (outcome: FileOutcome)
    ensures outcome == Outcome(header, rows, dist)
  {
    var chunks := ReaderChunks(rows);
    var anomalies: seq<Flagged> := [];
    for c := 0 to |chunks|
      invariant anomalies + AnomaliesOfChunks(chunks[c..], dist) == FileAnomalies(rows, dist)
      invariant c > 0 ==> HasPosition(RenameColumns(header))
    {
      var chunk := new CsvChunk(header, chunks[c]);
      var chunkAnomalies := ProcessChunk(chunk, dist);
      if chunkAnomalies.Failure? {
        return ProcessingError;
      }
      assert chunks[c..][1..] == chunks[c + 1..];
      anomalies := anomalies + chunkAnomalies.value;
    }
    assert chunks[|chunks|..] == [];
    if anomalies != [] {
      if TimestampColumn !in RenameColumns(header) {
        return ProcessingError;
      }
      outcome := AnomaliesDetected(anomalies);
    } else {
      outcome := NoAnomaliesDetected;
    }
  }
}
