/** delete_bad_files.py: drop the placeholder rows (latitude 91, longitude 0)
    of a per-vessel file, then delete a file whose vessel never moves and
    write the cleaned rows back otherwise. */
module BadRows {
  import opened Wrappers

  const LatitudeColumn: string := "Latitude"
  const LongitudeColumn: string := "Longitude"

  /** The placeholder position of a report without a fix. */
  const BadLatitude: real := 91.0
  const BadLongitude: real := 0.0

  /** A row's position, a missing cell (NaN) being `None`; the other columns
      are carried along unmodelled. */
  datatype Row = Row(lat: Option<real>, lon: Option<real>)

  /** What `process_file` does with the file. */
  datatype Decision =
    | Delete
    | Rewrite(rows: seq<Row>)
    | ProcessingError

  /** The mask of the filter: both comparisons hold. NaN compares unequal, so
      a row with a missing coordinate is never bad. */
  predicate IsBad(r: Row)
  {
    r.lat == Some(BadLatitude) && r.lon == Some(BadLongitude)
  }

  /** `df[~mask]`: the rows that are not bad, in their original order. */
  function Clean(rows: seq<Row>): (r: seq<Row>)
    ensures |r| <= |rows|
    ensures forall x :: x in r ==> x in rows && !IsBad(x)
  {
    if rows == [] then []
    else Clean(rows[..|rows| - 1]) + (if IsBad(rows[|rows| - 1]) then [] else [rows[|rows| - 1]])
  }

  /** Positions of the kept rows. */
  function KeptIndices(rows: seq<Row>): seq<nat>
  {
    if rows == [] then []
    else KeptIndices(rows[..|rows| - 1]) + (if IsBad(rows[|rows| - 1]) then [] else [|rows| - 1])
  }

  /** The present values of a column: what `nunique` counts. */
  function Distinct(vals: seq<Option<real>>): set<real>
  {
    set i | 0 <= i < |vals| && vals[i].Some? :: vals[i].value
  }

  function Latitudes(rows: seq<Row>): seq<Option<real>>
  {
    seq(|rows|, i requires 0 <= i < |rows| => rows[i].lat)
  }

  function Longitudes(rows: seq<Row>): seq<Option<real>>
  {
    seq(|rows|, i requires 0 <= i < |rows| => rows[i].lon)
  }

  /** Filter, then test `nunique() == 1` on both coordinates; a file without a
      position column raises and ends in the exception handler. */
  function Decide(header: seq<string>, rows: seq<Row>): (d: Decision)
    ensures d == ProcessingError <==> LatitudeColumn !in header || LongitudeColumn !in header
    ensures d.Rewrite? ==> d.rows == Clean(rows)
  {
    if LatitudeColumn !in header || LongitudeColumn !in header then ProcessingError
    else
      var kept := Clean(rows);
      if |Distinct(Latitudes(kept))| == 1 && |Distinct(Longitudes(kept))| == 1 then Delete
      else Rewrite(kept)
  }

  // ---------------------------------------------------------------------
  // Properties

  lemma {:induction false} CleanAppend(a: seq<Row>, b: seq<Row>)
    ensures Clean(a + b) == Clean(a) + Clean(b)
    decreases |b|
  {
    if b == [] {
      assert a + b == a;
    } else {
      var b0 := b[..|b| - 1];
      assert (a + b)[..|a + b| - 1] == a + b0;
      CleanAppend(a, b0);
    }
  }

  lemma {:induction false} KeptRows(rows: seq<Row>)
    ensures |KeptIndices(rows)| == |Clean(rows)|
    ensures forall j :: 0 <= j < |KeptIndices(rows)| ==>
      KeptIndices(rows)[j] < |rows| && Clean(rows)[j] == rows[KeptIndices(rows)[j]]
  {
    if rows != [] {
      var init := rows[..|rows| - 1];
      KeptRows(init);
    }
  }

  lemma {:induction false} KeptOrder(rows: seq<Row>)
    ensures forall j :: 0 <= j < |KeptIndices(rows)| ==> KeptIndices(rows)[j] < |rows|
    ensures forall j1, j2 :: 0 <= j1 < j2 < |KeptIndices(rows)| ==> KeptIndices(rows)[j1] < KeptIndices(rows)[j2]
    ensures forall i :: 0 <= i < |rows| ==> (i in KeptIndices(rows) <==> !IsBad(rows[i]))
  {
    if rows != [] {
      var init := rows[..|rows| - 1];
      KeptOrder(init);
    }
  }

  /** The filter keeps exactly the rows that are not bad, in their original
      order: the result is the rows at strictly increasing positions, and a
      position is among them iff its row is not bad. */
  lemma CleanIndexed(rows: seq<Row>)
    ensures var e, r := KeptIndices(rows), Clean(rows);
      && |e| == |r|
      && (forall j :: 0 <= j < |e| ==> e[j] < |rows| && r[j] == rows[e[j]])
      && (forall j1, j2 :: 0 <= j1 < j2 < |e| ==> e[j1] < e[j2])
      && (forall i :: 0 <= i < |rows| ==> (i in e <==> !IsBad(rows[i])))
  {
    KeptRows(rows);
    KeptOrder(rows);
  }

  /** Only the exact placeholder pair is dropped: a row at latitude 91 with
      another longitude, or at longitude 0 with another latitude, survives. */
  lemma NearMissesKept(rows: seq<Row>, i: nat)
    requires i < |rows|
    requires (rows[i].lat == Some(BadLatitude) && rows[i].lon != Some(BadLongitude)) ||
             (rows[i].lon == Some(BadLongitude) && rows[i].lat != Some(BadLatitude))
    ensures rows[i] in Clean(rows)
  {
    CleanIndexed(rows);
    var e := KeptIndices(rows);
    var j :| 0 <= j < |e| && e[j] == i;
    assert Clean(rows)[j] == rows[i];
  }

  /** Filtering a second time changes nothing. */
  lemma {:induction false} CleanIdempotent(rows: seq<Row>)
    ensures Clean(Clean(rows)) == Clean(rows)
  {
    if rows != [] {
      var init := rows[..|rows| - 1];
      var last := rows[|rows| - 1];
      CleanIdempotent(init);
      var tail := if IsBad(last) then [] else [last];
      CleanAppend(Clean(init), tail);
      if !IsBad(last) {
        assert Clean([last]) == Clean([]) + [last] by {
          assert [last][..0] == [];
        }
      }
    }
  }

  lemma SingletonCard(s: set<real>)
    ensures |s| == 1 <==> exists x :: s == {x}
  {
    if |s| == 1 {
      if forall y :: y !in s {
        assert false;
      }
      var x :| x in s;
      assert |s - {x}| == 0;
      assert s == {x};
    }
  }

  /** A column "does not change" when all its present values equal one value
      that occurs at least once. */
  predicate Constant(vals: seq<Option<real>>, x: real)
  {
    (exists i :: 0 <= i < |vals| && vals[i] == Some(x)) &&
    (forall i :: 0 <= i < |vals| ==> vals[i] == None || vals[i] == Some(x))
  }

  lemma {:induction false} DistinctSingleton(vals: seq<Option<real>>, x: real)
    ensures Distinct(vals) == {x} <==> Constant(vals, x)
  {
    if Distinct(vals) == {x} {
      assert x in Distinct(vals);
      forall i | 0 <= i < |vals|
        ensures vals[i] == None || vals[i] == Some(x)
      {
        if vals[i].Some? {
          assert vals[i].value in Distinct(vals);
        }
      }
    }
  }

  ghost predicate Stationary(vals: seq<Option<real>>)
  {
    exists a :: Constant(vals, a)
  }

  /** A column has exactly one distinct value iff it is constant. */
  lemma UniqueOnce(vals: seq<Option<real>>)
    ensures |Distinct(vals)| == 1 <==> Stationary(vals)
  {
    SingletonCard(Distinct(vals));
    if |Distinct(vals)| == 1 {
      var a :| Distinct(vals) == {a};
      DistinctSingleton(vals, a);
    }
    if exists a :: Constant(vals, a) {
      var a :| Constant(vals, a);
      DistinctSingleton(vals, a);
    }
  }

  /** The file is deleted iff, after the filter, the present latitudes are one
      value and the present longitudes are one value. */
  lemma DeleteIff(header: seq<string>, rows: seq<Row>)
    requires LatitudeColumn in header && LongitudeColumn in header
    ensures Decide(header, rows) == Delete <==>
      Stationary(Latitudes(Clean(rows))) && Stationary(Longitudes(Clean(rows)))
  {
    var kept := Clean(rows);
    UniqueOnce(Latitudes(kept));
    UniqueOnce(Longitudes(kept));
    assert Decide(header, rows) == Delete <==>
      |Distinct(Latitudes(kept))| == 1 && |Distinct(Longitudes(kept))| == 1;
  }

  /** Otherwise the cleaned rows are written back; in particular a file whose
      every row is bad (no distinct values left) is rewritten empty, not
      deleted. */
  lemma RewriteKeepsClean(header: seq<string>, rows: seq<Row>)
    requires LatitudeColumn in header && LongitudeColumn in header
    ensures Decide(header, rows).Rewrite? ==> Decide(header, rows).rows == Clean(rows)
    ensures (forall i :: 0 <= i < |rows| ==> IsBad(rows[i])) ==> Decide(header, rows) == Rewrite([])
  {
    CleanIndexed(rows);
    if forall i :: 0 <= i < |rows| ==> IsBad(rows[i]) {
      assert Distinct(Latitudes([])) == {};
    }
  }
}
