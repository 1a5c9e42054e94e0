/** `split_csv_into_chunks` (gps_spoofing.py): the row-range partition of the
    whole dataset into at most `num_chunks` consecutive chunks. */
module SpoofingChunks {
  import opened Wrappers
  import opened Slicing

  /** What Python raises inside `split_csv_into_chunks`. */
  datatype SplitError =
    | ZeroDivision  // `len(df) / 0`
    | ZeroStep      // `range(0, len(df), 0)`

  /** `int(np.ceil(n / k))`: the least integer not below the quotient, stated
      for either sign of `k` by multiplying through. (For `n` below 2^53 the
      floating-point quotient rounds to the same ceiling.) */
  function ChunkSize(n: nat, k: int): (s: int)
    requires k != 0
    ensures k > 0 ==> (s - 1) * k < n <= s * k
    ensures k < 0 ==> s * k <= n < (s - 1) * k
  {
    if k > 0 then
      var q := (n + k - 1) / k;
      assert q * k <= n + k - 1 < q * k + k;
      assert (q - 1) * k == q * k - k;
      q
    else
      var q := n / -k;
      assert q * -k <= n < q * -k - k;
      assert (-q - 1) * k == q * -k - k;
      -q
  }

  /** `[df.iloc[i:i + chunk_size] for i in range(0, len(df), chunk_size)]`
      with `chunk_size = int(np.ceil(len(df) / num_chunks))`, including the
      two ways that expression raises and the empty range a negative step
      gives. */
  function SplitIntoChunks<T>(rows: seq<T>, numChunks: int): (r: Result<seq<seq<T>>, SplitError>)
    ensures r == Failure(ZeroDivision) <==> numChunks == 0
    ensures r.Success? ==> forall j :: 0 <= j < |r.value| ==> 0 < |r.value[j]|
  {
    if numChunks == 0 then Failure(ZeroDivision)
    else
      var size := ChunkSize(|rows|, numChunks);
      if size == 0 then Failure(ZeroStep)
      else if size < 0 then Success([])
      else Success(Slices(rows, size))
  }

  lemma MulMono(a: int, b: int, c: int)
    requires a <= b && c >= 0
    ensures a * c <= b * c
  {
    assert (b - a) * c >= 0;
  }

  /** The split raises exactly when the chunk count is zero, the table is
      empty, or a negative chunk count makes the ceiling zero. */
  lemma SplitFailsIff<T>(rows: seq<T>, numChunks: int)
    ensures SplitIntoChunks(rows, numChunks).Failure? <==>
      numChunks == 0 || |rows| == 0 || (numChunks < 0 && |rows| < -numChunks)
    ensures SplitIntoChunks(rows, numChunks) == Failure(ZeroDivision) <==> numChunks == 0
  {
    if numChunks > 0 {
      var s := ChunkSize(|rows|, numChunks);
      if |rows| > 0 && s <= 0 {
        MulMono(s, 0, numChunks);
      }
      if |rows| == 0 && s >= 1 {
        MulMono(1, s, numChunks);
      }
    } else if numChunks < 0 {
      var s := ChunkSize(|rows|, numChunks);
      if s > 0 {
        MulMono(0, s, -numChunks);
      }
      if s <= -1 {
        MulMono(s, -1, -numChunks);
      }
    }
  }

  /** A negative chunk count that still leaves a nonzero step gives no chunks. */
  lemma SplitNegative<T>(rows: seq<T>, numChunks: int)
    requires numChunks < 0 && |rows| >= -numChunks
    ensures SplitIntoChunks(rows, numChunks) == Success([])
  {
    SplitFailsIff(rows, numChunks);
    var s := ChunkSize(|rows|, numChunks);
    if s > 0 {
      MulMono(0, s, -numChunks);
    }
  }

  /** With rows and a positive chunk count the split succeeds, and the chunks
      concatenated in order give back every row exactly once. */
  lemma SplitCovers<T>(rows: seq<T>, numChunks: int)
    requires |rows| > 0 && numChunks > 0
    ensures SplitIntoChunks(rows, numChunks).Success?
    ensures Flatten(SplitIntoChunks(rows, numChunks).value) == rows
  {
    SplitFailsIff(rows, numChunks);
    var s := ChunkSize(|rows|, numChunks);
    FlattenSlices(rows, s);
  }

  /** Shape of a successful split: between one and `numChunks` chunks, every
      chunk but the last holds exactly `ceil(n / numChunks)` rows, the last
      holds between one and that many, and chunk `j` is the row range
      `[j*size, min((j+1)*size, n))`. */
  lemma SplitSizes<T>(rows: seq<T>, numChunks: int)
    requires |rows| > 0 && numChunks > 0
    ensures SplitIntoChunks(rows, numChunks).Success?
    ensures var cs := SplitIntoChunks(rows, numChunks).value;
      var size := ChunkSize(|rows|, numChunks);
      && 0 < |cs| <= numChunks
      && (forall j :: 0 <= j < |cs| - 1 ==> |cs[j]| == size)
      && 0 < |cs[|cs| - 1]| <= size
      && (forall j :: 0 <= j < |cs| ==> j * size < |rows| && cs[j] == rows[j * size .. Min((j + 1) * size, |rows|)])
  {
    SplitFailsIff(rows, numChunks);
    var size := ChunkSize(|rows|, numChunks);
    var cs := Slices(rows, size);
    SlicesShape(rows, size);
    var c := |cs|;
    if c > numChunks {
      MulMono(numChunks, c - 1, size);
      assert false;
    }
    if c == 0 {
      assert false;
    }
    forall j | 0 <= j < |cs|
      ensures j * size < |rows| && cs[j] == rows[j * size .. Min((j + 1) * size, |rows|)]
    {
      SliceAt(rows, size, j);
    }
  }

  /** The count is an upper bound, not an exact one: nine rows asked for in
      four chunks come back as three chunks of three. */
  lemma NineRowsInFourChunks<T>(rows: seq<T>)
    requires |rows| == 9
    ensures SplitIntoChunks(rows, 4).Success?
    ensures |SplitIntoChunks(rows, 4).value| == 3
  {
    assert ChunkSize(9, 4) == 3;
    var s := Slices(rows, 3);
    assert Slices(rows[6..], 3) == [rows[6..]];
    assert rows[3..][3..] == rows[6..];
    assert Slices(rows[3..], 3) == [rows[3..][..3]] + Slices(rows[6..], 3);
  }
}
