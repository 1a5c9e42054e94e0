/** Cutting a table into consecutive row ranges of a fixed size.
    This one concept serves both `split_csv_into_chunks` (a list of
    `iloc[i:i + size]` slides for `i` in `range(0, n, size)`) and
    `pandas.read_csv(..., chunksize=size)`. */
module Slicing {

  function Min(a: int, b: int): int { if a <= b then a else b }

  /** The slices `rows[0..size]`, `rows[size..2*size]`, ... in order; the last
      one keeps whatever is left. No slice is empty and none exceeds `size`. */
  function Slices<T>(rows: seq<T>, size: nat): (r: seq<seq<T>>)
    requires size > 0
    ensures forall j :: 0 <= j < |r| ==> 0 < |r[j]| <= size
    decreases |rows|
  {
    if rows == [] then []
    else if |rows| <= size then [rows]
    else [rows[..size]] + Slices(rows[size..], size)
  }

  /** Concatenation of a list of row ranges, in list order. */
  function Flatten<T>(xss: seq<seq<T>>): seq<T>
  {
    if xss == [] then [] else xss[0] + Flatten(xss[1..])
  }

  lemma {:induction false} FlattenAppend<T>(a: seq<seq<T>>, b: seq<seq<T>>)
    ensures Flatten(a + b) == Flatten(a) + Flatten(b)
  {
    if a == [] {
      assert a + b == b;
    } else {
      assert (a + b)[1..] == a[1..] + b;
      FlattenAppend(a[1..], b);
    }
  }

  /** Concatenating the slices gives back the rows: every row lands in exactly
      one slice, in its original order. */
  lemma {:induction false} FlattenSlices<T>(rows: seq<T>, size: nat)
    requires size > 0
    ensures Flatten(Slices(rows, size)) == rows
    decreases |rows|
  {
    if rows == [] {
    } else if |rows| <= size {
      assert Flatten([rows]) == rows + Flatten([]);
    } else {
      FlattenSlices(rows[size..], size);
      assert rows == rows[..size] + rows[size..];
    }
  }

  /** The number of slices is `ceil(|rows| / size)`, stated without division:
      `c` slices of `size` rows hold the table and `c - 1` do not. Every slice
      but the last holds exactly `size` rows. */
  lemma {:induction false} SlicesShape<T>(rows: seq<T>, size: nat)
    requires size > 0
    ensures (|Slices(rows, size)| - 1) * size < |rows| <= |Slices(rows, size)| * size
    ensures forall j :: 0 <= j < |Slices(rows, size)| - 1 ==> |Slices(rows, size)[j]| == size
    decreases |rows|
  {
    if rows == [] {
    } else if |rows| <= size {
    } else {
      var rest := rows[size..];
      SlicesShape(rest, size);
      var c := |Slices(rest, size)|;
      assert |Slices(rows, size)| == c + 1;
      assert (c + 1) * size == c * size + size;
      assert (c + 1 - 1) * size == (c - 1) * size + size;
    }
  }

  /** Slice `j` is exactly the Python slice `rows[j*size : (j+1)*size]`,
      which clamps at the end of the table. */
  lemma {:induction false} SliceAt<T>(rows: seq<T>, size: nat, j: nat)
    requires size > 0
    requires j < |Slices(rows, size)|
    ensures j * size < |rows|
    ensures Slices(rows, size)[j] == rows[j * size .. Min((j + 1) * size, |rows|)]
    decreases |rows|
  {
    if |rows| <= size {
    } else if j == 0 {
    } else {
      var rest := rows[size..];
      SliceAt(rest, size, j - 1);
      assert (j - 1) * size + size == j * size;
      assert j * size + size == (j + 1) * size;
    }
  }
}
