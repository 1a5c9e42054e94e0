/** `chunk.sort_values(by=['MMSI', '# Timestamp'])` and `chunk.groupby('MMSI')`
    (gps_spoofing.py): reports ordered by vessel, then by time with missing
    timestamps last, and the per-vessel groups of that order. */
module SpoofingSort {
  import opened Wrappers
  import opened SpoofingSpeed

  /** Strict order on timestamps with NaT placed after every present one. */
  predicate TsBefore(x: Option<int>, y: Option<int>)
  {
    match (x, y)
    case (Some(a), Some(b)) => a < b
    case (Some(_), None) => true
    case _ => false
  }

  /** Strict order on the sort key `(MMSI, timestamp)`. */
  predicate KeyLess(a: Report, b: Report)
  {
    a.mmsi < b.mmsi || (a.mmsi == b.mmsi && TsBefore(a.ts, b.ts))
  }

  /** No report is strictly before an earlier one. */
  predicate SortedByKey(s: seq<Report>)
  {
    forall i, j :: 0 <= i < j < |s| ==> !KeyLess(s[j], s[i])
  }

  /** Places `r` after every report whose key is not greater than its own. */
  function Insert(r: Report, s: seq<Report>): (t: seq<Report>)
    ensures multiset(t) == multiset(s) + multiset{r}
  {
    if s == [] then [r]
    else if KeyLess(r, s[0]) then [r] + s
    else
      assert s == [s[0]] + s[1..];
      [s[0]] + Insert(r, s[1..])
  }

  /** The sorted chunk. Reports with equal keys keep their input order. */
  function SortChunk(s: seq<Report>): (t: seq<Report>)
    ensures multiset(t) == multiset(s)
  {
    if s == [] then []
    else
      assert s == s[..|s| - 1] + [s[|s| - 1]];
      Insert(s[|s| - 1], SortChunk(s[..|s| - 1]))
  }

  lemma KeyLessTransitive(a: Report, b: Report, c: Report)
    requires KeyLess(a, b) && KeyLess(b, c)
    ensures KeyLess(a, c)
  {
  }

  lemma {:induction false} InsertSorted(r: Report, s: seq<Report>)
    requires SortedByKey(s)
    ensures SortedByKey(Insert(r, s))
  {
    if s == [] {
    } else if KeyLess(r, s[0]) {
      var t := [r] + s;
      forall i, j | 0 <= i < j < |t| ensures !KeyLess(t[j], t[i]) {
        if i == 0 {
          if KeyLess(t[j], r) {
            assert j - 1 == 0 || !KeyLess(s[j - 1], s[0]);
            KeyLessTransitive(t[j], r, s[0]);
            assert false;
          }
        } else {
          assert t[i] == s[i - 1] && t[j] == s[j - 1];
        }
      }
    } else {
      var rest := Insert(r, s[1..]);
      InsertSorted(r, s[1..]);
      var t := [s[0]] + rest;
      forall i, j | 0 <= i < j < |t| ensures !KeyLess(t[j], t[i]) {
        if i == 0 {
          var x := t[j];
          assert x in multiset(rest);
          assert x == r || x in multiset(s[1..]);
          if x != r {
            var q :| 0 <= q < |s[1..]| && s[1..][q] == x;
            assert s[q + 1] == x;
          }
        } else {
          assert t[i] == rest[i - 1] && t[j] == rest[j - 1];
        }
      }
    }
  }

  /** The sorted chunk is ordered by `(MMSI, timestamp)`. */
  lemma {:induction false} SortChunkSorted(s: seq<Report>)
    ensures SortedByKey(SortChunk(s))
  {
    if s != [] {
      SortChunkSorted(s[..|s| - 1]);
      InsertSorted(s[|s| - 1], SortChunk(s[..|s| - 1]));
    }
  }

  /** The reports of vessel `k`, in order: the group `chunk.groupby('MMSI')`
      yields for that key. */
  function GroupOf(s: seq<Report>, k: int): (g: seq<Report>)
    ensures forall r :: r in g ==> r in s && r.mmsi == k
  {
    if s == [] then []
    else (if s[0].mmsi == k then [s[0]] else []) + GroupOf(s[1..], k)
  }

  /** The vessel identities present in a chunk. */
  function Mmsis(s: seq<Report>): set<int>
  {
    set r | r in s :: r.mmsi
  }

  lemma {:induction false} GroupOfAppend(a: seq<Report>, b: seq<Report>, k: int)
    ensures GroupOf(a + b, k) == GroupOf(a, k) + GroupOf(b, k)
  {
    if a == [] {
      assert a + b == b;
    } else {
      assert (a + b)[1..] == a[1..] + b;
      GroupOfAppend(a[1..], b, k);
    }
  }

  lemma {:induction false} GroupOfNone(s: seq<Report>, k: int)
    requires forall i :: 0 <= i < |s| ==> s[i].mmsi != k
    ensures GroupOf(s, k) == []
  {
    if s != [] {
      GroupOfNone(s[1..], k);
    }
  }

  lemma {:induction false} GroupOfAll(s: seq<Report>, k: int)
    requires forall i :: 0 <= i < |s| ==> s[i].mmsi == k
    ensures GroupOf(s, k) == s
  {
    if s != [] {
      GroupOfAll(s[1..], k);
      assert s == [s[0]] + s[1..];
    }
  }

  /** A vessel's group holds exactly that vessel's reports, whatever order the
      chunk is in. */
  lemma {:induction false} GroupOfInsert(r: Report, s: seq<Report>, k: int)
    ensures multiset(GroupOf(Insert(r, s), k)) ==
      multiset(GroupOf(s, k)) + (if r.mmsi == k then multiset{r} else multiset{})
  {
    if s == [] {
    } else if KeyLess(r, s[0]) {
      assert ([r] + s)[1..] == s;
    } else {
      assert ([s[0]] + Insert(r, s[1..]))[1..] == Insert(r, s[1..]);
      GroupOfInsert(r, s[1..], k);
    }
  }

  lemma {:induction false} GroupOfSnoc(s: seq<Report>, r: Report, k: int)
    ensures GroupOf(s + [r], k) == GroupOf(s, k) + (if r.mmsi == k then [r] else [])
  {
    GroupOfAppend(s, [r], k);
    assert GroupOf([r], k) == (if r.mmsi == k then [r] else []) + GroupOf([], k);
  }

  /** Sorting does not change which reports belong to a vessel. */
  lemma {:induction false} GroupOfSortChunk(s: seq<Report>, k: int)
    ensures multiset(GroupOf(SortChunk(s), k)) == multiset(GroupOf(s, k))
  {
    if s != [] {
      var init, last := s[..|s| - 1], s[|s| - 1];
      assert s == init + [last];
      var extra := if last.mmsi == k then multiset{last} else multiset{};
      assert SortChunk(s) == Insert(last, SortChunk(init));
      GroupOfSortChunk(init, k);
      GroupOfInsert(last, SortChunk(init), k);
      assert multiset(GroupOf(SortChunk(s), k)) == multiset(GroupOf(init, k)) + extra;
      GroupOfSnoc(init, last, k);
      assert GroupOf(s, k) == GroupOf(init, k) + (if last.mmsi == k then [last] else []);
    }
  }

  lemma MmsisSortChunk(s: seq<Report>)
    ensures Mmsis(SortChunk(s)) == Mmsis(s)
  {
    var t := SortChunk(s);
    forall k | k in Mmsis(s) ensures k in Mmsis(t) {
      var r :| r in s && r.mmsi == k;
      assert r in multiset(t);
    }
    forall k | k in Mmsis(t) ensures k in Mmsis(s) {
      var r :| r in t && r.mmsi == k;
      assert r in multiset(s);
    }
  }

  /** Within one vessel's group of a sorted chunk, a report with a present
      timestamp is preceded only by reports with present, no later
      timestamps (missing timestamps sort last). */
  predicate TimeOrdered(g: seq<Report>)
  {
    forall i, j :: 0 <= i < j < |g| && g[j].ts.Some? ==> g[i].ts.Some? && g[i].ts.value <= g[j].ts.value
  }

  lemma {:induction false} GroupOfSortedTimeOrdered(s: seq<Report>, k: int)
    requires SortedByKey(s)
    ensures TimeOrdered(GroupOf(s, k))
  {
    if s != [] {
      var rest := s[1..];
      SortedTail(s);
      GroupOfSortedTimeOrdered(rest, k);
      if s[0].mmsi == k {
        forall x | x in GroupOf(rest, k) ensures x.mmsi == s[0].mmsi && !KeyLess(x, s[0]) {
          HeadNotAfter(s, x);
        }
        ConsTimeOrdered(s[0], GroupOf(rest, k));
      }
    }
  }

  lemma SortedTail(s: seq<Report>)
    requires SortedByKey(s) && s != []
    ensures SortedByKey(s[1..])
  {
    var rest := s[1..];
    forall i, j | 0 <= i < j < |rest| ensures !KeyLess(rest[j], rest[i]) {
      assert rest[i] == s[i + 1] && rest[j] == s[j + 1];
    }
  }

  lemma HeadNotAfter(s: seq<Report>, x: Report)
    requires SortedByKey(s) && s != []
    requires x in s[1..]
    ensures !KeyLess(x, s[0])
  {
    var q :| 0 <= q < |s| - 1 && s[1..][q] == x;
    assert s[q + 1] == x;
  }

  /** A report no later than every report of a time-ordered group of its
      vessel keeps the group time-ordered when placed in front. */
  lemma ConsTimeOrdered(r: Report, g: seq<Report>)
    requires TimeOrdered(g)
    requires forall x :: x in g ==> x.mmsi == r.mmsi && !KeyLess(x, r)
    ensures TimeOrdered([r] + g)
  {
    var h := [r] + g;
    forall i, j | 0 <= i < j < |h| && h[j].ts.Some?
      ensures h[i].ts.Some? && h[i].ts.value <= h[j].ts.value
    {
      if i == 0 {
        assert h[j] in g;
      } else {
        assert h[i] == g[i - 1] && h[j] == g[j - 1];
      }
    }
  }

  lemma MmsisAppend(a: seq<Report>, b: seq<Report>)
    ensures Mmsis(a + b) == Mmsis(a) + Mmsis(b)
  {
    forall x | x in Mmsis(a + b) ensures x in Mmsis(a) + Mmsis(b) {
      var r :| r in a + b && r.mmsi == x;
      assert r in a || r in b;
    }
  }

  /** Vessel identities never decrease along a sorted chunk. */
  lemma MmsiMonotone(s: seq<Report>, a: nat, b: nat)
    requires SortedByKey(s)
    requires a <= b < |s|
    ensures s[a].mmsi <= s[b].mmsi
  {
    if a < b {
      assert !KeyLess(s[b], s[a]);
    }
  }

  /** Outside a maximal run of vessel `k` in a sorted chunk, no report is of `k`. */
  lemma RunIsolated(s: seq<Report>, i: nat, j: nat, k: int)
    requires SortedByKey(s)
    requires i < j <= |s|
    requires forall t :: i <= t < j ==> s[t].mmsi == k
    requires i == 0 || s[i - 1].mmsi != k
    requires j == |s| || s[j].mmsi != k
    ensures forall t :: 0 <= t < i ==> s[t].mmsi != k
    ensures forall t :: j <= t < |s| ==> s[t].mmsi != k
  {
    forall t | 0 <= t < i ensures s[t].mmsi != k {
      MmsiMonotone(s, t, i - 1);
      MmsiMonotone(s, i - 1, i);
    }
    forall t | j <= t < |s| ensures s[t].mmsi != k {
      MmsiMonotone(s, j, t);
      MmsiMonotone(s, j - 1, j);
    }
  }

  /** In a sorted chunk, a maximal run `s[i..j]` of vessel `k` is that
      vessel's whole group, and `k` does not occur before the run. */
  lemma GroupIsRun(s: seq<Report>, i: nat, j: nat, k: int)
    requires SortedByKey(s)
    requires i < j <= |s|
    requires forall t :: i <= t < j ==> s[t].mmsi == k
    requires i == 0 || s[i - 1].mmsi != k
    requires j == |s| || s[j].mmsi != k
    ensures GroupOf(s, k) == s[i..j]
    ensures k !in Mmsis(s[..i])
    ensures Mmsis(s[..j]) == Mmsis(s[..i]) + {k}
  {
    RunIsolated(s, i, j, k);
    RunGroup(s, i, j, k);
    RunMmsis(s, i, j, k);
  }

  lemma RunGroup(s: seq<Report>, i: nat, j: nat, k: int)
    requires i < j <= |s|
    requires forall t :: i <= t < j ==> s[t].mmsi == k
    requires forall t :: 0 <= t < i ==> s[t].mmsi != k
    requires forall t :: j <= t < |s| ==> s[t].mmsi != k
    ensures GroupOf(s, k) == s[i..j]
  {
    var pre, run, post := s[..i], s[i..j], s[j..];
    assert s == pre + run + post;
    GroupOfNone(pre, k);
    assert forall t :: 0 <= t < |post| ==> post[t] == s[j + t];
    GroupOfNone(post, k);
    GroupOfAll(run, k);
    GroupOfAppend(pre + run, post, k);
    GroupOfAppend(pre, run, k);
  }

  lemma RunMmsis(s: seq<Report>, i: nat, j: nat, k: int)
    requires i < j <= |s|
    requires forall t :: i <= t < j ==> s[t].mmsi == k
    requires forall t :: 0 <= t < i ==> s[t].mmsi != k
    ensures k !in Mmsis(s[..i])
    ensures Mmsis(s[..j]) == Mmsis(s[..i]) + {k}
  {
    var pre, run := s[..i], s[i..j];
    assert forall t :: 0 <= t < i ==> pre[t] == s[t];
    assert s[..j] == pre + run;
    MmsisAppend(pre, run);
    assert Mmsis(run) == {k} by {
      assert run[0] in run;
    }
  }
}
