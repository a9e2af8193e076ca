/** The time-series half of `standardize` (src/microgrid_eda/clean.py
    lines 6-13) on rows whose timestamp is already the index: sort, hourly
    bucket means, drop of incomplete hours; beside it, a reference
    definition of the buckets by filtering, and the lemmas that connect the
    two. */
module Series {
  import opened Wrappers

  /** The width of a `"1h"` resample bucket, in seconds. */
  const HourSeconds: int := 3600

  /** A row once `timestamp` is the index: its time and value cells. */
  datatype Row = Row(time: int, values: seq<Option<real>>)

  /** One resample bucket: its left edge and each column's mean, None
      where the bucket has no present value for that column. */
  datatype Bin = Bin(start: int, means: seq<Option<real>>)

  /** A row of the result: an hour and a mean for every value column. */
  datatype HourRow = HourRow(start: int, values: seq<real>)

  // ---------------------------------------------------------------------
  // Hour keys

  /** The left edge of the hour holding `t`: `t - t % 3600` floors for
      negative `t` too, since Dafny's `%` is never negative. */
  function HourOf(t: int): (h: int)
    ensures h <= t < h + HourSeconds
    ensures h % HourSeconds == 0
  {
    t - t % HourSeconds
  }

  lemma HourOfMonotone(s: int, t: int)
    requires s <= t
    ensures HourOf(s) <= HourOf(t)
  {
    var p, q := HourOf(s) / HourSeconds, HourOf(t) / HourSeconds;
    assert HourOf(s) == p * HourSeconds && HourOf(t) == q * HourSeconds;
  }

  /** Two hour edges that differ lie at least an hour apart. */
  lemma NextHour(h: int, g: int)
    requires h % HourSeconds == 0 && g % HourSeconds == 0 && h < g
    ensures h + HourSeconds <= g
  {
    var p, q := h / HourSeconds, g / HourSeconds;
    assert h == p * HourSeconds && g == q * HourSeconds;
  }

  /** The left edge of the bucket `i` hours after the one at `start`. */
  function HourAfter(start: int, i: nat): int {
    start + i * HourSeconds
  }

  /** The number of hourly buckets from the one starting at `lo` to the one
      starting at `hi`, both included. */
  function BinCount(lo: int, hi: int): nat
    requires lo <= hi
  {
    (hi - lo) / HourSeconds + 1
  }

  // ---------------------------------------------------------------------
  // Sorting (clean.py line 6)

  predicate SortedByTime(rows: seq<Row>) {
    forall i, j :: 0 <= i < j < |rows| ==> rows[i].time <= rows[j].time
  }

  /** Places `r` before the first row of `s` that is not earlier. */
  function InsertByTime(r: Row, s: seq<Row>): (t: seq<Row>)
    requires SortedByTime(s)
    ensures SortedByTime(t)
    ensures multiset(t) == multiset(s) + multiset{r}
  {
    if s == [] || r.time <= s[0].time then [r] + s
    else
      SortedSuffix(s, 1);
      var u := InsertByTime(r, s[1..]);
      InsertBehindHead(r, s, u);
      [s[0]] + u
  }

  /** Putting the head of `s` back in front of a sorted insertion into the
      rest of `s`, when `r` comes later than that head. */
  lemma InsertBehindHead(r: Row, s: seq<Row>, u: seq<Row>)
    requires SortedByTime(s) && s != [] && s[0].time < r.time
    requires SortedByTime(u) && multiset(u) == multiset(s[1..]) + multiset{r}
    ensures SortedByTime([s[0]] + u)
    ensures multiset([s[0]] + u) == multiset(s) + multiset{r}
  {
    assert s == [s[0]] + s[1..];
    forall k | 0 <= k < |u| ensures s[0].time <= u[k].time {
      assert u[k] in multiset(u);
    }
    var t := [s[0]] + u;
    forall i, j | 0 <= i < j < |t| ensures t[i].time <= t[j].time {
      if i > 0 {
        assert t[i] == u[i - 1] && t[j] == u[j - 1];
      } else {
        assert t[j] == u[j - 1];
      }
    }
  }

  /** `sort_values("timestamp")`, as an insertion sort that keeps rows with
      equal timestamps in their input order. */
  function SortByTime(s: seq<Row>): (t: seq<Row>)
    ensures SortedByTime(t)
    ensures multiset(t) == multiset(s)
  {
    if s == [] then []
    else
      assert s == [s[0]] + s[1..];
      InsertByTime(s[0], SortByTime(s[1..]))
  }

  // ---------------------------------------------------------------------
  // Means (clean.py line 10)

  /** Column `j` of one row, as a sequence of zero or one present values
      (a row too short to have a column `j` contributes nothing; the rows
      of a DataFrame all have every column). */
  function PresentIn(r: Row, j: nat): seq<real> {
    if j < |r.values| && r.values[j].Some? then [r.values[j].value] else []
  }

  /** The present values of column `j`, in row order. */
  function Present(rows: seq<Row>, j: nat): seq<real> {
    if rows == [] then [] else PresentIn(rows[0], j) + Present(rows[1..], j)
  }

  function Sum(xs: seq<real>): real {
    if xs == [] then 0.0 else xs[0] + Sum(xs[1..])
  }

  /** pandas' `mean`, which skips missing values: None when none is left. */
  function Mean(xs: seq<real>): Option<real> {
    if xs == [] then None else Some(Sum(xs) / |xs| as real)
  }

  function Means(rows: seq<Row>, ncols: nat): (m: seq<Option<real>>)
    ensures |m| == ncols
  {
    seq(ncols, j requires 0 <= j < ncols => Mean(Present(rows, j)))
  }

  // ---------------------------------------------------------------------
  // Resampling over sorted rows (clean.py line 10)

  /** How many leading rows fall in the hour starting at `h`. */
  function RunLength(rows: seq<Row>, h: int): (k: nat)
    ensures k <= |rows|
    ensures forall i :: 0 <= i < k ==> HourOf(rows[i].time) == h
    ensures k < |rows| ==> HourOf(rows[k].time) != h
  {
    if rows != [] && HourOf(rows[0].time) == h then 1 + RunLength(rows[1..], h) else 0
  }

  /** `n` consecutive hourly buckets from `start`, each averaging the run of
      rows at the front that falls in it. */
  function Bins(rows: seq<Row>, start: int, n: nat, ncols: nat): (b: seq<Bin>)
    ensures |b| == n
    decreases n
  {
    if n == 0 then []
    else
      var k := RunLength(rows, start);
      [Bin(start, Means(rows[..k], ncols))] + Bins(rows[k..], start + HourSeconds, n - 1, ncols)
  }

  /** `resample("1h").mean()` on a frame sorted by time: every bucket from
      the one holding the first timestamp to the one holding the last. */
  function Resample(rows: seq<Row>, ncols: nat): (r: seq<Bin>)
    requires SortedByTime(rows)
    ensures rows == [] ==> r == []
    ensures rows != [] ==> |r| == BinCount(HourOf(rows[0].time), HourOf(rows[|rows| - 1].time))
  {
    if rows == [] then []
    else
      var lo, hi := HourOf(rows[0].time), HourOf(rows[|rows| - 1].time);
      HourOfMonotone(rows[0].time, rows[|rows| - 1].time);
      Bins(rows, lo, BinCount(lo, hi), ncols)
  }

  // ---------------------------------------------------------------------
  // Dropping incomplete hours (clean.py line 13)

  predicate Complete(b: Bin) {
    forall j :: 0 <= j < |b.means| ==> b.means[j].Some?
  }

  function Unwrap(ms: seq<Option<real>>): (r: seq<real>)
    requires forall j :: 0 <= j < |ms| ==> ms[j].Some?
    ensures |r| == |ms| && forall j :: 0 <= j < |ms| ==> ms[j] == Some(r[j])
  {
    seq(|ms|, j requires 0 <= j < |ms| => ms[j].value)
  }

  /** `dropna()`: keeps the buckets with a mean in every column. */
  function DropIncomplete(bins: seq<Bin>): seq<HourRow> {
    if bins == [] then []
    else
      (if Complete(bins[0]) then [HourRow(bins[0].start, Unwrap(bins[0].means))] else [])
      + DropIncomplete(bins[1..])
  }

  // ---------------------------------------------------------------------
  // Reference definition: buckets stated by filtering, in any row order

  /** The rows whose timestamp falls in the hour starting at `h`. */
  function InHour(rows: seq<Row>, h: int): (r: seq<Row>)
    ensures forall x :: x in r ==> x in rows && HourOf(x.time) == h
  {
    if rows == [] then []
    else (if HourOf(rows[0].time) == h then [rows[0]] else []) + InHour(rows[1..], h)
  }

  function MinTime(rows: seq<Row>): (t: int)
    requires rows != []
    ensures forall i :: 0 <= i < |rows| ==> t <= rows[i].time
    ensures exists i :: 0 <= i < |rows| && rows[i].time == t
  {
    if |rows| == 1 then rows[0].time
    else
      var m := MinTime(rows[1..]);
      assert forall i :: 1 <= i < |rows| ==> rows[1..][i - 1] == rows[i];
      if rows[0].time <= m then rows[0].time else m
  }

  function MaxTime(rows: seq<Row>): (t: int)
    requires rows != []
    ensures forall i :: 0 <= i < |rows| ==> rows[i].time <= t
    ensures exists i :: 0 <= i < |rows| && rows[i].time == t
  {
    if |rows| == 1 then rows[0].time
    else
      var m := MaxTime(rows[1..]);
      assert forall i :: 1 <= i < |rows| ==> rows[1..][i - 1] == rows[i];
      if rows[0].time >= m then rows[0].time else m
  }

  /** The bucket starting at `h`, averaged over every row that falls in it. */
  function BinAt(rows: seq<Row>, h: int, ncols: nat): Bin
  {
    Bin(h, Means(InHour(rows, h), ncols))
  }

  /** What `resample("1h").mean()` computes, stated without the sort: the
      hours from the earliest timestamp's to the latest's, each with the
      mean of each column's present values among the rows in that hour. */
  function HourlyMeans(rows: seq<Row>, ncols: nat): (b: seq<Bin>)
  {
    if rows == [] then []
    else
      var lo, hi := HourOf(MinTime(rows)), HourOf(MaxTime(rows));
      HourOfMonotone(MinTime(rows), MaxTime(rows));
      var n := BinCount(lo, hi);
      seq(n, i requires 0 <= i < n => BinAt(rows, HourAfter(lo, i), ncols))
  }

  /** The result of `standardize` in terms of its parsed rows. */
  function Hourly(rows: seq<Row>, ncols: nat): seq<HourRow>
  {
    DropIncomplete(HourlyMeans(rows, ncols))
  }

  // ---------------------------------------------------------------------
  // Concatenation and permutation

  lemma {:induction false} InHourConcat(a: seq<Row>, b: seq<Row>, h: int)
    ensures InHour(a + b, h) == InHour(a, h) + InHour(b, h)
  {
    if a != [] {
      assert (a + b)[0] == a[0] && (a + b)[1..] == a[1..] + b;
      InHourConcat(a[1..], b, h);
    } else {
      assert a + b == b;
    }
  }

  lemma {:induction false} PresentConcat(a: seq<Row>, b: seq<Row>, j: nat)
    ensures Present(a + b, j) == Present(a, j) + Present(b, j)
  {
    if a != [] {
      assert (a + b)[0] == a[0] && (a + b)[1..] == a[1..] + b;
      PresentConcat(a[1..], b, j);
    } else {
      assert a + b == b;
    }
  }

  lemma {:induction false} SumConcat(a: seq<real>, b: seq<real>)
    ensures Sum(a + b) == Sum(a) + Sum(b)
  {
    if a != [] {
      assert (a + b)[0] == a[0] && (a + b)[1..] == a[1..] + b;
      SumConcat(a[1..], b);
    } else {
      assert a + b == b;
    }
  }

  /** Finds `a[0]` in a permutation `b` of `a`; what is left of the two is
      again a permutation. */
  lemma PickFirst<T>(a: seq<T>, b: seq<T>) returns (j: nat)
    requires a != [] && multiset(a) == multiset(b)
    ensures j < |b| && b[j] == a[0]
    ensures b == b[..j] + ([b[j]] + b[j + 1..])
    ensures multiset(a[1..]) == multiset(b[..j] + b[j + 1..])
  {
    assert a == [a[0]] + a[1..];
    assert a[0] in multiset(b);
    j :| 0 <= j < |b| && b[j] == a[0];
    var front, back := b[..j], b[j + 1..];
    assert b == front + ([b[j]] + back);
    assert multiset(a) == multiset{a[0]} + multiset(a[1..]);
    assert multiset(b) == multiset{a[0]} + multiset(front + back);
    MultisetCancel(a[0], multiset(a[1..]), multiset(front + back));
  }

  lemma MultisetCancel<T>(x: T, m: multiset<T>, n: multiset<T>)
    requires multiset{x} + m == multiset{x} + n
    ensures m == n
  {
    forall y ensures m[y] == n[y] {
      assert (multiset{x} + m)[y] == (multiset{x} + n)[y];
    }
  }

  /** Moving the first of three pieces into the middle keeps the multiset. */
  lemma MultisetSwap<T>(x: seq<T>, y: seq<T>, z: seq<T>)
    ensures multiset(x + (y + z)) == multiset(y + (x + z))
  {
  }

  lemma {:induction false} InHourPermutation(a: seq<Row>, b: seq<Row>, h: int)
    requires multiset(a) == multiset(b)
    ensures multiset(InHour(a, h)) == multiset(InHour(b, h))
    decreases |a|
  {
    if a == [] {
      assert |b| == |multiset(b)| == 0;
    } else {
      var k := PickFirst(a, b);
      var front, back := b[..k], b[k + 1..];
      InHourPermutation(a[1..], front + back, h);
      InHourConcat(front, back, h);
      InHourConcat(front, [b[k]] + back, h);
      InHourConcat([b[k]], back, h);
      var hf, hk, hb := InHour(front, h), InHour([b[k]], h), InHour(back, h);
      assert [b[k]][1..] == [];
      assert hk == InHour([a[0]], h) == (if HourOf(a[0].time) == h then [a[0]] else []);
      assert InHour(b, h) == hf + (hk + hb);
      assert InHour(a, h) == hk + InHour(a[1..], h);
      MultisetSwap(hf, hk, hb);
    }
  }

  lemma {:induction false} PresentPermutation(a: seq<Row>, b: seq<Row>, j: nat)
    requires multiset(a) == multiset(b)
    ensures multiset(Present(a, j)) == multiset(Present(b, j))
    decreases |a|
  {
    if a == [] {
      assert |b| == |multiset(b)| == 0;
    } else {
      var k := PickFirst(a, b);
      var front, back := b[..k], b[k + 1..];
      PresentPermutation(a[1..], front + back, j);
      PresentConcat(front, back, j);
      PresentConcat(front, [b[k]] + back, j);
      PresentConcat([b[k]], back, j);
      var pf, pk, pb := Present(front, j), Present([b[k]], j), Present(back, j);
      assert [b[k]][1..] == [];
      assert pk == PresentIn(a[0], j);
      assert Present(b, j) == pf + (pk + pb);
      assert Present(a, j) == pk + Present(a[1..], j);
      MultisetSwap(pf, pk, pb);
    }
  }

  lemma {:induction false} SumPermutation(a: seq<real>, b: seq<real>)
    requires multiset(a) == multiset(b)
    ensures Sum(a) == Sum(b)
    decreases |a|
  {
    if a == [] {
      assert |b| == |multiset(b)| == 0;
    } else {
      var j := PickFirst(a, b);
      SumPermutation(a[1..], b[..j] + b[j + 1..]);
      SumConcat(b[..j], [b[j]] + b[j + 1..]);
      SumConcat([b[j]], b[j + 1..]);
      SumConcat(b[..j], b[j + 1..]);
      assert b[..j] + ([b[j]] + b[j + 1..]) == b;
    }
  }

  /** Per-column means do not depend on the order of the rows. */
  lemma MeansPermutation(a: seq<Row>, b: seq<Row>, ncols: nat)
    requires multiset(a) == multiset(b)
    ensures Means(a, ncols) == Means(b, ncols)
  {
    forall j | 0 <= j < ncols ensures Mean(Present(a, j)) == Mean(Present(b, j)) {
      PresentPermutation(a, b, j);
      SumPermutation(Present(a, j), Present(b, j));
      assert |Present(a, j)| == |multiset(Present(a, j))|;
      assert |Present(b, j)| == |multiset(Present(b, j))|;
    }
  }

  /** Rows of `a` all occur in `b`: `b` starts no later and ends no earlier. */
  lemma SameRowsSameEnds(a: seq<Row>, b: seq<Row>)
    requires a != [] && b != []
    requires forall x :: x in a ==> x in b
    ensures MinTime(b) <= MinTime(a) && MaxTime(a) <= MaxTime(b)
  {
    var i :| 0 <= i < |a| && a[i].time == MinTime(a);
    var k :| 0 <= k < |a| && a[k].time == MaxTime(a);
    assert a[i] in b && a[k] in b;
  }

  /** The reference buckets do not depend on the order of the rows. */
  lemma HourlyMeansPermutation(a: seq<Row>, b: seq<Row>, ncols: nat)
    requires multiset(a) == multiset(b)
    ensures HourlyMeans(a, ncols) == HourlyMeans(b, ncols)
  {
    assert forall r :: r in b ==> r in multiset(a);
    if a == [] {
      assert |b| == |multiset(b)| == 0;
    } else {
      assert b != [] by { assert |b| == |multiset(b)| == |multiset(a)| == |a|; }
      forall x | x in a ensures x in b { assert x in multiset(a); }
      forall x | x in b ensures x in a { assert x in multiset(b); }
      SameRowsSameEnds(a, b);
      SameRowsSameEnds(b, a);
      var lo := HourOf(MinTime(a));
      forall i | 0 <= i < |HourlyMeans(a, ncols)|
        ensures HourlyMeans(a, ncols)[i] == HourlyMeans(b, ncols)[i]
      {
        var h := HourAfter(lo, i);
        InHourPermutation(a, b, h);
        MeansPermutation(InHour(a, h), InHour(b, h), ncols);
      }
    }
  }

  // ---------------------------------------------------------------------
  // The run-based resample agrees with the reference on sorted rows

  lemma {:induction false} InHourAll(rows: seq<Row>, h: int)
    requires forall i :: 0 <= i < |rows| ==> HourOf(rows[i].time) == h
    ensures InHour(rows, h) == rows
  {
    if rows != [] {
      InHourAll(rows[1..], h);
    }
  }

  lemma {:induction false} InHourNone(rows: seq<Row>, h: int)
    requires forall i :: 0 <= i < |rows| ==> HourOf(rows[i].time) != h
    ensures InHour(rows, h) == []
  {
    if rows != [] {
      InHourNone(rows[1..], h);
    }
  }

  /** On sorted rows from hour `start` on, the leading run is exactly the
      rows of that hour. */
  lemma RunSplit(rows: seq<Row>, start: int)
    requires SortedByTime(rows)
    requires start % HourSeconds == 0
    requires rows != [] ==> start <= HourOf(rows[0].time)
    ensures InHour(rows, start) == rows[..RunLength(rows, start)]
  {
    var k := RunLength(rows, start);
    var front, back := rows[..k], rows[k..];
    assert rows == front + back;
    AfterRun(rows, start);
    InHourNoneLater(back, start);
    InHourRun(rows, start);
    InHourConcat(front, back, start);
    assert InHour(rows, start) == front + [];
  }

  /** The leading run of hour `h` lies wholly in `h`. */
  lemma InHourRun(rows: seq<Row>, h: int)
    ensures InHour(rows[..RunLength(rows, h)], h) == rows[..RunLength(rows, h)]
  {
    var front := rows[..RunLength(rows, h)];
    forall i | 0 <= i < |front| ensures HourOf(front[i].time) == h {
      assert front[i] == rows[i];
    }
    InHourAll(front, h);
  }

  /** Sorted rows that start an hour after `h` or later have none in `h`. */
  lemma InHourNoneLater(rows: seq<Row>, h: int)
    requires SortedByTime(rows)
    requires rows != [] ==> h + HourSeconds <= HourOf(rows[0].time)
    ensures InHour(rows, h) == []
  {
    NoneBefore(rows, h + HourSeconds);
    InHourNone(rows, h);
  }

  /** Sorted rows whose first row lies in hour `h` or later all do. */
  lemma NoneBefore(rows: seq<Row>, h: int)
    requires SortedByTime(rows)
    requires rows != [] ==> h <= HourOf(rows[0].time)
    ensures forall i :: 0 <= i < |rows| ==> h <= HourOf(rows[i].time)
  {
    forall i | 0 <= i < |rows| ensures h <= HourOf(rows[i].time) {
      HourOfMonotone(rows[0].time, rows[i].time);
    }
  }

  lemma SortedSuffix(rows: seq<Row>, k: nat)
    requires SortedByTime(rows) && k <= |rows|
    ensures SortedByTime(rows[k..])
  {
    forall i, j | 0 <= i < j < |rows| - k ensures rows[k..][i].time <= rows[k..][j].time {
      assert rows[k..][i] == rows[k + i] && rows[k..][j] == rows[k + j];
    }
  }

  /** Any other hour finds its rows after the leading run. */
  lemma RunSkip(rows: seq<Row>, start: int, h: int)
    requires h != start
    ensures InHour(rows, h) == InHour(rows[RunLength(rows, start)..], h)
  {
    var k := RunLength(rows, start);
    var front, back := rows[..k], rows[k..];
    forall j | 0 <= j < |front| ensures HourOf(front[j].time) != h {
      assert front[j] == rows[j];
    }
    InHourNone(front, h);
    assert rows == front + back;
    InHourConcat(front, back, h);
    assert InHour(rows, h) == [] + InHour(back, h);
  }

  /** Bucket `i` of `Bins` is the reference bucket at `start + i` hours,
      provided the rows are sorted and none lies before `start`. */
  lemma {:induction false} BinsAgree(rows: seq<Row>, start: int, n: nat, ncols: nat, i: nat)
    requires SortedByTime(rows)
    requires start % HourSeconds == 0
    requires rows != [] ==> start <= HourOf(rows[0].time)
    requires i < n
    ensures Bins(rows, start, n, ncols)[i] == BinAt(rows, HourAfter(start, i), ncols)
    decreases i
  {
    if i == 0 {
      BinsFirst(rows, start, n, ncols);
    } else {
      var k := RunLength(rows, start);
      AfterRun(rows, start);
      BinsAgree(rows[k..], start + HourSeconds, n - 1, ncols, i - 1);
      BinsLater(rows, start, n, ncols, i);
    }
  }

  /** What follows the leading run again meets the requirements of
      `BinsAgree`, an hour later. */
  lemma AfterRun(rows: seq<Row>, start: int)
    requires SortedByTime(rows)
    requires start % HourSeconds == 0
    requires rows != [] ==> start <= HourOf(rows[0].time)
    ensures var rest := rows[RunLength(rows, start)..];
      && SortedByTime(rest)
      && (start + HourSeconds) % HourSeconds == 0
      && (rest != [] ==> start + HourSeconds <= HourOf(rest[0].time))
  {
    var k := RunLength(rows, start);
    SortedSuffix(rows, k);
    if k < |rows| {
      assert rows[k..][0] == rows[k];
      HourOfMonotone(rows[0].time, rows[k].time);
      NextHour(start, HourOf(rows[k].time));
    }
  }

  /** The first bucket averages the leading run, which is the first hour. */
  lemma BinsFirst(rows: seq<Row>, start: int, n: nat, ncols: nat)
    requires n > 0 && SortedByTime(rows)
    requires start % HourSeconds == 0
    requires rows != [] ==> start <= HourOf(rows[0].time)
    ensures Bins(rows, start, n, ncols)[0] == BinAt(rows, HourAfter(start, 0), ncols)
  {
    RunSplit(rows, start);
    assert HourAfter(start, 0) == start;
  }

  /** A later bucket, and the reference bucket of its hour, are both
      found in the rows after the leading run. */
  lemma BinsLater(rows: seq<Row>, start: int, n: nat, ncols: nat, i: nat)
    requires 1 <= i < n
    ensures Bins(rows, start, n, ncols)[i] == Bins(rows[RunLength(rows, start)..], start + HourSeconds, n - 1, ncols)[i - 1]
    ensures BinAt(rows, HourAfter(start, i), ncols) ==
      BinAt(rows[RunLength(rows, start)..], HourAfter(start + HourSeconds, i - 1), ncols)
  {
    var h := HourAfter(start, i);
    assert HourAfter(start + HourSeconds, i - 1) == h;
    RunSkip(rows, start, h);
  }

  /** On sorted rows the resample is the reference definition. */
  lemma ResampleAgrees(rows: seq<Row>, ncols: nat)
    requires SortedByTime(rows)
    ensures Resample(rows, ncols) == HourlyMeans(rows, ncols)
  {
    if rows != [] {
      var lo := HourOf(rows[0].time);
      assert MinTime(rows) == rows[0].time;
      assert MaxTime(rows) == rows[|rows| - 1].time;
      var n := |HourlyMeans(rows, ncols)|;
      forall i | 0 <= i < n ensures Resample(rows, ncols)[i] == HourlyMeans(rows, ncols)[i] {
        BinsAgree(rows, lo, n, ncols, i);
      }
    }
  }

  /** Sorting first, then resampling by runs, gives the reference result of
      the unsorted rows. */
  lemma HourlyOfSorted(rows: seq<Row>, sorted: seq<Row>, ncols: nat)
    requires SortedByTime(sorted) && multiset(sorted) == multiset(rows)
    ensures DropIncomplete(Resample(sorted, ncols)) == Hourly(rows, ncols)
  {
    ResampleAgrees(sorted, ncols);
    HourlyMeansPermutation(sorted, rows, ncols);
  }

  // ---------------------------------------------------------------------
  // What the result is

  /** A row is kept exactly when it comes from a complete bucket. */
  lemma {:induction false} DropIncompleteMembers(bins: seq<Bin>)
    ensures forall x :: x in DropIncomplete(bins) <==>
      exists k :: 0 <= k < |bins| && Complete(bins[k]) && x == HourRow(bins[k].start, Unwrap(bins[k].means))
  {
    if bins != [] {
      DropIncompleteMembers(bins[1..]);
      forall x | x in DropIncomplete(bins)
        ensures exists k :: 0 <= k < |bins| && Complete(bins[k]) && x == HourRow(bins[k].start, Unwrap(bins[k].means))
      {
        if !(Complete(bins[0]) && x == HourRow(bins[0].start, Unwrap(bins[0].means))) {
          assert x in DropIncomplete(bins[1..]);
          var k :| 0 <= k < |bins[1..]| && Complete(bins[1..][k]) && x == HourRow(bins[1..][k].start, Unwrap(bins[1..][k].means));
          assert bins[1..][k] == bins[k + 1];
        }
      }
      forall k | 0 <= k < |bins| && Complete(bins[k])
        ensures HourRow(bins[k].start, Unwrap(bins[k].means)) in DropIncomplete(bins)
      {
        if k > 0 {
          assert bins[1..][k - 1] == bins[k];
        }
      }
    }
  }

  lemma {:induction false} DropIncompleteShorter(bins: seq<Bin>)
    ensures |DropIncomplete(bins)| <= |bins|
  {
    if bins != [] {
      DropIncompleteShorter(bins[1..]);
    }
  }

  predicate StartsAscending(bins: seq<Bin>) {
    forall i, j :: 0 <= i < j < |bins| ==> bins[i].start < bins[j].start
  }

  predicate RowsAscending(rows: seq<HourRow>) {
    forall i, j :: 0 <= i < j < |rows| ==> rows[i].start < rows[j].start
  }

  /** Dropping buckets keeps the remaining ones in order. */
  lemma {:induction false} DropIncompleteAscending(bins: seq<Bin>)
    requires StartsAscending(bins)
    ensures RowsAscending(DropIncomplete(bins))
  {
    if bins != [] {
      var tail := DropIncomplete(bins[1..]);
      DropIncompleteAscending(bins[1..]);
      DropIncompleteMembers(bins[1..]);
      forall i | 0 <= i < |tail| ensures bins[0].start < tail[i].start {
        assert tail[i] in tail;
        var k :| 0 <= k < |bins[1..]| && Complete(bins[1..][k]) && tail[i] == HourRow(bins[1..][k].start, Unwrap(bins[1..][k].means));
        assert bins[1..][k] == bins[k + 1];
      }
    }
  }

  /** Bucket `k` of `n` from `lo` lies on the hour grid, between `lo` and
      the last bucket `hi`. */
  lemma GridPoint(lo: int, hi: int, k: nat)
    requires lo % HourSeconds == 0 && hi % HourSeconds == 0 && lo <= hi
    requires k < BinCount(lo, hi)
    ensures HourAfter(lo, k) % HourSeconds == 0
    ensures lo <= HourAfter(lo, k) <= hi
  {
    var p, q := lo / HourSeconds, hi / HourSeconds;
    assert lo == p * HourSeconds && hi == q * HourSeconds;
    assert (hi - lo) / HourSeconds == q - p;
    assert HourAfter(lo, k) == (p + k) * HourSeconds;
  }

  /** Every hour edge between `lo` and `hi` is one of the buckets. */
  lemma GridIndex(lo: int, hi: int, h: int) returns (k: nat)
    requires lo % HourSeconds == 0 && hi % HourSeconds == 0 && h % HourSeconds == 0
    requires lo <= h <= hi
    ensures k < BinCount(lo, hi) && HourAfter(lo, k) == h
  {
    var p, q, r := lo / HourSeconds, hi / HourSeconds, h / HourSeconds;
    assert lo == p * HourSeconds && hi == q * HourSeconds && h == r * HourSeconds;
    assert (hi - lo) / HourSeconds == q - p;
    k := r - p;
  }

  /** The buckets of the reference definition, one row per hour. */
  lemma HourlyMeansShape(rows: seq<Row>, ncols: nat)
    requires rows != []
    ensures HourOf(MinTime(rows)) <= HourOf(MaxTime(rows))
    ensures |HourlyMeans(rows, ncols)| == BinCount(HourOf(MinTime(rows)), HourOf(MaxTime(rows)))
    ensures forall k :: 0 <= k < |HourlyMeans(rows, ncols)| ==>
      HourlyMeans(rows, ncols)[k] == BinAt(rows, HourAfter(HourOf(MinTime(rows)), k), ncols)
    ensures StartsAscending(HourlyMeans(rows, ncols))
  {
    HourOfMonotone(MinTime(rows), MaxTime(rows));
  }

  /** Output hours are strictly ascending. */
  lemma HourlyAscending(rows: seq<Row>, ncols: nat)
    ensures forall i, j :: 0 <= i < j < |Hourly(rows, ncols)| ==>
      Hourly(rows, ncols)[i].start < Hourly(rows, ncols)[j].start
  {
    if rows != [] {
      HourlyMeansShape(rows, ncols);
    }
    DropIncompleteAscending(HourlyMeans(rows, ncols));
  }

  /** Every output row is a complete bucket of the reference definition. */
  lemma HourlyFromBucket(rows: seq<Row>, ncols: nat, x: HourRow) returns (k: nat)
    requires x in Hourly(rows, ncols)
    ensures rows != [] && HourOf(MinTime(rows)) <= HourOf(MaxTime(rows))
    ensures k < BinCount(HourOf(MinTime(rows)), HourOf(MaxTime(rows)))
    ensures x.start == HourAfter(HourOf(MinTime(rows)), k)
    ensures Complete(BinAt(rows, x.start, ncols))
    ensures x == HourRow(x.start, Unwrap(BinAt(rows, x.start, ncols).means))
  {
    DropIncompleteMembers(HourlyMeans(rows, ncols));
    k :| 0 <= k < |HourlyMeans(rows, ncols)| && Complete(HourlyMeans(rows, ncols)[k])
      && x == HourRow(HourlyMeans(rows, ncols)[k].start, Unwrap(HourlyMeans(rows, ncols)[k].means));
    HourlyMeansShape(rows, ncols);
  }

  /** Each output hour is an hour edge between the hour of the earliest
      timestamp and the hour of the latest. */
  lemma HourlyInSpan(rows: seq<Row>, ncols: nat)
    ensures forall x :: x in Hourly(rows, ncols) ==>
      && rows != []
      && x.start % HourSeconds == 0
      && HourOf(MinTime(rows)) <= x.start <= HourOf(MaxTime(rows))
  {
    forall x | x in Hourly(rows, ncols)
      ensures rows != [] && x.start % HourSeconds == 0
      ensures HourOf(MinTime(rows)) <= x.start <= HourOf(MaxTime(rows))
    {
      var k := HourlyFromBucket(rows, ncols, x);
      GridPoint(HourOf(MinTime(rows)), HourOf(MaxTime(rows)), k);
    }
  }

  /** Each output cell is the mean of its column's present values among the
      input rows of that hour; there is at least one such value. */
  lemma HourlyCells(rows: seq<Row>, ncols: nat)
    ensures forall x :: x in Hourly(rows, ncols) ==>
      && |x.values| == ncols
      && forall j :: 0 <= j < ncols ==>
        && Present(InHour(rows, x.start), j) != []
        && Mean(Present(InHour(rows, x.start), j)) == Some(x.values[j])
  {
    forall x | x in Hourly(rows, ncols)
      ensures |x.values| == ncols
      ensures forall j :: 0 <= j < ncols ==>
        && Present(InHour(rows, x.start), j) != []
        && Mean(Present(InHour(rows, x.start), j)) == Some(x.values[j])
    {
      var k := HourlyFromBucket(rows, ncols, x);
      var b := BinAt(rows, x.start, ncols);
      assert forall j :: 0 <= j < ncols ==> b.means[j] == Mean(Present(InHour(rows, x.start), j));
    }
  }

  /** An hour edge between the hours of the earliest and the latest
      timestamp in which every value column has a present value. */
  predicate FullHour(rows: seq<Row>, ncols: nat, h: int) {
    && rows != []
    && h % HourSeconds == 0
    && HourOf(MinTime(rows)) <= h <= HourOf(MaxTime(rows))
    && forall j :: 0 <= j < ncols ==> Present(InHour(rows, h), j) != []
  }

  lemma OutputHourIsFull(rows: seq<Row>, ncols: nat, x: HourRow)
    requires x in Hourly(rows, ncols)
    ensures FullHour(rows, ncols, x.start)
  {
    HourlyInSpan(rows, ncols);
    HourlyCells(rows, ncols);
  }

  lemma FullHourIsOutput(rows: seq<Row>, ncols: nat, h: int)
    requires FullHour(rows, ncols, h)
    ensures exists x :: x in Hourly(rows, ncols) && x.start == h
  {
    var lo, hi := HourOf(MinTime(rows)), HourOf(MaxTime(rows));
    var k := GridIndex(lo, hi, h);
    HourlyMeansShape(rows, ncols);
    var b := HourlyMeans(rows, ncols)[k];
    assert b == BinAt(rows, h, ncols);
    assert Complete(b);
    DropIncompleteMembers(HourlyMeans(rows, ncols));
    assert HourRow(h, Unwrap(b.means)) in Hourly(rows, ncols);
  }

  /** An hour appears in the output exactly when it is a full hour. */
  lemma HourlyMembership(rows: seq<Row>, ncols: nat, h: int)
    ensures (exists x :: x in Hourly(rows, ncols) && x.start == h) <==> FullHour(rows, ncols, h)
  {
    if exists x :: x in Hourly(rows, ncols) && x.start == h {
      var x :| x in Hourly(rows, ncols) && x.start == h;
      OutputHourIsFull(rows, ncols, x);
    }
    if FullHour(rows, ncols, h) {
      FullHourIsOutput(rows, ncols, h);
    }
  }

  /** With at least one value column, a kept bucket holds a row of its own. */
  lemma {:induction false} BinsKeptBound(rows: seq<Row>, start: int, n: nat, ncols: nat)
    requires ncols > 0
    ensures |DropIncomplete(Bins(rows, start, n, ncols))| <= |rows|
    decreases n
  {
    if n > 0 {
      var k := RunLength(rows, start);
      var b := Bin(start, Means(rows[..k], ncols));
      var rest := Bins(rows[k..], start + HourSeconds, n - 1, ncols);
      assert Bins(rows, start, n, ncols) == [b] + rest;
      assert ([b] + rest)[1..] == rest;
      BinsKeptBound(rows[k..], start + HourSeconds, n - 1, ncols);
      var kept := if Complete(b) then [HourRow(b.start, Unwrap(b.means))] else [];
      assert DropIncomplete([b] + rest) == kept + DropIncomplete(rest);
      if k == 0 {
        assert b.means[0] == Mean(Present([], 0)) == None;
        assert kept == [];
      }
    }
  }

  /** There are no more output rows than hours spanned, and, with at least
      one value column, no more than input rows. */
  lemma HourlySize(rows: seq<Row>, ncols: nat)
    ensures rows == [] ==> Hourly(rows, ncols) == []
    ensures rows != [] ==>
      |Hourly(rows, ncols)| <= (HourOf(MaxTime(rows)) - HourOf(MinTime(rows))) / HourSeconds + 1
    ensures ncols > 0 ==> |Hourly(rows, ncols)| <= |rows|
  {
    if rows != [] {
      HourlyMeansShape(rows, ncols);
    }
    DropIncompleteShorter(HourlyMeans(rows, ncols));
    if ncols > 0 {
      var sorted := SortByTime(rows);
      HourlyOfSorted(rows, sorted, ncols);
      assert |sorted| == |multiset(sorted)| == |multiset(rows)| == |rows|;
      if sorted != [] {
        var lo, hi := HourOf(sorted[0].time), HourOf(sorted[|sorted| - 1].time);
        HourOfMonotone(sorted[0].time, sorted[|sorted| - 1].time);
        BinsKeptBound(sorted, lo, BinCount(lo, hi), ncols);
      }
    }
  }

  /** The result does not depend on the order of the input rows. */
  lemma HourlyPermutation(a: seq<Row>, b: seq<Row>, ncols: nat)
    requires multiset(a) == multiset(b)
    ensures Hourly(a, ncols) == Hourly(b, ncols)
  {
    HourlyMeansPermutation(a, b, ncols);
  }
}
