/** The grouping the three scenes share: `d3.rollup(rows, v => v.length, year, key)`
    (a count per key per year, keys kept in the order they are first seen), the sort of
    the per-year rows by year, and the per-key line series built from the sorted rows. */
module Grouping {

  /** One `{key, count}` entry of a year's inner map. */
  datatype Bucket<K> = Bucket(key: K, count: nat)

  /** One year of a rolled-up map: `{year, ratings}` in scene 2, `{year, seasons}` in scene 3. */
  datatype Row<K> = Row(year: int, buckets: seq<Bucket<K>>)

  /** One `{year, count}` point of a line. */
  datatype Point = Point(year: int, count: nat)

  /** The data of one drawn line: the key it is drawn for and one point per row. */
  datatype Line<K> = Line(key: K, points: seq<Point>)

  ghost predicate NoDuplicates<T>(xs: seq<T>) {
    forall i, j :: 0 <= i < j < |xs| ==> xs[i] != xs[j]
  }

  /** The elements of `xs` in the order they are first seen, as a JavaScript `Set`
      or an `InternMap` keeps its keys. */
  function Distinct<T(==,!new)>(xs: seq<T>): (d: seq<T>)
    ensures NoDuplicates(d)
    ensures forall x :: x in d <==> x in xs
  {
    if xs == [] then []
    else
      var init, last := xs[..|xs| - 1], xs[|xs| - 1];
      assert xs == init + [last];
      var d := Distinct(init);
      if last in d then d else d + [last]
  }

  /** The position of the first occurrence of `x` in `xs`. */
  ghost function FirstIndex<T>(xs: seq<T>, x: T): (p: nat)
    requires x in xs
    ensures p < |xs| && xs[p] == x
    ensures forall q :: 0 <= q < p ==> xs[q] != x
  {
    if xs[0] == x then 0 else 1 + FirstIndex(xs[1..], x)
  }

  /** Appending an element leaves the first occurrences of earlier elements where they were,
      and a new element first occurs at the end. */
  lemma FirstIndexSnoc<T>(init: seq<T>, last: T, x: T)
    requires x in init + [last]
    ensures x in init ==> FirstIndex(init + [last], x) == FirstIndex(init, x)
    ensures x !in init ==> FirstIndex(init + [last], x) == |init|
  {
    if x in init {
      assert (init + [last])[FirstIndex(init, x)] == x;
    }
  }

  /** `Distinct` lists the elements in the order of their first occurrence in the input. */
  lemma DistinctOrder<T(!new)>(xs: seq<T>)
    ensures var d := Distinct(xs);
      forall i, j :: 0 <= i < j < |d| ==> FirstIndex(xs, d[i]) < FirstIndex(xs, d[j])
  {
    forall i, j | 0 <= i < j < |Distinct(xs)|
      ensures FirstIndex(xs, Distinct(xs)[i]) < FirstIndex(xs, Distinct(xs)[j])
    {
      DistinctOrderAt(xs, i, j);
    }
  }

  lemma {:induction false} DistinctOrderAt<T(!new)>(xs: seq<T>, i: nat, j: nat)
    requires i < j < |Distinct(xs)|
    ensures FirstIndex(xs, Distinct(xs)[i]) < FirstIndex(xs, Distinct(xs)[j])
  {
    var init, last := xs[..|xs| - 1], xs[|xs| - 1];
    assert xs == init + [last];
    var d0, d := Distinct(init), Distinct(xs);
    assert d == if last in d0 then d0 else d0 + [last];
    assert i < |d0| && d[i] == d0[i];
    assert d0[i] in d0 && d0[i] in init;
    FirstIndexSnoc(init, last, d[i]);
    if j < |d0| {
      assert d[j] == d0[j];
      assert d0[j] in d0 && d0[j] in init;
      FirstIndexSnoc(init, last, d[j]);
      DistinctOrderAt(init, i, j);
    } else {
      assert d[j] == last && last !in init;
      FirstIndexSnoc(init, last, last);
    }
  }

  function Keys<K(==,!new)>(bs: seq<Bucket<K>>): seq<K> {
    seq(|bs|, i requires 0 <= i < |bs| => bs[i].key)
  }

  ghost predicate Positive<K(!new)>(bs: seq<Bucket<K>>) {
    forall i :: 0 <= i < |bs| ==> bs[i].count >= 1
  }

  /** The count of the first bucket with key `k`, or 0 when there is none (a `find` whose
      missing result defaults to 0). */
  function Lookup<K(==,!new)>(bs: seq<Bucket<K>>, k: K): nat {
    if bs == [] then 0
    else if bs[0].key == k then bs[0].count
    else Lookup(bs[1..], k)
  }

  /** The sum of the counts. */
  function Total<K(==,!new)>(bs: seq<Bucket<K>>): nat {
    if bs == [] then 0 else bs[0].count + Total(bs[1..])
  }

  /** Counts one more occurrence of `k`: the bucket for `k` goes up by one, or a bucket
      `{k, 1}` is appended when `k` has not been seen yet. */
  function Bump<K(==,!new)>(bs: seq<Bucket<K>>, k: K): seq<Bucket<K>> {
    if bs == [] then [Bucket(k, 1)]
    else if bs[0].key == k then [Bucket(k, bs[0].count + 1)] + bs[1..]
    else [bs[0]] + Bump(bs[1..], k)
  }

  /** Bumping keeps the keys and their order, appending `k` if it is new. */
  lemma {:induction false} BumpKeys<K(!new)>(bs: seq<Bucket<K>>, k: K)
    ensures Keys(Bump(bs, k)) == if k in Keys(bs) then Keys(bs) else Keys(bs) + [k]
  {
    if bs != [] {
      assert Keys(bs) == [bs[0].key] + Keys(bs[1..]);
      if bs[0].key != k {
        BumpKeys(bs[1..], k);
        assert Keys([bs[0]] + Bump(bs[1..], k)) == [bs[0].key] + Keys(Bump(bs[1..], k));
      }
    }
  }

  /** Bumping raises the count of `k` by one and leaves every other count alone. */
  lemma {:induction false} BumpLookup<K(!new)>(bs: seq<Bucket<K>>, k: K, j: K)
    ensures Lookup(Bump(bs, k), j) == Lookup(bs, j) + (if j == k then 1 else 0)
  {
    if bs != [] && bs[0].key != k {
      BumpLookup(bs[1..], k, j);
      var r := [bs[0]] + Bump(bs[1..], k);
      assert r[0] == bs[0] && r[1..] == Bump(bs[1..], k);
    }
  }

  /** Bumping adds one to the sum of the counts and keeps every count at least 1. */
  lemma {:induction false} BumpTotal<K(!new)>(bs: seq<Bucket<K>>, k: K)
    ensures Total(Bump(bs, k)) == Total(bs) + 1
    ensures Positive(bs) ==> Positive(Bump(bs, k))
  {
    if bs != [] && bs[0].key != k {
      BumpTotal(bs[1..], k);
      var r := [bs[0]] + Bump(bs[1..], k);
      assert r[0] == bs[0] && r[1..] == Bump(bs[1..], k);
    }
  }

  /** The inner reduction `v => v.length` of `d3.rollup` over one group: a bucket per distinct
      key in first-seen order, each holding the number of times its key occurs. */
  function Tally<K(==,!new)>(xs: seq<K>): (r: seq<Bucket<K>>)
    ensures Keys(r) == Distinct(xs)
    ensures forall k :: Lookup(r, k) == multiset(xs)[k]
    ensures Total(r) == |xs|
    ensures Positive(r)
  {
    if xs == [] then []
    else
      var init, last := xs[..|xs| - 1], xs[|xs| - 1];
      assert xs == init + [last];
      var t := Tally(init);
      BumpKeys(t, last);
      BumpTotal(t, last);
      assert forall k :: Lookup(Bump(t, last), k) == multiset(xs)[k] by {
        forall k
          ensures Lookup(Bump(t, last), k) == multiset(xs)[k]
        {
          BumpLookup(t, last, k);
        }
      }
      Bump(t, last)
  }

  /** With no repeated key, the lookup of a bucket's key finds that bucket. */
  lemma {:induction false} LookupPresent<K(!new)>(bs: seq<Bucket<K>>, i: nat)
    requires i < |bs| && NoDuplicates(Keys(bs))
    ensures Lookup(bs, bs[i].key) == bs[i].count
  {
    if i > 0 {
      assert Keys(bs)[0] != Keys(bs)[i];
      assert Keys(bs[1..]) == Keys(bs)[1..];
      LookupPresent(bs[1..], i - 1);
    }
  }

  /** A key no bucket carries looks up as 0 (the `|| 0` of the source). */
  lemma {:induction false} LookupAbsent<K(!new)>(bs: seq<Bucket<K>>, k: K)
    requires k !in Keys(bs)
    ensures Lookup(bs, k) == 0
  {
    if bs != [] {
      assert Keys(bs) == [bs[0].key] + Keys(bs[1..]);
      LookupAbsent(bs[1..], k);
    }
  }

  /** The year of every (year, key) pair, in order. */
  function YearsOf<K(==,!new)>(ps: seq<(int, K)>): (ys: seq<int>)
    ensures |ys| == |ps|
  {
    if ps == [] then [] else YearsOf(ps[..|ps| - 1]) + [ps[|ps| - 1].0]
  }

  /** The group `d3.rollup` forms for year `y`: the keys of the pairs of that year, in order. */
  function KeysOfYear<K(==,!new)>(ps: seq<(int, K)>, y: int): seq<K> {
    if ps == [] then []
    else KeysOfYear(ps[..|ps| - 1], y) + (if ps[|ps| - 1].0 == y then [ps[|ps| - 1].1] else [])
  }

  /** Each key occurs in the group of year `y` as often as it is paired with `y`. */
  lemma {:induction false} KeysOfYearCount<K(!new)>(ps: seq<(int, K)>, y: int, k: K)
    ensures multiset(KeysOfYear(ps, y))[k] == multiset(ps)[(y, k)]
  {
    if ps != [] {
      var init, last := ps[..|ps| - 1], ps[|ps| - 1];
      assert ps == init + [last];
      KeysOfYearCount(init, y, k);
    }
  }

  /** The group of year `y` has one key per pair of that year. */
  lemma {:induction false} KeysOfYearLength<K(!new)>(ps: seq<(int, K)>, y: int)
    ensures |KeysOfYear(ps, y)| == multiset(YearsOf(ps))[y]
  {
    if ps != [] {
      var init, last := ps[..|ps| - 1], ps[|ps| - 1];
      assert ps == init + [last];
      KeysOfYearLength(init, y);
    }
  }

  /** `d3.rollup(ps, v => v.length, p => p.year, p => p.key)` read out with `Array.from`: one row
      per distinct year in first-seen order, each holding the tally of that year's keys. */
  function Rollup<K(==,!new)>(ps: seq<(int, K)>): seq<Row<K>> {
    var ys := Distinct(YearsOf(ps));
    seq(|ys|, i requires 0 <= i < |ys| => Row(ys[i], Tally(KeysOfYear(ps, ys[i]))))
  }

  function RowYears<K(==,!new)>(rows: seq<Row<K>>): seq<int> {
    seq(|rows|, i requires 0 <= i < |rows| => rows[i].year)
  }

  /** `row` is the correct count, by key, of the pairs of `ps` in `row.year`. */
  ghost predicate Tallies<K(!new)>(row: Row<K>, ps: seq<(int, K)>) {
    && NoDuplicates(Keys(row.buckets))
    && Positive(row.buckets)
    && (forall k :: Lookup(row.buckets, k) == multiset(ps)[(row.year, k)])
    && Total(row.buckets) == multiset(YearsOf(ps))[row.year]
  }

  /** `rows` has a row for exactly the years of `ps`, and each row counts its year correctly. */
  ghost predicate Summarizes<K(!new)>(rows: seq<Row<K>>, ps: seq<(int, K)>) {
    && (forall y :: y in RowYears(rows) <==> y in YearsOf(ps))
    && (forall r :: r in rows ==> Tallies(r, ps))
  }

  lemma RollupSummarizes<K(!new)>(ps: seq<(int, K)>)
    ensures Summarizes(Rollup(ps), ps)
    ensures NoDuplicates(RowYears(Rollup(ps)))
  {
    var rows := Rollup(ps);
    assert RowYears(rows) == Distinct(YearsOf(ps));
    forall r | r in rows
      ensures Tallies(r, ps)
    {
      var i :| 0 <= i < |rows| && rows[i] == r;
      RollupRow(ps, i);
    }
  }

  lemma RollupRow<K(!new)>(ps: seq<(int, K)>, i: nat)
    requires i < |Rollup(ps)|
    ensures Tallies(Rollup(ps)[i], ps)
  {
    var y := Distinct(YearsOf(ps))[i];
    var ks := KeysOfYear(ps, y);
    assert Rollup(ps)[i] == Row(y, Tally(ks));
    assert Keys(Tally(ks)) == Distinct(ks);
    forall k
      ensures Lookup(Tally(ks), k) == multiset(ps)[(y, k)]
    {
      KeysOfYearCount(ps, y, k);
    }
    KeysOfYearLength(ps, y);
  }

  /** Rows of strictly increasing year. */
  ghost predicate Ascending<K(!new)>(rows: seq<Row<K>>) {
    forall i, j :: 0 <= i < j < |rows| ==> rows[i].year < rows[j].year
  }

  function InsertRow<K(==,!new)>(x: Row<K>, s: seq<Row<K>>): (r: seq<Row<K>>)
    ensures multiset(r) == multiset(s) + multiset{x}
  {
    if s == [] then [x]
    else if x.year <= s[0].year then [x] + s
    else
      assert s == [s[0]] + s[1..];
      [s[0]] + InsertRow(x, s[1..])
  }

  /** The rows sorted by ascending year. The years of a rolled-up map are distinct, so
      every correct sort gives this same order. */
  function SortRows<K(==,!new)>(rows: seq<Row<K>>): (r: seq<Row<K>>)
    ensures multiset(r) == multiset(rows)
  {
    if rows == [] then []
    else
      assert rows == [rows[0]] + rows[1..];
      InsertRow(rows[0], SortRows(rows[1..]))
  }

  lemma {:induction false} InsertRowAscending<K(!new)>(x: Row<K>, s: seq<Row<K>>)
    requires Ascending(s)
    requires forall i :: 0 <= i < |s| ==> s[i].year != x.year
    ensures Ascending(InsertRow(x, s))
  {
    if s != [] && x.year > s[0].year {
      InsertRowAscending(x, s[1..]);
      var r := InsertRow(x, s[1..]);
      forall j | 0 <= j < |r|
        ensures s[0].year < r[j].year
      {
        assert r[j] in multiset(r);
        if r[j] != x {
          assert r[j] in multiset(s[1..]);
          var k :| 0 <= k < |s[1..]| && s[1..][k] == r[j];
          assert s[k + 1] == r[j];
        }
      }
    }
  }

  /** Sorting distinct years gives strictly increasing rows. */
  lemma {:induction false} SortRowsAscending<K(!new)>(rows: seq<Row<K>>)
    requires NoDuplicates(RowYears(rows))
    ensures Ascending(SortRows(rows))
  {
    if rows != [] {
      assert RowYears(rows[1..]) == RowYears(rows)[1..];
      SortRowsAscending(rows[1..]);
      var s := SortRows(rows[1..]);
      forall i | 0 <= i < |s|
        ensures s[i].year != rows[0].year
      {
        assert s[i] in multiset(rows[1..]);
        var k :| 0 <= k < |rows[1..]| && rows[1..][k] == s[i];
        assert RowYears(rows)[0] != RowYears(rows)[k + 1];
      }
      InsertRowAscending(rows[0], s);
    }
  }

  /** Reordering rows keeps what they summarize. */
  lemma PermutedSummarizes<K(!new)>(rows: seq<Row<K>>, rows': seq<Row<K>>, ps: seq<(int, K)>)
    requires multiset(rows') == multiset(rows)
    requires Summarizes(rows, ps)
    ensures Summarizes(rows', ps)
  {
    forall y
      ensures y in RowYears(rows') <==> y in RowYears(rows)
    {
      if y in RowYears(rows') {
        var i :| 0 <= i < |rows'| && RowYears(rows')[i] == y;
        assert rows'[i] in multiset(rows);
        var j :| 0 <= j < |rows| && rows[j] == rows'[i];
        assert RowYears(rows)[j] == y;
      }
      if y in RowYears(rows) {
        var i :| 0 <= i < |rows| && RowYears(rows)[i] == y;
        assert rows[i] in multiset(rows');
        var j :| 0 <= j < |rows'| && rows'[j] == rows[i];
        assert RowYears(rows')[j] == y;
      }
    }
    forall r | r in rows'
      ensures Tallies(r, ps)
    {
      assert r in multiset(rows);
    }
  }

  /** The rolled-up rows of `ps`, sorted by year: one row per year of `ps`, in strictly
      increasing order, each counting its year correctly. */
  lemma SortedRollup<K(!new)>(ps: seq<(int, K)>)
    ensures Summarizes(SortRows(Rollup(ps)), ps)
    ensures Ascending(SortRows(Rollup(ps)))
  {
    RollupSummarizes(ps);
    PermutedSummarizes(Rollup(ps), SortRows(Rollup(ps)), ps);
    SortRowsAscending(Rollup(ps));
  }

  /** The order fact of `SortedRollup` alone. */
  lemma SortedRollupAscending<K(!new)>(ps: seq<(int, K)>)
    ensures Ascending(SortRows(Rollup(ps)))
  {
    RollupSummarizes(ps);
    SortRowsAscending(Rollup(ps));
  }

  /** The year fact of `SortedRollup`, one year at a time. */
  lemma SortedRollupYear<K(!new)>(ps: seq<(int, K)>, y: int)
    ensures y in RowYears(SortRows(Rollup(ps))) <==> y in YearsOf(ps)
  {
    SortedRollup(ps);
  }

  /** The facts of `SortedRollup`, one row at a time. */
  lemma SortedRollupAt<K(!new)>(ps: seq<(int, K)>, i: nat)
    requires i < |SortRows(Rollup(ps))|
    ensures SortRows(Rollup(ps))[i].year in YearsOf(ps)
    ensures Tallies(SortRows(Rollup(ps))[i], ps)
  {
    var rows := SortRows(Rollup(ps));
    SortedRollup(ps);
    assert rows[i] in rows;
    assert RowYears(rows)[i] == rows[i].year;
  }

  /** Each sorted row keeps its year's keys in the order they are first seen in `ps`. */
  lemma SortedRollupKeys<K(!new)>(ps: seq<(int, K)>, i: nat)
    requires i < |SortRows(Rollup(ps))|
    ensures var r := SortRows(Rollup(ps))[i]; var ks := KeysOfYear(ps, r.year);
      && Keys(r.buckets) == Distinct(ks)
      && forall a, b :: 0 <= a < b < |Keys(r.buckets)| ==> FirstIndex(ks, Keys(r.buckets)[a]) < FirstIndex(ks, Keys(r.buckets)[b])
  {
    var rows := SortRows(Rollup(ps));
    var r := rows[i];
    assert r in multiset(Rollup(ps));
    var j :| 0 <= j < |Rollup(ps)| && Rollup(ps)[j] == r;
    DistinctOrder(KeysOfYear(ps, r.year));
  }

  /** The keys of every row's buckets, row after row. */
  function KeysOfRows<K(==,!new)>(rows: seq<Row<K>>): seq<K> {
    if rows == [] then [] else Keys(rows[0].buckets) + KeysOfRows(rows[1..])
  }

  lemma {:induction false} KeysOfRowsMember<K(!new)>(rows: seq<Row<K>>, k: K)
    ensures k in KeysOfRows(rows) <==> exists j :: 0 <= j < |rows| && k in Keys(rows[j].buckets)
  {
    if rows != [] {
      KeysOfRowsMember(rows[1..], k);
      if exists j :: 0 <= j < |rows| && k in Keys(rows[j].buckets) {
        var j :| 0 <= j < |rows| && k in Keys(rows[j].buckets);
        if j > 0 { assert rows[1..][j - 1] == rows[j]; }
      }
      if exists j :: 0 <= j < |rows[1..]| && k in Keys(rows[1..][j].buckets) {
        var j :| 0 <= j < |rows[1..]| && k in Keys(rows[1..][j].buckets);
        assert rows[j + 1] == rows[1..][j];
      }
    }
  }

  /** The points of the line for key `k`: one per row, the row's count for `k` or 0. */
  function PointsFor<K(==,!new)>(rows: seq<Row<K>>, k: K): seq<Point> {
    seq(|rows|, j requires 0 <= j < |rows| => Point(rows[j].year, Lookup(rows[j].buckets, k)))
  }

  /** One line per distinct key across the rows, in first-seen order. */
  function Series<K(==,!new)>(rows: seq<Row<K>>): seq<Line<K>> {
    var ks := Distinct(KeysOfRows(rows));
    seq(|ks|, i requires 0 <= i < |ks| => Line(ks[i], PointsFor(rows, ks[i])))
  }

  function LineKeys<K(==,!new)>(ls: seq<Line<K>>): seq<K> {
    seq(|ls|, i requires 0 <= i < |ls| => ls[i].key)
  }

  /** One line per key that occurs in some row, each key once, in the order the keys are first
      seen along the rows; every line has a point per row with that row's year, whose count is
      the row's bucket count for the key, or 0 when the row has no bucket for it. */
  lemma SeriesSpec<K(!new)>(rows: seq<Row<K>>)
    requires forall r :: r in rows ==> NoDuplicates(Keys(r.buckets))
    ensures var ls := Series(rows);
      && LineKeys(ls) == Distinct(KeysOfRows(rows))
      && NoDuplicates(LineKeys(ls))
      && (forall k :: k in LineKeys(ls) <==> exists j :: 0 <= j < |rows| && k in Keys(rows[j].buckets))
      && (forall i :: 0 <= i < |ls| ==> |ls[i].points| == |rows|)
      && (forall i, j :: 0 <= i < |ls| && 0 <= j < |rows| ==>
            && ls[i].points[j].year == rows[j].year
            && (forall b :: b in rows[j].buckets && b.key == ls[i].key ==> ls[i].points[j].count == b.count)
            && (ls[i].key !in Keys(rows[j].buckets) ==> ls[i].points[j].count == 0))
  {
    var ls := Series(rows);
    assert LineKeys(ls) == Distinct(KeysOfRows(rows));
    forall k
      ensures k in LineKeys(ls) <==> exists j :: 0 <= j < |rows| && k in Keys(rows[j].buckets)
    {
      KeysOfRowsMember(rows, k);
    }
    forall i, j, b | 0 <= i < |ls| && 0 <= j < |rows| && b in rows[j].buckets && b.key == ls[i].key
      ensures ls[i].points[j].count == b.count
    {
      var n :| 0 <= n < |rows[j].buckets| && rows[j].buckets[n] == b;
      assert rows[j] in rows;
      LookupPresent(rows[j].buckets, n);
    }
    forall i, j | 0 <= i < |ls| && 0 <= j < |rows| && ls[i].key !in Keys(rows[j].buckets)
      ensures ls[i].points[j].count == 0
    {
      LookupAbsent(rows[j].buckets, ls[i].key);
    }
  }

  /** The lines come in the order their keys are first seen along the rows. */
  lemma SeriesOrder<K(!new)>(rows: seq<Row<K>>)
    ensures var ls, ks := Series(rows), KeysOfRows(rows);
      && (forall i :: 0 <= i < |ls| ==> ls[i].key in ks)
      && forall i, j :: 0 <= i < j < |ls| ==> FirstIndex(ks, ls[i].key) < FirstIndex(ks, ls[j].key)
  {
    var ls, ks := Series(rows), KeysOfRows(rows);
    assert forall i :: 0 <= i < |ls| ==> ls[i].key == Distinct(ks)[i];
    forall i, j | 0 <= i < j < |ls|
      ensures FirstIndex(ks, ls[i].key) < FirstIndex(ks, ls[j].key)
    {
      DistinctOrderAt(ks, i, j);
    }
  }

  /** Over rows that each count their year of `ps`, every point of a line is the number of
      pairs of `ps` with the point's year and the line's key. */
  lemma SeriesTallies<K(!new)>(rows: seq<Row<K>>, ps: seq<(int, K)>)
    requires forall r :: r in rows ==> Tallies(r, ps)
    ensures var ls := Series(rows);
      forall i, j :: 0 <= i < |ls| && 0 <= j < |rows| ==>
        ls[i].points[j].count == multiset(ps)[(rows[j].year, ls[i].key)]
  {
    var ls := Series(rows);
    forall i, j | 0 <= i < |ls| && 0 <= j < |rows|
      ensures ls[i].points[j].count == multiset(ps)[(rows[j].year, ls[i].key)]
    {
      assert rows[j] in rows;
    }
  }
}
