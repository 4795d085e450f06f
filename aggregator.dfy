/** What the three scenes compute from the titles and the slider's year before anything is
    drawn: the filtered, rolled-up and sorted rows, the axis domains and the line series. */
module Aggregator {
  import opened Extent
  import opened Grouping
  import opened Durations
  import opened DataStore

  const Movie := "Movie"
  const TvShow := "TV Show"

  /** The second grouping key of scenes 1 and 2: the title's type or its rating. */
  datatype Attribute = Kind | Rating

  /** `{year, movies, shows}`, a row of scene 1. */
  datatype TypeRow = TypeRow(year: int, movies: nat, shows: nat)

  /** `[lo, hi]`, the domain of an axis. */
  datatype Domain = Domain(lo: int, hi: int)

  /** What a scene hands to the drawing code. */
  datatype SceneView =
    | TypeChart(typeRows: seq<TypeRow>, x: Option<Domain>, y: Option<Domain>)
    | RatingChart(ratingRows: seq<Row<string>>, ratingLines: seq<Line<string>>, x: Option<Domain>, y: Option<Domain>)
    | SeasonChart(seasonRows: seq<Row<nat>>, seasonLines: seq<Line<nat>>, x: Option<Domain>, y: Option<Domain>)

  function Attr(t: Title, a: Attribute): string {
    match a
    case Kind => t.kind
    case Rating => t.rating
  }

  /** The titles released in `year` or earlier, in their order (the filter of scenes 1 and 2). */
  function UpTo(data: seq<Title>, year: int): seq<Title> {
    if data == [] then []
    else UpTo(data[..|data| - 1], year) + (if data[|data| - 1].year <= year then [data[|data| - 1]] else [])
  }

  /** The durations of `ts` all hold a digit. */
  ghost predicate Parsable(ts: seq<Title>) {
    forall i :: 0 <= i < |ts| ==> HasDigit(ts[i].duration)
  }

  /** Every title scene 3 keeps for `year` has a digit in its duration, so that the
      digit-run match of the source finds one. */
  ghost predicate SeasonsParsable(data: seq<Title>, year: int) {
    forall i :: 0 <= i < |data| && data[i].year <= year && Includes(data[i].duration, SeasonWord) ==>
      HasDigit(data[i].duration)
  }

  /** The titles released in `year` or earlier whose duration contains "Season", in their
      order (the filter of scene 3). When every
      title that passes the filter holds a digit, so does every title kept. */
  function Seasonal(data: seq<Title>, year: int): (r: seq<Title>)
    ensures SeasonsParsable(data, year) ==> Parsable(r)
  {
    if data == [] then []
    else
      var init, last := data[..|data| - 1], data[|data| - 1];
      var tail := if last.year <= year && Includes(last.duration, SeasonWord) then [last] else [];
      assert SeasonsParsable(data, year) ==> SeasonsParsable(init, year) && Parsable(tail) by {
        if SeasonsParsable(data, year) {
          forall i | 0 <= i < |init| ensures init[i] == data[i] { }
        }
      }
      Seasonal(init, year) + tail
  }

  /** The (year, key) pair `d3.rollup` groups each title by. */
  function Pairs(ts: seq<Title>, a: Attribute): seq<(int, string)> {
    seq(|ts|, i requires 0 <= i < |ts| => (ts[i].year, Attr(ts[i], a)))
  }

  /** The scene-3 pair of each title: its year and its `season_count`. */
  function SeasonPairs(ts: seq<Title>): seq<(int, nat)>
    requires Parsable(ts)
  {
    seq(|ts|, i requires 0 <= i < |ts| => (ts[i].year, SeasonCount(ts[i].duration)))
  }

  /** The `season_count` the source writes onto each title scene 3 keeps. */
  method AnnotateSeasons(kept: seq<Title>) returns (counts: seq<nat>)
    requires Parsable(kept)
    ensures |counts| == |kept|
    ensures forall i :: 0 <= i < |kept| ==> counts[i] == SeasonCount(kept[i].duration)
  {
    counts := [];
    for i := 0 to |kept|
      invariant |counts| == i
      invariant forall j :: 0 <= j < i ==> counts[j] == SeasonCount(kept[j].duration)
    {
      counts := counts + [SeasonCount(kept[i].duration)];
    }
  }

  /** Scene 1: the titles up to `year` rolled up by year and type, sorted by year, each year
      read out as its "Movie" and "TV Show" counts (0 when absent). Sorting the rolled-up
      rows before the read-out gives the order the source gets by sorting after it, since
      the read-out keeps the year. */
  function Scene1(data: seq<Title>, year: int): seq<TypeRow> {
    var rows := SortRows(Rollup(Pairs(UpTo(data, year), Kind)));
    seq(|rows|, i requires 0 <= i < |rows| =>
      TypeRow(rows[i].year, Lookup(rows[i].buckets, Movie), Lookup(rows[i].buckets, TvShow)))
  }

  /** Scene 2: the titles up to `year` rolled up by year and rating, sorted by year. */
  function Scene2(data: seq<Title>, year: int): seq<Row<string>> {
    SortRows(Rollup(Pairs(UpTo(data, year), Rating)))
  }

  /** Scene 3: the titles up to `year` whose duration names a season, rolled up by year and
      season count, sorted by year. */
  function Scene3(data: seq<Title>, year: int): seq<Row<nat>>
    requires SeasonsParsable(data, year)
  {
    SortRows(Rollup(SeasonPairs(Seasonal(data, year))))
  }

  function TypeRowYears(rows: seq<TypeRow>): seq<int> {
    seq(|rows|, i requires 0 <= i < |rows| => rows[i].year)
  }

  /** The larger of the two counts of each row of scene 1. */
  function Peaks(rows: seq<TypeRow>): seq<int> {
    seq(|rows|, i requires 0 <= i < |rows| => if rows[i].movies >= rows[i].shows then rows[i].movies else rows[i].shows)
  }

  /** Every bucket count of every row, in order. The y-domain of scenes 2 and 3 is the maximum
      over the rows of each row's maximum bucket count; every rolled-up row has a bucket, so
      that is the maximum of this sequence. */
  function CountsOfRows<K>(rows: seq<Row<K>>): seq<int> {
    if rows == [] then []
    else
      var head := seq(|rows[0].buckets|, n requires 0 <= n < |rows[0].buckets| => rows[0].buckets[n].count as int);
      head + CountsOfRows(rows[1..])
  }

  /** `[d3.min(years), d3.max(years)]`; nothing when there are no rows. */
  function XDomain(years: seq<int>): (r: Option<Domain>)
    ensures r.None? <==> |years| == 0
    ensures r.Some? ==> r.value.lo in years && r.value.hi in years
    ensures r.Some? ==> forall i :: 0 <= i < |years| ==> r.value.lo <= years[i] <= r.value.hi
  {
    match (MinOf(years), MaxOf(years))
    case (Some(lo), Some(hi)) => Some(Domain(lo, hi))
    case _ => None
  }

  /** `[0, d3.max(counts)]`; nothing when there are no counts. */
  function YDomain(counts: seq<int>): (r: Option<Domain>)
    ensures r.None? <==> |counts| == 0
    ensures r.Some? ==> r.value.lo == 0 && r.value.hi in counts
    ensures r.Some? ==> forall i :: 0 <= i < |counts| ==> counts[i] <= r.value.hi
  {
    match MaxOf(counts)
    case Some(hi) => Some(Domain(0, hi))
    case None => None
  }

  function TypeView(data: seq<Title>, year: int): SceneView {
    var rows := Scene1(data, year);
    TypeChart(rows, XDomain(TypeRowYears(rows)), YDomain(Peaks(rows)))
  }

  function RatingView(data: seq<Title>, year: int): SceneView {
    var rows := Scene2(data, year);
    RatingChart(rows, Series(rows), XDomain(RowYears(rows)), YDomain(CountsOfRows(rows)))
  }

  function SeasonView(data: seq<Title>, year: int): SceneView
    requires SeasonsParsable(data, year)
  {
    var rows := Scene3(data, year);
    SeasonChart(rows, Series(rows), XDomain(RowYears(rows)), YDomain(CountsOfRows(rows)))
  }

  // ---------------------------------------------------------------------------------------
  // Properties

  lemma YearsAppend(a: seq<Title>, b: seq<Title>)
    ensures Years(a + b) == Years(a) + Years(b)
  {
  }

  lemma PairsAppend(a: seq<Title>, b: seq<Title>, attr: Attribute)
    ensures Pairs(a + b, attr) == Pairs(a, attr) + Pairs(b, attr)
  {
  }

  lemma YearsMember(ts: seq<Title>, y: int)
    ensures y in Years(ts) <==> exists t :: t in ts && t.year == y
  {
    if exists t :: t in ts && t.year == y {
      var t :| t in ts && t.year == y;
      var i :| 0 <= i < |ts| && ts[i] == t;
      assert Years(ts)[i] == y;
    }
  }

  /** The rolled-up pairs carry the years of the titles they come from. */
  lemma {:induction false} YearsOfAligned<K(!new)>(ps: seq<(int, K)>, ts: seq<Title>)
    requires |ps| == |ts|
    requires forall i :: 0 <= i < |ps| ==> ps[i].0 == ts[i].year
    ensures YearsOf(ps) == Years(ts)
  {
    if ps != [] {
      var n := |ps| - 1;
      YearsOfAligned(ps[..n], ts[..n]);
      assert Years(ts) == Years(ts[..n]) + [ts[n].year];
    }
  }

  /** Filtering up to `year` keeps every count of (year, key) pairs for a year not after `year`. */
  lemma {:induction false} UpToPairCount(data: seq<Title>, year: int, attr: Attribute, y: int, k: string)
    requires y <= year
    ensures multiset(Pairs(UpTo(data, year), attr))[(y, k)] == multiset(Pairs(data, attr))[(y, k)]
  {
    if data != [] {
      var init, last := data[..|data| - 1], data[|data| - 1];
      UpToPairCount(init, year, attr, y, k);
      assert data == init + [last];
      UpToSnoc(init, last, year);
      var kept := if last.year <= year then [last] else [];
      PairsAppend(init, [last], attr);
      PairsAppend(UpTo(init, year), kept, attr);
      assert Pairs([last], attr) == [(last.year, Attr(last, attr))];
      assert Pairs(kept, attr) == if last.year <= year then [(last.year, Attr(last, attr))] else [];
    }
  }

  /** Filtering up to `year` keeps the number of titles of a year not after `year`. */
  lemma {:induction false} UpToYearCount(data: seq<Title>, year: int, y: int)
    requires y <= year
    ensures multiset(Years(UpTo(data, year)))[y] == multiset(Years(data))[y]
  {
    if data != [] {
      var init, last := data[..|data| - 1], data[|data| - 1];
      UpToYearCount(init, year, y);
      assert data == init + [last];
      UpToSnoc(init, last, year);
      var kept := if last.year <= year then [last] else [];
      YearsAppend(init, [last]);
      YearsAppend(UpTo(init, year), kept);
      assert Years([last]) == [last.year];
      assert Years(kept) == if last.year <= year then [last.year] else [];
    }
  }

  /** The filter of `init + [last]` is the filter of `init`, followed by `last` if it is kept. */
  lemma UpToSnoc(init: seq<Title>, last: Title, year: int)
    ensures UpTo(init + [last], year) == UpTo(init, year) + (if last.year <= year then [last] else [])
  {
    var d := init + [last];
    assert d[..|d| - 1] == init;
  }

  /** A year occurs among the titles up to `year` exactly when it is not after `year` and
      occurs among all titles. */
  lemma YearsUpTo(data: seq<Title>, year: int, y: int)
    ensures y in Years(UpTo(data, year)) <==> y <= year && y in Years(data)
  {
    var kept := UpTo(data, year);
    YearsMember(kept, y);
    YearsMember(data, y);
    if y in Years(kept) {
      var t :| t in kept && t.year == y;
      UpToMember(data, year, t);
    }
    if y <= year && y in Years(data) {
      var t :| t in data && t.year == y;
      UpToMember(data, year, t);
    }
  }

  /** The filter keeps every title of year at most `year` as often as it occurs, and no other. */
  lemma {:induction false} UpToCount(data: seq<Title>, year: int, t: Title)
    ensures multiset(UpTo(data, year))[t] == if t.year <= year then multiset(data)[t] else 0
  {
    if data != [] {
      var init, last := data[..|data| - 1], data[|data| - 1];
      assert data == init + [last];
      UpToCount(init, year, t);
    }
  }

  /** A title is kept up to `year` exactly when it is in the data and not after `year`. */
  lemma UpToMember(data: seq<Title>, year: int, t: Title)
    ensures t in UpTo(data, year) <==> t in data && t.year <= year
  {
    UpToCount(data, year, t);
    assert t in UpTo(data, year) <==> t in multiset(UpTo(data, year));
    assert t in data <==> t in multiset(data);
  }

  /** Scene 1 (lines 84-91): one row per year that has a title up to `year`, in strictly
      increasing order; `movies` is the number of titles of that year whose type is
      "Movie" and `shows` the number whose type is "TV Show", so titles of any other type
      count toward neither. */
  lemma Scene1Spec(data: seq<Title>, year: int)
    ensures var rows := Scene1(data, year);
      && (forall i, j :: 0 <= i < j < |rows| ==> rows[i].year < rows[j].year)
      && (forall y :: y in TypeRowYears(rows) <==> y <= year && y in Years(data))
      && (forall i :: 0 <= i < |rows| ==>
            && rows[i].year <= year
            && rows[i].movies == multiset(Pairs(data, Kind))[(rows[i].year, Movie)]
            && rows[i].shows == multiset(Pairs(data, Kind))[(rows[i].year, TvShow)])
  {
    Scene1Ascending(data, year);
    Scene1YearSet(data, year);
    var rows := Scene1(data, year);
    forall i | 0 <= i < |rows|
      ensures rows[i].year <= year
      ensures rows[i].movies == multiset(Pairs(data, Kind))[(rows[i].year, Movie)]
      ensures rows[i].shows == multiset(Pairs(data, Kind))[(rows[i].year, TvShow)]
    {
      Scene1Row(data, year, i);
    }
  }

  lemma Scene1Ascending(data: seq<Title>, year: int)
    ensures var rows := Scene1(data, year);
      forall i, j :: 0 <= i < j < |rows| ==> rows[i].year < rows[j].year
  {
    SortedRollupAscending(Pairs(UpTo(data, year), Kind));
  }

  lemma Scene1YearSet(data: seq<Title>, year: int)
    ensures forall y :: y in TypeRowYears(Scene1(data, year)) <==> y <= year && y in Years(data)
  {
    var kept := UpTo(data, year);
    var ps := Pairs(kept, Kind);
    YearsOfAligned(ps, kept);
    assert TypeRowYears(Scene1(data, year)) == RowYears(SortRows(Rollup(ps)));
    forall y
      ensures y in RowYears(SortRows(Rollup(ps))) <==> y <= year && y in Years(data)
    {
      SortedRollupYear(ps, y);
      YearsUpTo(data, year, y);
    }
  }

  lemma Scene1Row(data: seq<Title>, year: int, i: nat)
    requires i < |Scene1(data, year)|
    ensures var r := Scene1(data, year)[i];
      && r.year <= year
      && r.movies == multiset(Pairs(data, Kind))[(r.year, Movie)]
      && r.shows == multiset(Pairs(data, Kind))[(r.year, TvShow)]
  {
    var ps := Pairs(UpTo(data, year), Kind);
    var r := SortRows(Rollup(ps))[i];
    SortedRollupAt(ps, i);
    UpToTallies(data, year, Kind, r);
  }

  /** A row that counts a year of the titles up to `year` counts that year of all titles. */
  lemma UpToTallies(data: seq<Title>, year: int, attr: Attribute, r: Row<string>)
    requires r.year in YearsOf(Pairs(UpTo(data, year), attr))
    requires Tallies(r, Pairs(UpTo(data, year), attr))
    ensures r.year <= year
    ensures forall k :: Lookup(r.buckets, k) == multiset(Pairs(data, attr))[(r.year, k)]
    ensures Total(r.buckets) == multiset(Years(data))[r.year]
  {
    var kept := UpTo(data, year);
    YearsOfAligned(Pairs(kept, attr), kept);
    YearsUpTo(data, year, r.year);
    forall k
      ensures Lookup(r.buckets, k) == multiset(Pairs(data, attr))[(r.year, k)]
    {
      UpToPairCount(data, year, attr, r.year, k);
    }
    UpToYearCount(data, year, r.year);
  }

  /** Scene 2 (lines 219-225): one row per year that has a title up to `year`, strictly
      increasing; within a row the ratings are distinct, every count is at least 1, the count
      of each rating is the number of titles of that year with that rating, and the counts
      add up to the number of titles of that year. */
  lemma Scene2Spec(data: seq<Title>, year: int)
    ensures var rows := Scene2(data, year);
      && Ascending(rows)
      && (forall y :: y in RowYears(rows) <==> y <= year && y in Years(data))
      && (forall r :: r in rows ==>
            && r.year <= year
            && NoDuplicates(Keys(r.buckets))
            && Positive(r.buckets)
            && (forall k :: Lookup(r.buckets, k) == multiset(Pairs(data, Rating))[(r.year, k)])
            && Total(r.buckets) == multiset(Years(data))[r.year])
  {
    var rows := Scene2(data, year);
    SortedRollupAscending(Pairs(UpTo(data, year), Rating));
    Scene2YearSet(data, year);
    forall r | r in rows
      ensures r.year <= year
      ensures NoDuplicates(Keys(r.buckets)) && Positive(r.buckets)
      ensures forall k :: Lookup(r.buckets, k) == multiset(Pairs(data, Rating))[(r.year, k)]
      ensures Total(r.buckets) == multiset(Years(data))[r.year]
    {
      var i :| 0 <= i < |rows| && rows[i] == r;
      Scene2Row(data, year, i);
    }
  }

  lemma Scene2YearSet(data: seq<Title>, year: int)
    ensures forall y :: y in RowYears(Scene2(data, year)) <==> y <= year && y in Years(data)
  {
    var kept := UpTo(data, year);
    var ps := Pairs(kept, Rating);
    YearsOfAligned(ps, kept);
    forall y
      ensures y in RowYears(Scene2(data, year)) <==> y <= year && y in Years(data)
    {
      SortedRollupYear(ps, y);
      YearsUpTo(data, year, y);
    }
  }

  lemma Scene2Row(data: seq<Title>, year: int, i: nat)
    requires i < |Scene2(data, year)|
    ensures var r := Scene2(data, year)[i];
      && r.year <= year
      && NoDuplicates(Keys(r.buckets))
      && Positive(r.buckets)
      && (forall k :: Lookup(r.buckets, k) == multiset(Pairs(data, Rating))[(r.year, k)])
      && Total(r.buckets) == multiset(Years(data))[r.year]
  {
    var ps := Pairs(UpTo(data, year), Rating);
    var r := SortRows(Rollup(ps))[i];
    SortedRollupAt(ps, i);
    UpToTallies(data, year, Rating, r);
  }

  /** The ratings of a scene-2 row are the ratings of that year's titles up to `year`, each
      once, in the order they are first seen in the data. */
  lemma Scene2Keys(data: seq<Title>, year: int, i: nat)
    requires i < |Scene2(data, year)|
    ensures var r := Scene2(data, year)[i]; var ks := KeysOfYear(Pairs(UpTo(data, year), Rating), r.year);
      && Keys(r.buckets) == Distinct(ks)
      && forall a, b :: 0 <= a < b < |Keys(r.buckets)| ==> FirstIndex(ks, Keys(r.buckets)[a]) < FirstIndex(ks, Keys(r.buckets)[b])
  {
    SortedRollupKeys(Pairs(UpTo(data, year), Rating), i);
  }

  /** Scene 3 (lines 335-349): one row per year of the titles kept (year at most `year`,
      "Season" in the duration), strictly increasing; within a row the season counts are
      distinct keys, every count is at least 1, the count of a key is the number of kept
      titles of that year with that season count, and the counts add up to the number of
      kept titles of that year. */
  lemma Scene3Spec(data: seq<Title>, year: int)
    requires SeasonsParsable(data, year)
    ensures var rows, kept := Scene3(data, year), Seasonal(data, year);
      && Ascending(rows)
      && (forall y :: y in RowYears(rows) <==> y in Years(kept))
      && (forall r :: r in rows ==>
            && r.year <= year
            && NoDuplicates(Keys(r.buckets))
            && Positive(r.buckets)
            && (forall k :: Lookup(r.buckets, k) == multiset(SeasonPairs(kept))[(r.year, k)])
            && Total(r.buckets) == multiset(Years(kept))[r.year])
  {
    var kept := Seasonal(data, year);
    var rows := Scene3(data, year);
    SortedRollupAscending(SeasonPairs(kept));
    Scene3YearSet(data, year);
    forall r | r in rows
      ensures r.year <= year
      ensures NoDuplicates(Keys(r.buckets)) && Positive(r.buckets)
      ensures forall k :: Lookup(r.buckets, k) == multiset(SeasonPairs(kept))[(r.year, k)]
      ensures Total(r.buckets) == multiset(Years(kept))[r.year]
    {
      var i :| 0 <= i < |rows| && rows[i] == r;
      Scene3Row(data, year, i);
    }
  }

  lemma Scene3YearSet(data: seq<Title>, year: int)
    requires SeasonsParsable(data, year)
    ensures forall y :: y in RowYears(Scene3(data, year)) <==> y in Years(Seasonal(data, year))
  {
    var kept := Seasonal(data, year);
    var ps := SeasonPairs(kept);
    YearsOfAligned(ps, kept);
    forall y
      ensures y in RowYears(Scene3(data, year)) <==> y in Years(kept)
    {
      SortedRollupYear(ps, y);
    }
  }

  lemma Scene3Row(data: seq<Title>, year: int, i: nat)
    requires SeasonsParsable(data, year)
    requires i < |Scene3(data, year)|
    ensures var r, kept := Scene3(data, year)[i], Seasonal(data, year);
      && r.year <= year
      && NoDuplicates(Keys(r.buckets))
      && Positive(r.buckets)
      && (forall k :: Lookup(r.buckets, k) == multiset(SeasonPairs(kept))[(r.year, k)])
      && Total(r.buckets) == multiset(Years(kept))[r.year]
  {
    var kept := Seasonal(data, year);
    var ps := SeasonPairs(kept);
    var r := SortRows(Rollup(ps))[i];
    SortedRollupAt(ps, i);
    assert Tallies(r, ps);
    YearsOfAligned(ps, kept);
    SeasonalYearsBound(data, year, r.year);
  }

  /** The season counts of a scene-3 row are those of that year's kept titles, each once, in
      the order they are first seen in the data. */
  lemma Scene3Keys(data: seq<Title>, year: int, i: nat)
    requires SeasonsParsable(data, year)
    requires i < |Scene3(data, year)|
    ensures var r := Scene3(data, year)[i]; var ks := KeysOfYear(SeasonPairs(Seasonal(data, year)), r.year);
      && Keys(r.buckets) == Distinct(ks)
      && forall a, b :: 0 <= a < b < |Keys(r.buckets)| ==> FirstIndex(ks, Keys(r.buckets)[a]) < FirstIndex(ks, Keys(r.buckets)[b])
  {
    SortedRollupKeys(SeasonPairs(Seasonal(data, year)), i);
  }

  /** Scene 3 keeps every title of year at most `year` whose duration names a season, as often
      as it occurs, and no other. */
  lemma {:induction false} SeasonalCount(data: seq<Title>, year: int, t: Title)
    ensures multiset(Seasonal(data, year))[t] ==
            if t.year <= year && Includes(t.duration, SeasonWord) then multiset(data)[t] else 0
  {
    if data != [] {
      var init, last := data[..|data| - 1], data[|data| - 1];
      assert data == init + [last];
      SeasonalCount(init, year, t);
    }
  }

  /** A title is kept by scene 3 exactly when it is in the data, not after `year`, and its
      duration names a season. */
  lemma SeasonalMember(data: seq<Title>, year: int, t: Title)
    ensures t in Seasonal(data, year) <==> t in data && t.year <= year && Includes(t.duration, SeasonWord)
  {
    SeasonalCount(data, year, t);
    assert t in Seasonal(data, year) <==> t in multiset(Seasonal(data, year));
    assert t in data <==> t in multiset(data);
  }

  /** A year occurs among the titles scene 3 keeps for `lo` only if it occurs among those it
      keeps for any later `hi`. */
  lemma SeasonalYearsMonotone(data: seq<Title>, lo: int, hi: int, y: int)
    requires lo <= hi
    ensures y in Years(Seasonal(data, lo)) ==> y in Years(Seasonal(data, hi))
  {
    var klo, khi := Seasonal(data, lo), Seasonal(data, hi);
    YearsMember(klo, y);
    YearsMember(khi, y);
    if y in Years(klo) {
      var t :| t in klo && t.year == y;
      SeasonalMember(data, lo, t);
      SeasonalMember(data, hi, t);
    }
  }

  /** Every year scene 3 keeps for `year` is at most `year`. */
  lemma SeasonalYearsBound(data: seq<Title>, year: int, y: int)
    ensures y in Years(Seasonal(data, year)) ==> y <= year
  {
    var kept := Seasonal(data, year);
    YearsMember(kept, y);
    if y in Years(kept) {
      var t :| t in kept && t.year == y;
      SeasonalMember(data, year, t);
    }
  }

  lemma {:induction false} CountsOfRowsMember<K(!new)>(rows: seq<Row<K>>, c: int)
    ensures c in CountsOfRows(rows) <==>
      exists j, n :: 0 <= j < |rows| && 0 <= n < |rows[j].buckets| && rows[j].buckets[n].count == c
  {
    if rows != [] {
      CountsOfRowsMember(rows[1..], c);
      var head := seq(|rows[0].buckets|, n requires 0 <= n < |rows[0].buckets| => rows[0].buckets[n].count as int);
      assert CountsOfRows(rows) == head + CountsOfRows(rows[1..]);
      if exists j, n :: 0 <= j < |rows| && 0 <= n < |rows[j].buckets| && rows[j].buckets[n].count == c {
        var j, n :| 0 <= j < |rows| && 0 <= n < |rows[j].buckets| && rows[j].buckets[n].count == c;
        if j == 0 {
          assert head[n] == c;
        } else {
          assert rows[1..][j - 1] == rows[j];
        }
      }
      if c in CountsOfRows(rows[1..]) {
        var j, n :| 0 <= j < |rows[1..]| && 0 <= n < |rows[1..][j].buckets| && rows[1..][j].buckets[n].count == c;
        assert rows[j + 1] == rows[1..][j];
      }
    }
  }

  /** Domains of scene 1 (lines 93-94): the x-domain spans the first and the last row's year;
      the y-domain starts at 0 and ends at a count of some row that no count exceeds. */
  lemma Scene1Domains(data: seq<Title>, year: int)
    ensures var rows := Scene1(data, year);
      && (|rows| == 0 ==> XDomain(TypeRowYears(rows)).None? && YDomain(Peaks(rows)).None?)
      && (|rows| > 0 ==> XDomain(TypeRowYears(rows)) == Some(Domain(rows[0].year, rows[|rows| - 1].year)))
      && (|rows| > 0 ==> YDomain(Peaks(rows)).Some? && var hi := YDomain(Peaks(rows)).value.hi;
            && (forall i :: 0 <= i < |rows| ==> rows[i].movies <= hi && rows[i].shows <= hi)
            && (exists i :: 0 <= i < |rows| && (hi == rows[i].movies || hi == rows[i].shows)))
  {
    Scene1Ascending(data, year);
    TypeDomains(Scene1(data, year));
  }

  lemma TypeDomains(rows: seq<TypeRow>)
    requires forall i, j :: 0 <= i < j < |rows| ==> rows[i].year < rows[j].year
    ensures |rows| == 0 ==> XDomain(TypeRowYears(rows)).None? && YDomain(Peaks(rows)).None?
    ensures |rows| > 0 ==> XDomain(TypeRowYears(rows)) == Some(Domain(rows[0].year, rows[|rows| - 1].year))
    ensures |rows| > 0 ==> YDomain(Peaks(rows)).Some? && var hi := YDomain(Peaks(rows)).value.hi;
      && (forall i :: 0 <= i < |rows| ==> rows[i].movies <= hi && rows[i].shows <= hi)
      && (exists i :: 0 <= i < |rows| && (hi == rows[i].movies || hi == rows[i].shows))
  {
    if |rows| > 0 {
      TypeXDomain(rows);
      PeakDomain(rows);
    }
  }

  lemma TypeXDomain(rows: seq<TypeRow>)
    requires |rows| > 0
    requires forall i, j :: 0 <= i < j < |rows| ==> rows[i].year < rows[j].year
    ensures XDomain(TypeRowYears(rows)) == Some(Domain(rows[0].year, rows[|rows| - 1].year))
  {
    AscendingExtent(TypeRowYears(rows));
  }

  /** The greatest of the row peaks bounds both counts of every row and is
      one of them. */
  lemma PeakDomain(rows: seq<TypeRow>)
    requires |rows| > 0
    ensures YDomain(Peaks(rows)).Some?
    ensures var hi := YDomain(Peaks(rows)).value.hi;
      && (forall i :: 0 <= i < |rows| ==> rows[i].movies <= hi && rows[i].shows <= hi)
      && (exists i :: 0 <= i < |rows| && (hi == rows[i].movies || hi == rows[i].shows))
  {
    var peaks := Peaks(rows);
    var hi := YDomain(peaks).value.hi;
    forall i | 0 <= i < |rows|
      ensures rows[i].movies <= hi && rows[i].shows <= hi
    {
      assert peaks[i] <= hi;
    }
    var i :| 0 <= i < |peaks| && peaks[i] == hi;
    assert hi == rows[i].movies || hi == rows[i].shows;
  }

  /** Domains of scenes 2 and 3 (lines 227-228, 351-352), for rows in increasing year order:
      the x-domain spans the first and the last row's year; the y-domain starts at 0 and ends
      at the count of some bucket that no bucket count exceeds. */
  lemma RowDomains<K(!new)>(rows: seq<Row<K>>)
    requires Ascending(rows)
    ensures |rows| == 0 ==> XDomain(RowYears(rows)).None? && YDomain(CountsOfRows(rows)).None?
    ensures |rows| > 0 ==> XDomain(RowYears(rows)) == Some(Domain(rows[0].year, rows[|rows| - 1].year))
    ensures YDomain(CountsOfRows(rows)).Some? ==> var hi := YDomain(CountsOfRows(rows)).value.hi;
      && (forall j, n :: 0 <= j < |rows| && 0 <= n < |rows[j].buckets| ==> rows[j].buckets[n].count <= hi)
      && (exists j, n :: 0 <= j < |rows| && 0 <= n < |rows[j].buckets| && rows[j].buckets[n].count == hi)
  {
    if |rows| > 0 {
      AscendingExtent(RowYears(rows));
    }
    var counts := CountsOfRows(rows);
    if YDomain(counts).Some? {
      var hi := YDomain(counts).value.hi;
      forall j, n | 0 <= j < |rows| && 0 <= n < |rows[j].buckets|
        ensures rows[j].buckets[n].count <= hi
      {
        CountsOfRowsMember(rows, rows[j].buckets[n].count);
      }
      CountsOfRowsMember(rows, hi);
    }
  }

  /** Sorted rolled-up rows, when there are any, have a bucket count, so the y-domain of
      scenes 2 and 3 exists: every row's year occurs in the input and its counts add up to
      that year's number of pairs. */
  lemma SortedRollupCounts<K(!new)>(ps: seq<(int, K)>)
    requires |SortRows(Rollup(ps))| > 0
    ensures YDomain(CountsOfRows(SortRows(Rollup(ps)))).Some?
  {
    var rows := SortRows(Rollup(ps));
    SortedRollupAt(ps, 0);
    var r := rows[0];
    assert multiset(YearsOf(ps))[r.year] > 0;
    assert r.buckets != [];
    CountsOfRowsMember(rows, r.buckets[0].count);
  }

  /** The axis domains of scene 2 (lines 227-228), from `RowDomains`. */
  lemma Scene2Domains(data: seq<Title>, year: int)
    ensures var rows := Scene2(data, year);
      && (|rows| == 0 ==> XDomain(RowYears(rows)).None? && YDomain(CountsOfRows(rows)).None?)
      && (|rows| > 0 ==> XDomain(RowYears(rows)) == Some(Domain(rows[0].year, rows[|rows| - 1].year)))
      && (|rows| > 0 ==> YDomain(CountsOfRows(rows)).Some?)
      && (YDomain(CountsOfRows(rows)).Some? ==> var hi := YDomain(CountsOfRows(rows)).value.hi;
            && (forall j, n :: 0 <= j < |rows| && 0 <= n < |rows[j].buckets| ==> rows[j].buckets[n].count <= hi)
            && (exists j, n :: 0 <= j < |rows| && 0 <= n < |rows[j].buckets| && rows[j].buckets[n].count == hi))
  {
    var ps := Pairs(UpTo(data, year), Rating);
    SortedRollupAscending(ps);
    RowDomains(Scene2(data, year));
    if |Scene2(data, year)| > 0 {
      SortedRollupCounts(ps);
    }
  }

  /** The axis domains of scene 3 (lines 351-352), from `RowDomains`. */
  lemma Scene3Domains(data: seq<Title>, year: int)
    requires SeasonsParsable(data, year)
    ensures var rows := Scene3(data, year);
      && (|rows| == 0 ==> XDomain(RowYears(rows)).None? && YDomain(CountsOfRows(rows)).None?)
      && (|rows| > 0 ==> XDomain(RowYears(rows)) == Some(Domain(rows[0].year, rows[|rows| - 1].year)))
      && (|rows| > 0 ==> YDomain(CountsOfRows(rows)).Some?)
      && (YDomain(CountsOfRows(rows)).Some? ==> var hi := YDomain(CountsOfRows(rows)).value.hi;
            && (forall j, n :: 0 <= j < |rows| && 0 <= n < |rows[j].buckets| ==> rows[j].buckets[n].count <= hi)
            && (exists j, n :: 0 <= j < |rows| && 0 <= n < |rows[j].buckets| && rows[j].buckets[n].count == hi))
  {
    var ps := SeasonPairs(Seasonal(data, year));
    SortedRollupAscending(ps);
    RowDomains(Scene3(data, year));
    if |Scene3(data, year)| > 0 {
      SortedRollupCounts(ps);
    }
  }

  /** The rating lines of scene 2 (lines 241-248): one per rating seen, each rating once, with
      a point per row whose count is the number of filtered titles of the row's year with
      that rating, which is the row's bucket count or 0 when the row has no such bucket. */
  lemma Scene2Series(data: seq<Title>, year: int)
    ensures var rows, ps := Scene2(data, year), Pairs(UpTo(data, year), Rating); var ls := Series(rows);
      && NoDuplicates(LineKeys(ls))
      && (forall k :: k in LineKeys(ls) <==> exists j :: 0 <= j < |rows| && k in Keys(rows[j].buckets))
      && (forall i :: 0 <= i < |ls| ==> |ls[i].points| == |rows|)
      && (forall i, j :: 0 <= i < |ls| && 0 <= j < |rows| ==>
            && ls[i].points[j].year == rows[j].year
            && ls[i].points[j].count == multiset(ps)[(rows[j].year, ls[i].key)]
            && (forall b :: b in rows[j].buckets && b.key == ls[i].key ==> ls[i].points[j].count == b.count)
            && (ls[i].key !in Keys(rows[j].buckets) ==> ls[i].points[j].count == 0))
  {
    var ps := Pairs(UpTo(data, year), Rating);
    SortedRollup(ps);
    SeriesSpec(Scene2(data, year));
    SeriesTallies(Scene2(data, year), ps);
  }

  /** The season lines of scene 3 (lines 365-372), as for scene 2 over the kept titles. */
  lemma Scene3Series(data: seq<Title>, year: int)
    requires SeasonsParsable(data, year)
    ensures var rows, ps := Scene3(data, year), SeasonPairs(Seasonal(data, year)); var ls := Series(rows);
      && NoDuplicates(LineKeys(ls))
      && (forall k :: k in LineKeys(ls) <==> exists j :: 0 <= j < |rows| && k in Keys(rows[j].buckets))
      && (forall i :: 0 <= i < |ls| ==> |ls[i].points| == |rows|)
      && (forall i, j :: 0 <= i < |ls| && 0 <= j < |rows| ==>
            && ls[i].points[j].year == rows[j].year
            && ls[i].points[j].count == multiset(ps)[(rows[j].year, ls[i].key)]
            && (forall b :: b in rows[j].buckets && b.key == ls[i].key ==> ls[i].points[j].count == b.count)
            && (ls[i].key !in Keys(rows[j].buckets) ==> ls[i].points[j].count == 0))
  {
    var ps := SeasonPairs(Seasonal(data, year));
    SortedRollup(ps);
    SeriesSpec(Scene3(data, year));
    SeriesTallies(Scene3(data, year), ps);
  }

  /** Filtering keeps nothing when every title comes after `year`. */
  lemma FiltersEmpty(data: seq<Title>, year: int)
    requires forall i :: 0 <= i < |data| ==> year < data[i].year
    ensures UpTo(data, year) == [] && Seasonal(data, year) == []
    ensures SeasonsParsable(data, year)
  {
    if UpTo(data, year) != [] {
      var t := UpTo(data, year)[0];
      UpToMember(data, year, t);
      assert false;
    }
    if Seasonal(data, year) != [] {
      var t := Seasonal(data, year)[0];
      SeasonalMember(data, year, t);
      assert false;
    }
  }

  /** A year slider below every release year leaves all three scenes without rows. */
  lemma EmptyBelowRange(data: seq<Title>, year: int)
    requires YearRange(data).Some? ==> year < YearRange(data).value.min
    ensures Scene1(data, year) == [] && Scene2(data, year) == []
    ensures SeasonsParsable(data, year) && Scene3(data, year) == []
  {
    FiltersEmpty(data, year);
    assert Rollup(Pairs(UpTo(data, year), Kind)) == [];
    assert Rollup(Pairs(UpTo(data, year), Rating)) == [];
    assert Rollup(SeasonPairs(Seasonal(data, year))) == [];
  }

  /** Moving the slider up never removes a year from any scene. */
  lemma YearsMonotone(data: seq<Title>, lo: int, hi: int)
    requires lo <= hi
    ensures forall y :: y in TypeRowYears(Scene1(data, lo)) ==> y in TypeRowYears(Scene1(data, hi))
    ensures forall y :: y in RowYears(Scene2(data, lo)) ==> y in RowYears(Scene2(data, hi))
    ensures SeasonsParsable(data, hi) ==>
      (SeasonsParsable(data, lo) && forall y :: y in RowYears(Scene3(data, lo)) ==> y in RowYears(Scene3(data, hi)))
  {
    Scene1YearSet(data, lo);
    Scene1YearSet(data, hi);
    Scene2YearSet(data, lo);
    Scene2YearSet(data, hi);
    if SeasonsParsable(data, hi) {
      Scene3YearSet(data, lo);
      Scene3YearSet(data, hi);
      forall y | y in RowYears(Scene3(data, lo))
        ensures y in RowYears(Scene3(data, hi))
      {
        SeasonalYearsMonotone(data, lo, hi, y);
      }
    }
  }
}
