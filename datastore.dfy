/** The loaded titles and the range of their release years, which seeds the slider. */
module DataStore {
  import opened Extent

  /** One row of the title table, its `release_year` already an integer. `kind` is the
      table's `type` column ("Movie", "TV Show", ...). */
  datatype Title = Title(year: int, kind: string, rating: string, duration: string)

  /** `{minYear, maxYear}`. */
  datatype YearSpan = YearSpan(min: int, max: int)

  /** The release year of every title, in order. */
  function Years(data: seq<Title>): seq<int> {
    seq(|data|, i requires 0 <= i < |data| => data[i].year)
  }

  /** `d3.min` and `d3.max` of the release years; nothing for an empty table. Every title lies
      in the range, and both ends are the year of some title. */
  function YearRange(data: seq<Title>): (r: Option<YearSpan>)
    ensures r.None? <==> |data| == 0
    ensures r.Some? ==> r.value.min <= r.value.max
    ensures r.Some? ==> forall i :: 0 <= i < |data| ==> r.value.min <= data[i].year <= r.value.max
    ensures r.Some? ==> exists i :: 0 <= i < |data| && data[i].year == r.value.min
    ensures r.Some? ==> exists i :: 0 <= i < |data| && data[i].year == r.value.max
  {
    var ys := Years(data);
    match (MinOf(ys), MaxOf(ys))
    case (Some(lo), Some(hi)) =>
      assert forall i :: 0 <= i < |data| ==> ys[i] == data[i].year;
      Some(YearSpan(lo, hi))
    case _ => None
  }
}
