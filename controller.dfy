/** The scene controller: which of the three scenes is shown, for which slider year, and
    whether the previous and next buttons are enabled. */
module Controller {
  import opened Extent
  import opened DataStore
  import opened Aggregator

  /** `scenes.length - 1`: the index of the last scene. */
  const LastScene := 2

  /** What `updateScene(index, year)` draws: scene 1, 2 or 3 for indices 0, 1 and 2. */
  function Render(data: seq<Title>, index: nat, year: int): (v: SceneView)
    requires index <= LastScene
    requires index == LastScene ==> SeasonsParsable(data, year)
    ensures index == 0 <==> v.TypeChart?
    ensures index == 1 <==> v.RatingChart?
    ensures index == 2 <==> v.SeasonChart?
  {
    if index == 0 then TypeView(data, year)
    else if index == 1 then RatingView(data, year)
    else SeasonView(data, year)
  }

  /** Every title whose duration names a season holds a digit, up to the last year. */
  lemma SeasonsParsableBelow(data: seq<Title>, lo: int, hi: int)
    requires lo <= hi && SeasonsParsable(data, hi)
    ensures SeasonsParsable(data, lo)
  {
  }

  class SceneController {
    const data: seq<Title>
    const minYear: int
    const maxYear: int
    var sceneIndex: nat
    var sliderYear: int
    var nextDisabled: bool
    var prevDisabled: bool
    var shown: SceneView

    /** The slider spans the release years, the index names a scene, the buttons are
        enabled exactly away from the ends, and the scene shown is the one for the index
        and the slider year. */
    ghost predicate Valid()
      reads this
    {
      && YearRange(data) == Some(YearSpan(minYear, maxYear))
      && SeasonsParsable(data, maxYear)
      && sceneIndex <= LastScene
      && minYear <= sliderYear <= maxYear
      && nextDisabled == (sceneIndex == LastScene)
      && prevDisabled == (sceneIndex == 0)
      && SeasonsParsable(data, sliderYear)
      && shown == Render(data, sceneIndex, sliderYear)
    }

    /** The start of the page (lines 26-35, 456-458): the slider spans the release years and
        sits at the last one, and `updateScene(0, maxYear)` shows scene 1 for it. */
    constructor (titles: seq<Title>)
      requires |titles| > 0
      requires SeasonsParsable(titles, YearRange(titles).value.max)
      ensures Valid()
      ensures data == titles
      ensures YearRange(titles) == Some(YearSpan(minYear, maxYear))
      ensures sceneIndex == 0 && sliderYear == maxYear
      ensures shown == TypeView(titles, maxYear)
      ensures !nextDisabled && prevDisabled
    {
      data := titles;
      minYear := YearRange(titles).value.min;
      maxYear := YearRange(titles).value.max;
      sceneIndex := 0;
      sliderYear := YearRange(titles).value.max;
      new;
      UpdateScene(0, maxYear);
    }

    /** `updateScene(index, year)` (lines 431-453): an index of 0, 1 or 2 redraws that scene
        for `year`, any other leaves the drawing as it is; the next button is enabled exactly
        when `index < 2` and the previous button exactly when `index > 0`. */
    method UpdateScene(index: int, year: int)
      requires index == LastScene ==> SeasonsParsable(data, year)
      modifies this
      ensures shown == (if 0 <= index <= LastScene then Render(data, index, year) else old(shown))
      ensures nextDisabled == !(index < LastScene)
      ensures prevDisabled == !(index > 0)
      ensures sceneIndex == old(sceneIndex) && sliderYear == old(sliderYear)
    {
      if index == 0 {
        shown := TypeView(data, year);
      } else if index == 1 {
        shown := RatingView(data, year);
      } else if index == 2 {
        shown := SeasonView(data, year);
      }
      if index < LastScene {
        nextDisabled := false;
      } else {
        nextDisabled := true;
      }
      if index > 0 {
        prevDisabled := false;
      } else {
        prevDisabled := true;
      }
    }

    /** The slider's input handler (lines 461-465): the new year replaces the slider year and
        the current scene is redrawn for it. The range input only reports values between its
        `min` and `max` attributes. */
    method OnSlider(value: int)
      requires Valid()
      requires minYear <= value <= maxYear
      modifies this
      ensures Valid()
      ensures sliderYear == value
      ensures sceneIndex == old(sceneIndex)
      ensures shown == Render(data, sceneIndex, value)
    {
      sliderYear := value;
      SeasonsParsableBelow(data, value, maxYear);
      UpdateScene(sceneIndex, sliderYear);
    }

    /** The next button (lines 468-473): moves one scene on unless the last scene is shown. */
    method Next()
      requires Valid()
      modifies this
      ensures Valid()
      ensures sceneIndex == if old(sceneIndex) < LastScene then old(sceneIndex) + 1 else old(sceneIndex)
      ensures sliderYear == old(sliderYear)
      ensures old(sceneIndex) == LastScene ==> shown == old(shown)
    {
      if sceneIndex < LastScene {
        sceneIndex := sceneIndex + 1;
        SeasonsParsableBelow(data, sliderYear, maxYear);
        UpdateScene(sceneIndex, sliderYear);
      }
    }

    /** The previous button (lines 475-480): moves one scene back unless the first is shown. */
    method Prev()
      requires Valid()
      modifies this
      ensures Valid()
      ensures sceneIndex == if old(sceneIndex) > 0 then old(sceneIndex) - 1 else old(sceneIndex)
      ensures sliderYear == old(sliderYear)
      ensures old(sceneIndex) == 0 ==> shown == old(shown)
    {
      if sceneIndex > 0 {
        sceneIndex := sceneIndex - 1;
        UpdateScene(sceneIndex, sliderYear);
      }
    }
  }

  /** Five presses of the previous button from the start leave scene 1 shown with that button
      disabled; five presses of the next button then reach scene 3 with the next button
      disabled. */
  method NavigationBounds(titles: seq<Title>) returns (low: nat, lowPrevDisabled: bool, high: nat, highNextDisabled: bool)
    requires |titles| > 0
    requires SeasonsParsable(titles, YearRange(titles).value.max)
    ensures low == 0 && lowPrevDisabled
    ensures high == LastScene && highNextDisabled
  {
    var c := new SceneController(titles);
    for i := 0 to 5
      invariant c.Valid() && c.sceneIndex == 0
    {
      c.Prev();
    }
    low, lowPrevDisabled := c.sceneIndex, c.prevDisabled;
    for i := 0 to 5
      invariant c.Valid() && c.sceneIndex == if i < LastScene then i else LastScene
    {
      c.Next();
    }
    high, highNextDisabled := c.sceneIndex, c.nextDisabled;
  }
}
