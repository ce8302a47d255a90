/**
 * One sensor's state and its poll (`async_update`): fetch the page, scrape it,
 * run the sensor's extractor, and either publish the reading or mark the sensor
 * unavailable. Every sensor polls on its own; the four share only the pipeline.
 */
module Sensor {
  import opened Wrappers
  import opened Text
  import opened HtmlRows
  import opened Extractors

  /** `_attr_native_value` (`None` until a first reading) and `_attr_available`. */
  datatype SensorState = SensorState(value: Option<string>, available: bool)

  /** A sensor as constructed: no value, and not available. */
  const Initial := SensorState(None, false)

  /** What the POST to the gas endpoint produced: a response with its status and
      body, or an exception raised by the POST or while reading the body (a
      connection error, a decoding error, the timeout expiring). */
  datatype Fetch = Response(status: int, body: string) | TransportError

  /** The reading a poll yields, given the scraped dictionary (`None` when the
      fetch raised): only a `Found` extraction is a reading. */
  function Reading(page: Option<map<string, string>>, field: Field): (r: Option<string>)
    ensures r.Some? <==> page.Some? && Extract(page.value, field).Found?
    ensures r.Some? ==> r.value == Extract(page.value, field).text
  {
    match page
    case None => None
    case Some(data) =>
      match Extract(data, field)
      case Found(t) => Some(t)
      case Missing => None
      case Unparsable(_) => None
  }

  /** `_process_data` together with the exception handler of `async_update`: a
      reading replaces the value and makes the sensor available; anything else
      only clears `available`. */
  function Apply(state: SensorState, field: Field, page: Option<map<string, string>>): (next: SensorState)
    ensures next.available <==> Reading(page, field).Some?
    ensures next.value == if next.available then Reading(page, field) else state.value
  {
    match Reading(page, field)
    case Some(t) => SensorState(Some(t), true)
    case None => state.(available := false)
  }

  /** A poll repeated on the same page changes nothing more. */
  lemma ApplyIdempotent(state: SensorState, field: Field, page: Option<map<string, string>>)
    ensures Apply(Apply(state, field, page), field, page) == Apply(state, field, page)
  {
  }

  /** The polls `pages` in order, from `state`. */
  function Replay(state: SensorState, field: Field, pages: seq<Option<map<string, string>>>): SensorState
    decreases |pages|
  {
    if pages == [] then state
    else Replay(Apply(state, field, pages[0]), field, pages[1..])
  }

  /** The most recent reading among `pages`, if any poll gave one. */
  function LastReading(field: Field, pages: seq<Option<map<string, string>>>): (r: Option<string>)
    ensures r.Some? <==> exists i :: 0 <= i < |pages| && Reading(pages[i], field).Some?
  {
    if pages == [] then None
    else
      var last := Reading(pages[|pages| - 1], field);
      if last.Some? then last else LastReading(field, pages[..|pages| - 1])
  }

  lemma {:induction false} ReplaySnoc(state: SensorState, field: Field, pages: seq<Option<map<string, string>>>, page: Option<map<string, string>>)
    ensures Replay(state, field, pages + [page]) == Apply(Replay(state, field, pages), field, page)
    decreases |pages|
  {
    if pages != [] {
      assert (pages + [page])[1..] == pages[1..] + [page];
      ReplaySnoc(Apply(state, field, pages[0]), field, pages[1..], page);
    }
  }

  /** After any run of polls the sensor shows the most recent reading ever taken
      (or what it showed before, if none was), and after at least one poll it is
      available exactly when the latest poll gave a reading. */
  lemma {:induction false} ReplayHistory(state: SensorState, field: Field, pages: seq<Option<map<string, string>>>)
    ensures Replay(state, field, pages).value ==
      if LastReading(field, pages).Some? then LastReading(field, pages) else state.value
    ensures Replay(state, field, pages).available ==
      if pages == [] then state.available else Reading(pages[|pages| - 1], field).Some?
    decreases |pages|
  {
    if pages != [] {
      var init, last := pages[..|pages| - 1], pages[|pages| - 1];
      assert pages == init + [last];
      ReplaySnoc(state, field, init, last);
      ReplayHistory(state, field, init);
      assert Replay(state, field, pages) == Apply(Replay(state, field, init), field, last);
    }
  }

  /** A sensor that is available has a value, from construction on. */
  ghost predicate Consistent(state: SensorState) {
    state.available ==> state.value.Some?
  }

  lemma {:induction false} ReplayConsistent(state: SensorState, field: Field, pages: seq<Option<map<string, string>>>)
    requires Consistent(state)
    ensures Consistent(Replay(state, field, pages))
    decreases |pages|
  {
    if pages != [] {
      ReplayConsistent(Apply(state, field, pages[0]), field, pages[1..]);
    }
  }

  /** From construction on, a sensor is available only with a value, and it has a
      value exactly when some poll has given a reading. */
  lemma ReplayFromInitial(field: Field, pages: seq<Option<map<string, string>>>)
    ensures Consistent(Replay(Initial, field, pages))
    ensures Replay(Initial, field, pages).value.Some? <==> LastReading(field, pages).Some?
  {
    ReplayConsistent(Initial, field, pages);
    ReplayHistory(Initial, field, pages);
  }

  /** What a fetch hands to the extractor: the scraped dictionary of a response
      with status 200, and nothing when the status is another or the fetch raised.
      A dictionary handed on has clean keys and stripped values. */
  ghost function Page(fetch: Fetch): (page: Option<map<string, string>>)
    ensures page.Some? <==> fetch.Response? && fetch.status == 200
    ensures page.Some? ==> forall k | k in page.value :: CleanLabel(k) == k && Strip(page.value[k]) == page.value[k]
  {
    if fetch.Response? && fetch.status == 200 then
      var data := Scraped(fetch.body);
      assert forall k | k in data :: CleanLabel(k) == k && Strip(data[k]) == data[k] by {
        forall k | k in data ensures CleanLabel(k) == k && Strip(data[k]) == data[k] {
          ScrapedClean(fetch.body, k);
        }
      }
      Some(data)
    else None
  }

  /** `async_update`. */
  method Update(state: SensorState, field: Field, fetch: Fetch) returns (next: SensorState)
    ensures next == Apply(state, field, Page(fetch))
    ensures !(fetch.Response? && fetch.status == 200) ==> next == state.(available := false)
  {
    if fetch.TransportError? || fetch.status != 200 {
      return state.(available := false);
    }
    var data := ParseHtml(fetch.body);
    next := Apply(state, field, Some(data));
  }

  /** A failed fetch leaves every one of the four sensors unavailable, each with
      the value it had. */
  lemma FailedFetchAllUnavailable(states: seq<SensorState>, fetch: Fetch)
    requires |states| == 4
    requires !(fetch.Response? && fetch.status == 200)
    ensures forall i | 0 <= i < 4 ::
      Apply(states[i], [Balance, Usage, Status, UpdateTime][i], Page(fetch)) == states[i].(available := false)
  {
  }
}
