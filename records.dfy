/** The record normaliser of the content page: a `scraped_content` row, whose
    columns may all be null, becomes a display record with defaults. */
module Records {
  import opened Wrappers
  import opened Seqs
  import opened Text
  import opened Dates

  /** The `tags` column: null, a text array, or a single comma-joined string. */
  datatype RawTags = NullTags | TagArray(items: seq<string>) | TagString(text: string)

  /** The `captured_at` column: null, a `Date` object, or a string value. */
  datatype RawCapturedAt = NullCapturedAt | DateValue(date: JsDate) | TextValue(text: string)

  /** A `scraped_content` row; every column may be null. */
  datatype Row = Row(
    id: Option<string>,
    title: Option<string>,
    summary: Option<string>,
    sourceUrl: Option<string>,
    capturedAt: RawCapturedAt,
    tags: RawTags,
    rawText: Option<string>)

  /** The display record handed to the content table. */
  datatype Record = Record(
    id: string,
    title: string,
    summary: string,
    sourceUrl: string,
    capturedAt: string,
    tags: seq<string>,
    rawText: string)

  /** Where the rows come from: no database configured, a query that threw,
      or the rows it returned. */
  datatype Fetch = NoDatabase | QueryFailed | Fetched(rows: seq<Row>)

  const UntitledCapture: string := "Untitled capture"
  const UnknownCapture: string := "Unknown"
  const RandomIdPrefix: string := "row-"

  /** `capturedAtValue`: a `Date` as it is, a truthy (non-empty) string through
      `new Date`, anything else null. */
  function CapturedAtValue(raw: RawCapturedAt, clock: Clock): (r: Option<JsDate>)
    ensures r.None? <==> raw == NullCapturedAt || raw == TextValue("")
  {
    match raw
    case DateValue(d) => Some(d)
    case TextValue(s) => if s != "" then Some(JsDate(clock.parse(s))) else None
    case NullCapturedAt => None
  }

  /** The raw tag list: an array as it is, a string split on commas, else empty. */
  function TagsSource(raw: RawTags): (r: seq<string>)
    ensures raw.NullTags? ==> r == []
    ensures raw.TagString? ==> Join(r, ',') == raw.text
  {
    match raw
    case TagArray(items) => items
    case TagString(s) => JoinSplit(s, ','); Split(s, ',')
    case NullTags => []
  }

  /** `tags.map((tag) => tag.trim())`. */
  function TrimAll(ts: seq<string>): (r: seq<string>)
    ensures |r| == |ts| && forall k :: 0 <= k < |ts| ==> r[k] == Trim(ts[k])
  {
    seq(|ts|, k requires 0 <= k < |ts| => Trim(ts[k]))
  }

  /** `tags.map((tag) => tag.trim()).filter(Boolean)`: the trimmed tags in
      order, every empty one dropped and every other one kept. */
  function CleanTags(ts: seq<string>): (r: seq<string>)
    ensures forall k :: 0 <= k < |r| ==> r[k] != "" && IsTrimmed(r[k])
    ensures IsSubsequence(r, TrimAll(ts))
    ensures forall x {:trigger multiset(r)[x]} :: multiset(r)[x] == if x == "" then 0 else multiset(TrimAll(ts))[x]
  {
    var trimmed := TrimAll(ts);
    var r := Filter(trimmed, (t: string) => t != "");
    assert forall k :: 0 <= k < |r| ==> r[k] != "" && IsTrimmed(r[k]) by {
      forall k | 0 <= k < |r| ensures r[k] != "" && IsTrimmed(r[k]) {
        assert r[k] in r;
        var m :| 0 <= m < |trimmed| && trimmed[m] == r[k];
      }
    }
    r
  }

  /** The fallback identifier: `sourceUrl ?? title ?? summary ?? iso ?? "row-" +
      token`, where `iso` is `toISOString()` of the capture date when there is
      one. `None` when `toISOString` throws on an invalid date. */
  function FallbackId(row: Row, value: Option<JsDate>, clock: Clock, token: string): (r: Option<string>)
    ensures r.None? <==>
      row.sourceUrl.None? && row.title.None? && row.summary.None? && value.Some? && value.value.time.None?
    ensures row.sourceUrl.None? && row.title.None? && row.summary.None? && value.None? ==>
      r == Some(RandomIdPrefix + token)
  {
    if row.sourceUrl.Some? then row.sourceUrl
    else if row.title.Some? then row.title
    else if row.summary.Some? then row.summary
    else if value.Some? then
      match value.value.time
      case Some(t) => Some(clock.toIso(t))
      case None => None
    else Some(RandomIdPrefix + token)
  }

  /** `transformRowToRecord`; `token` stands for the random digits of
      `Math.random().toString(36)`. The fallback identifier is computed before
      the record is built, so a row whose chain reaches an invalid date throws
      (`None`) even when it has an id of its own. Every tag of the record is
      trimmed and non-empty. */
  function Transform(row: Row, clock: Clock, token: string): (r: Option<Record>)
    ensures r.None? <==>
      row.sourceUrl.None? && row.title.None? && row.summary.None? &&
      (row.capturedAt == DateValue(JsDate(None)) ||
       (row.capturedAt.TextValue? && row.capturedAt.text != "" && clock.parse(row.capturedAt.text).None?))
    ensures r.Some? ==> forall k :: 0 <= k < |r.value.tags| ==> r.value.tags[k] != "" && IsTrimmed(r.value.tags[k])
  {
    var value := CapturedAtValue(row.capturedAt, clock);
    var tags := TagsSource(row.tags);
    match FallbackId(row, value, clock, token)
    case None => None
    case Some(fallbackId) =>
      Some(Record(
        id := row.id.GetOr(fallbackId),
        title := row.title.GetOr(UntitledCapture),
        summary := row.summary.GetOr(""),
        sourceUrl := row.sourceUrl.GetOr(""),
        capturedAt := if value.Some? then LocaleString(value.value, clock) else UnknownCapture,
        tags := CleanTags(tags),
        rawText := row.rawText.GetOr("")))
  }

  /** The record's id: the row's own id when it has one; otherwise the first
      present one of source URL, title and summary (an empty string counts as
      present), then the ISO rendering of a valid capture date, and only when
      there is no capture date at all a random `row-` id. */
  lemma TransformId(row: Row, clock: Clock, token: string)
    requires Transform(row, clock, token).Some?
    ensures var id := Transform(row, clock, token).value.id;
      (row.id.Some? ==> id == row.id.value) &&
      (row.id.None? && row.sourceUrl.Some? ==> id == row.sourceUrl.value) &&
      (row.id.None? && row.sourceUrl.None? && row.title.Some? ==> id == row.title.value) &&
      (row.id.None? && row.sourceUrl.None? && row.title.None? && row.summary.Some? ==> id == row.summary.value) &&
      (row.id.None? && row.sourceUrl.None? && row.title.None? && row.summary.None? ==>
         (row.capturedAt == NullCapturedAt || row.capturedAt == TextValue("") ==> id == RandomIdPrefix + token) &&
         (forall t :: row.capturedAt == DateValue(JsDate(Some(t))) ==> id == clock.toIso(t)) &&
         (forall s :: row.capturedAt == TextValue(s) && s != "" ==>
            clock.parse(s).Some? && id == clock.toIso(clock.parse(s).value)))
  {
  }

  /** Text fields pass through when present and default otherwise; the title
      defaults to "Untitled capture", the others to the empty string. */
  lemma TransformDefaults(row: Row, clock: Clock, token: string)
    requires Transform(row, clock, token).Some?
    ensures var rec := Transform(row, clock, token).value;
      rec.title == (if row.title.Some? then row.title.value else UntitledCapture) &&
      rec.summary == (if row.summary.Some? then row.summary.value else "") &&
      rec.sourceUrl == (if row.sourceUrl.Some? then row.sourceUrl.value else "") &&
      rec.rawText == (if row.rawText.Some? then row.rawText.value else "")
  {
  }

  /** Tags: null gives none; an array and a string split on commas are both
      trimmed and stripped of empty entries. */
  lemma TransformTags(row: Row, clock: Clock, token: string)
    requires Transform(row, clock, token).Some?
    ensures var tags := Transform(row, clock, token).value.tags;
      (row.tags == NullTags ==> tags == []) &&
      (row.tags.TagArray? ==> tags == CleanTags(row.tags.items)) &&
      (row.tags.TagString? ==> tags == CleanTags(Split(row.tags.text, ',')))
  {
  }

  /** A clock whose locale rendering never produces the literal "Unknown". */
  ghost predicate NeverUnknown(clock: Clock) {
    forall t :: clock.toLocale(t) != UnknownCapture
  }

  /** The display date reads "Unknown" exactly when the raw value is null or an
      empty string; a `Date` object, even an invalid one, is always rendered. */
  lemma CapturedAtUnknownExactly(row: Row, clock: Clock, token: string)
    requires NeverUnknown(clock)
    requires Transform(row, clock, token).Some?
    ensures Transform(row, clock, token).value.capturedAt == UnknownCapture <==>
      row.capturedAt == NullCapturedAt || row.capturedAt == TextValue("")
    ensures forall d :: CapturedAtValue(row.capturedAt, clock) == Some(d) ==>
      Transform(row, clock, token).value.capturedAt == LocaleString(d, clock)
  {
    var value := CapturedAtValue(row.capturedAt, clock);
    if value.Some? {
      match value.value.time
      case None =>
        assert LocaleString(value.value, clock) == "Invalid Date";
      case Some(t) =>
        assert clock.toLocale(t) != UnknownCapture;
    }
  }

  /** A comma-joined string of tags and the array of the same tags normalise
      to the same list, as long as no tag holds a comma itself. */
  lemma StringAndArrayTagsAgree(ts: seq<string>)
    requires forall k :: 0 <= k < |ts| ==> ',' !in ts[k]
    ensures CleanTags(TagsSource(TagString(Join(ts, ',')))) == CleanTags(TagsSource(TagArray(ts)))
  {
    if ts == [] {
      assert Split("", ',') == [""];
      assert Trim("") == "";
      assert TrimAll([""]) == [""];
      assert TrimAll([]) == [];
    } else {
      SplitJoin(ts, ',');
    }
  }

  lemma SplitExampleTail() ensures Split("  c", ',') == ["  c"] {
    SplitCons('c', "", ',');
    assert "c" == ['c'] + "";
    SplitCons(' ', "c", ',');
    assert " c" == [' '] + "c";
    SplitCons(' ', " c", ',');
    assert "  c" == [' '] + " c";
  }
  lemma SplitExampleMiddle() ensures Split(" b ,  c", ',') == [" b ", "  c"] {
    SplitExampleTail();
    SplitCons(',', "  c", ',');
    assert ",  c" == [','] + "  c";
    SplitCons(' ', ",  c", ',');
    assert " ,  c" == [' '] + ",  c" && [' '] + "" == " ";
    SplitCons('b', " ,  c", ',');
    assert "b ,  c" == ['b'] + " ,  c" && ['b'] + " " == "b ";
    SplitCons(' ', "b ,  c", ',');
    assert " b ,  c" == [' '] + "b ,  c" && [' '] + "b " == " b ";
  }
  lemma SplitExample() ensures Split("a, b ,  c", ',') == ["a", " b ", "  c"] {
    SplitExampleMiddle();
    SplitCons(',', " b ,  c", ',');
    assert ", b ,  c" == [','] + " b ,  c";
    SplitCons('a', ", b ,  c", ',');
    assert "a, b ,  c" == ['a'] + ", b ,  c";
    assert Split(", b ,  c", ',') == ["", " b ", "  c"];
    assert ['a'] + "" == "a";
    assert ["", " b ", "  c"][1..] == [" b ", "  c"];
  }

  lemma TrimExampleA()
    ensures Trim("a") == "a"
  {
    TrimStartCuts("a", 0);
    TrimEndCuts("a", 1);
  }

  lemma TrimExampleB()
    ensures Trim(" b ") == "b"
  {
    TrimStartCuts(" b ", 1);
    assert " b "[1..] == "b ";
    TrimEndCuts("b ", 1);
  }

  lemma TrimExampleC()
    ensures Trim("  c") == "c"
  {
    TrimStartCuts("  c", 2);
    assert "  c"[2..] == "c";
    TrimEndCuts("c", 1);
  }

  lemma TrimAllOfThree(ts: seq<string>, a: string, b: string, c: string)
    requires |ts| == 3 && Trim(ts[0]) == a && Trim(ts[1]) == b && Trim(ts[2]) == c
    ensures TrimAll(ts) == [a, b, c]
  {
  }

  lemma TrimExample()
    ensures TrimAll(["a", " b ", "  c"]) == ["a", "b", "c"]
  {
    TrimExampleA();
    TrimExampleB();
    TrimExampleC();
    TrimAllOfThree(["a", " b ", "  c"], "a", "b", "c");
  }

  /** The example of a comma-joined tag string with stray spaces, which
      `TagsSource` splits on commas (see `TransformTags`). */
  lemma CommaStringExample()
    ensures CleanTags(Split("a, b ,  c", ',')) == ["a", "b", "c"]
  {
    SplitExample();
    TrimExample();
    assert CleanTags(Split("a, b ,  c", ',')) == Filter(["a", "b", "c"], (t: string) => t != "");
    FilterKeepsAll(["a", "b", "c"], (t: string) => t != "");
  }

  /** `rows.map(transformRowToRecord)`, row `i` drawing random digits
      `tokens(i)`: one record per row, in row order, or `None` when the
      transformation of some row throws. */
  function MapRows(rows: seq<Row>, clock: Clock, tokens: nat -> string): (r: Option<seq<Record>>)
    ensures r.Some? <==> forall i :: 0 <= i < |rows| ==> Transform(rows[i], clock, tokens(i)).Some?
    ensures r.Some? ==> |r.value| == |rows|
    ensures r.Some? ==> forall i :: 0 <= i < |rows| ==> Transform(rows[i], clock, tokens(i)) == Some(r.value[i])
  {
    MapOrThrow(rows, (row, i) => Transform(row, clock, tokens(i)))
  }

  /** `loadScrapedContent` after the query: an unconfigured database or a
      failing query gives the empty list, and so does a throwing row, since
      the map runs inside the same `try`. */
  function LoadScrapedContent(fetch: Fetch, clock: Clock, tokens: nat -> string): (r: seq<Record>)
    ensures !fetch.Fetched? ==> r == []
    ensures fetch.Fetched? && MapRows(fetch.rows, clock, tokens).None? ==> r == []
    ensures fetch.Fetched? && MapRows(fetch.rows, clock, tokens).Some? ==>
      |r| == |fetch.rows| &&
      forall i :: 0 <= i < |r| ==> Transform(fetch.rows[i], clock, tokens(i)) == Some(r[i])
  {
    match fetch
    case NoDatabase => []
    case QueryFailed => []
    case Fetched(rows) => MapRows(rows, clock, tokens).GetOr([])
  }
}
