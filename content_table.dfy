/** The content table: the tag universe shown as filter chips, the visible
    subset of the records under the current filters, and the four state cells
    the filter controls update. */
module ContentFilter {
  import opened Wrappers
  import opened Seqs
  import opened Text
  import opened Dates
  import opened Records

  // ---------------------------------------------------------------------
  // The tag universe (`allTags`)
  // ---------------------------------------------------------------------

  /** `x` is the trimmed form of a tag of some record, and is not empty. */
  ghost predicate IsTagOf(content: seq<Record>, x: string) {
    exists item, t :: item in content && t in item.tags && Trim(t) == x && x != ""
  }

  /** `tags` lists, strictly increasing, exactly the tags of `content`. */
  ghost predicate IsTagUniverse(content: seq<Record>, tags: seq<string>) {
    StrictlySorted(tags) && forall x :: x in tags <==> IsTagOf(content, x)
  }

  /** `allTags`: every trimmed non-empty tag is added to a set, record by
      record and tag by tag, and the set is then sorted. */
  method AllTags(content: seq<Record>) returns (tags: seq<string>)
    ensures IsTagUniverse(content, tags)
    ensures NoDup(tags)
    ensures forall k :: 0 <= k < |tags| ==> tags[k] != "" && Trim(tags[k]) == tags[k]
  {
    var seen: seq<string> := [];  // the JavaScript `Set`, in insertion order
    for i := 0 to |content|
      invariant NoDup(seen)
      invariant forall x :: x in seen <==> IsTagOf(content[..i], x)
    {
      var item := content[i];
      for j := 0 to |item.tags|
        invariant NoDup(seen)
        invariant forall x :: x in seen <==>
          IsTagOf(content[..i], x) || (x != "" && exists t :: t in item.tags[..j] && Trim(t) == x)
      {
        var tag := Trim(item.tags[j]);
        assert item.tags[..j + 1] == item.tags[..j] + [item.tags[j]];
        if tag != "" && tag !in seen {
          seen := seen + [tag];
        }
      }
      assert content[..i + 1] == content[..i] + [item];
      assert item.tags[..|item.tags|] == item.tags;
      forall x ensures x in seen <==> IsTagOf(content[..i + 1], x) {
        if IsTagOf(content[..i + 1], x) {
          var it, t :| it in content[..i + 1] && t in it.tags && Trim(t) == x && x != "";
          if it != item { assert it in content[..i]; }
        }
      }
    }
    assert content[..|content|] == content;
    tags := Sort(seen);
    SortStrict(seen);
    assert forall x :: x in tags <==> x in seen by {
      forall x ensures x in tags <==> x in seen {
        assert x in tags <==> x in multiset(tags);
        assert x in seen <==> x in multiset(seen);
      }
    }
    forall k | 0 <= k < |tags| ensures tags[k] != "" && Trim(tags[k]) == tags[k] {
      assert tags[k] in tags;
      var it, t :| it in content && t in it.tags && Trim(t) == tags[k] && tags[k] != "";
      TrimTrimmed(tags[k]);
    }
    forall i, j | 0 <= i < j < |tags| ensures tags[i] != tags[j] {
      BelowIrreflexive(tags[i]);
    }
  }

  /** The tag universe depends only on which records there are, not on their
      order or multiplicity. */
  lemma TagUniverseOrderIndependent(c1: seq<Record>, c2: seq<Record>, t1: seq<string>, t2: seq<string>)
    requires forall item :: item in c1 <==> item in c2
    requires IsTagUniverse(c1, t1) && IsTagUniverse(c2, t2)
    ensures t1 == t2
  {
    forall x ensures x in t1 <==> x in t2 {
      assert IsTagOf(c1, x) <==> IsTagOf(c2, x);
    }
    StrictlySortedUnique(t1, t2);
  }

  // ---------------------------------------------------------------------
  // Filter state and the visible subset (`filteredContent`)
  // ---------------------------------------------------------------------

  /** The four state cells: search text, selected tags in selection order,
      and the start and end date inputs, each "" when blank. */
  datatype FilterState = FilterState(
    search: string,
    selectedTags: seq<string>,
    startDate: string,
    endDate: string)

  /** The initial state, and the one `clearFilters` restores. */
  const NoFilters: FilterState := FilterState("", [], "", "")

  /** The inputs of the filter as prepared before the records are scanned:
      trimmed lower-case search text, lower-case selected tags, and the start
      and end bounds when they are set and valid. */
  datatype Criteria = Criteria(search: string, tags: seq<string>, start: Option<int>, end: Option<int>)

  /** `start`: a blank input gives no bound, and so does an unparseable one. */
  function StartBound(startDate: string, clock: Clock): Option<int> {
    if startDate == "" then None else clock.parse(startDate)
  }

  /** `end`, moved to 23:59:59.999 of its local day when it is valid. */
  function EndBound(endDate: string, clock: Clock): (r: Option<int>)
    ensures r.Some? <==> endDate != "" && clock.parse(endDate).Some?
    ensures r.Some? ==>
      LocalDay(r.value, clock.offset) == LocalDay(clock.parse(endDate).value, clock.offset) &&
      clock.parse(endDate).value <= r.value
  {
    if endDate == "" then None
    else
      match clock.parse(endDate)
      case None => None
      case Some(t) => Some(EndOfDay(t, clock.offset))
  }

  function CriteriaOf(st: FilterState, clock: Clock): Criteria {
    Criteria(
      Lower(Trim(st.search)),
      seq(|st.selectedTags|, k requires 0 <= k < |st.selectedTags| => Lower(st.selectedTags[k])),
      StartBound(st.startDate, clock),
      EndBound(st.endDate, clock))
  }

  /** The four searched fields joined by newlines. */
  function SearchText(item: Record): string {
    Join([item.title, item.summary, item.rawText, item.sourceUrl], '\n')
  }

  predicate MatchesSearch(item: Record, query: string) {
    query == "" || Contains(Lower(SearchText(item)), query)
  }

  /** Every selected tag equals, ignoring case, some tag of the record. */
  predicate MatchesTags(item: Record, tags: seq<string>) {
    |tags| == 0 ||
    forall k :: 0 <= k < |tags| ==> exists m :: 0 <= m < |item.tags| && Lower(item.tags[m]) == tags[k]
  }

  predicate MatchesStart(captured: Option<int>, start: Option<int>) {
    start.None? || (captured.Some? && captured.value >= start.value)
  }

  predicate MatchesEnd(captured: Option<int>, end: Option<int>) {
    end.None? || (captured.Some? && captured.value <= end.value)
  }

  /** The callback of `content.filter`; the capture date is parsed again from
      the display string. */
  predicate Keeps(item: Record, c: Criteria, clock: Clock) {
    var captured := clock.parse(item.capturedAt);
    MatchesSearch(item, c.search) && MatchesTags(item, c.tags) &&
    MatchesStart(captured, c.start) && MatchesEnd(captured, c.end)
  }

  /** `filteredContent`: the records that pass all four checks, in their
      original order, each as often as `content` holds it. */
  function Filtered(content: seq<Record>, st: FilterState, clock: Clock): (r: seq<Record>)
    ensures IsSubsequence(r, content) && |r| <= |content|
    ensures forall item :: item in r <==> item in content && Keeps(item, CriteriaOf(st, clock), clock)
    ensures forall item {:trigger multiset(r)[item]} ::
      multiset(r)[item] == if Keeps(item, CriteriaOf(st, clock), clock) then multiset(content)[item] else 0
  {
    var c := CriteriaOf(st, clock);
    var r := Filter(content, (item: Record) => Keeps(item, c, clock));
    SubsequenceLength(r, content);
    r
  }

  /** With a blank search, no selected tags and dates that are blank or do
      not parse, every record is shown, in order. */
  lemma UnconstrainedShowsAll(content: seq<Record>, st: FilterState, clock: Clock)
    requires Trim(st.search) == "" && st.selectedTags == []
    requires st.startDate == "" || clock.parse(st.startDate).None?
    requires st.endDate == "" || clock.parse(st.endDate).None?
    ensures Filtered(content, st, clock) == content
  {
    var c := CriteriaOf(st, clock);
    assert c.search == "" && c.tags == [] && c.start.None? && c.end.None?;
    FilterKeepsAll(content, (item: Record) => Keeps(item, c, clock));
  }

  /** A start or end date that does not parse filters exactly as a blank one. */
  lemma UnparsedBoundIgnored(content: seq<Record>, st: FilterState, clock: Clock)
    ensures clock.parse(st.startDate).None? ==>
      Filtered(content, st, clock) == Filtered(content, st.(startDate := ""), clock)
    ensures clock.parse(st.endDate).None? ==>
      Filtered(content, st, clock) == Filtered(content, st.(endDate := ""), clock)
  {
    if clock.parse(st.startDate).None? {
      assert CriteriaOf(st, clock) == CriteriaOf(st.(startDate := ""), clock);
    }
    if clock.parse(st.endDate).None? {
      assert CriteriaOf(st, clock) == CriteriaOf(st.(endDate := ""), clock);
    }
  }

  /** Once a valid start or end bound is set, a record whose display date
      does not parse is hidden. */
  lemma UnparsedCaptureHidden(content: seq<Record>, st: FilterState, clock: Clock, item: Record)
    requires clock.parse(item.capturedAt).None?
    requires StartBound(st.startDate, clock).Some? || EndBound(st.endDate, clock).Some?
    ensures item !in Filtered(content, st, clock)
  {
  }

  /** The end check admits a parsed capture date exactly when its local day
      is not after the local day of the instant the end input parses to. */
  lemma EndDayIncluded(st: FilterState, clock: Clock, captured: int, end: int)
    requires st.endDate != "" && clock.parse(st.endDate) == Some(end)
    ensures MatchesEnd(Some(captured), CriteriaOf(st, clock).end) <==>
      LocalDay(captured, clock.offset) <= LocalDay(end, clock.offset)
  {
    EndOfDayBound(end, captured, clock.offset);
  }

  /** Some tag of `item` equals `tag` ignoring case. */
  ghost predicate CarriesTag(item: Record, tag: string) {
    exists m :: 0 <= m < |item.tags| && Lower(item.tags[m]) == Lower(tag)
  }

  /** Tag matching is conjunctive: the tag check passes exactly when the
      record carries, up to case, every selected tag. */
  lemma TagCheckIsConjunction(item: Record, st: FilterState, clock: Clock)
    ensures MatchesTags(item, CriteriaOf(st, clock).tags) <==>
      forall k :: 0 <= k < |st.selectedTags| ==> CarriesTag(item, st.selectedTags[k])
  {
    var tags := CriteriaOf(st, clock).tags;
    if MatchesTags(item, tags) {
      forall k | 0 <= k < |st.selectedTags|
        ensures CarriesTag(item, st.selectedTags[k])
      {
        assert tags[k] == Lower(st.selectedTags[k]);
        var m :| 0 <= m < |item.tags| && Lower(item.tags[m]) == tags[k];
      }
    }
    if forall k :: 0 <= k < |st.selectedTags| ==> CarriesTag(item, st.selectedTags[k]) {
      forall k | 0 <= k < |tags|
        ensures exists m :: 0 <= m < |item.tags| && Lower(item.tags[m]) == tags[k]
      {
        assert CarriesTag(item, st.selectedTags[k]);
      }
    }
  }

  /** A record tagged only "X" is shown when "x" is selected and hidden when
      both "x" and "y" are. */
  lemma TagMatchExample(item: Record, clock: Clock)
    requires item.tags == ["X"]
    ensures Filtered([item], FilterState("", ["x"], "", ""), clock) == [item]
    ensures Filtered([item], FilterState("", ["x", "y"], "", ""), clock) == []
  {
    assert Lower("X") == "x";
    assert Lower("x") == "x" && Lower("y") == "y";
    assert Trim("") == "";
    var one := FilterState("", ["x"], "", "");
    var two := FilterState("", ["x", "y"], "", "");
    assert CriteriaOf(one, clock).tags == ["x"];
    assert CriteriaOf(two, clock).tags == ["x", "y"];
    assert Lower(item.tags[0]) == "x";
    assert MatchesTags(item, ["x"]);
    assert Keeps(item, CriteriaOf(one, clock), clock);
    assert !MatchesTags(item, ["x", "y"]) by {
      assert forall m :: 0 <= m < |item.tags| ==> Lower(item.tags[m]) == "x";
      assert ["x", "y"][1] == "y";
    }
    assert !Keeps(item, CriteriaOf(two, clock), clock);
  }

  /** For a query without a newline, the search matches exactly when the
      query occurs, ignoring case, inside one of the four fields. */
  lemma SearchMatchesSomeField(item: Record, query: string)
    requires '\n' !in query
    ensures MatchesSearch(item, query) <==>
      query == "" ||
      Contains(Lower(item.title), query) || Contains(Lower(item.summary), query) ||
      Contains(Lower(item.rawText), query) || Contains(Lower(item.sourceUrl), query)
  {
    var fields := [item.title, item.summary, item.rawText, item.sourceUrl];
    var lowered := seq(|fields|, k requires 0 <= k < |fields| => Lower(fields[k]));
    LowerJoin(fields, '\n');
    ContainsInJoin(lowered, '\n', query);
    assert lowered == [Lower(item.title), Lower(item.summary), Lower(item.rawText), Lower(item.sourceUrl)];
    assert Lower(SearchText(item)) == Join(lowered, '\n');
    assert (exists k :: 0 <= k < |lowered| && Contains(lowered[k], query)) <==>
      Contains(lowered[0], query) || Contains(lowered[1], query) ||
      Contains(lowered[2], query) || Contains(lowered[3], query);
  }

  // ---------------------------------------------------------------------
  // State transitions
  // ---------------------------------------------------------------------

  /** The updater of `toggleTag`: an absent tag is appended, a present tag
      has every occurrence removed. */
  function Toggled(current: seq<string>, tag: string): (r: seq<string>)
    ensures tag !in current ==> r == current + [tag]
    ensures tag in current ==> IsSubsequence(r, current)
    ensures tag in current ==> forall x {:trigger multiset(r)[x]} :: multiset(r)[x] == if x == tag then 0 else multiset(current)[x]
    ensures forall x :: x in r <==> if x == tag then tag !in current else x in current
  {
    if tag in current then Filter(current, (existing: string) => existing != tag)
    else current + [tag]
  }

  /** Toggling an absent tag twice gives back the original selection. */
  lemma ToggleTwiceRestores(current: seq<string>, tag: string)
    requires tag !in current
    ensures Toggled(Toggled(current, tag), tag) == current
  {
    var p := (existing: string) => existing != tag;
    FilterAppend(current, [tag], p);
    FilterKeepsAll(current, p);
    assert Filter([tag], p) == [];
  }

  /** The search has non-white text, a tag is selected, or a date input is
      not blank. */
  predicate HasActiveFilters(st: FilterState) {
    |Trim(st.search)| > 0 || |st.selectedTags| > 0 || st.startDate != "" || st.endDate != ""
  }

  /** Without active filters every record is shown. */
  lemma InactiveShowsAll(content: seq<Record>, st: FilterState, clock: Clock)
    requires !HasActiveFilters(st)
    ensures Filtered(content, st, clock) == content
  {
    UnconstrainedShowsAll(content, st, clock);
  }

  /** After `clearFilters` nothing is filtered out. */
  lemma ClearedShowsAll(content: seq<Record>, clock: Clock)
    ensures !HasActiveFilters(NoFilters)
    ensures Filtered(content, NoFilters, clock) == content
  {
    assert Trim("") == "";
    InactiveShowsAll(content, NoFilters, clock);
  }

  const NoCapturesYet: string := "No captures yet. Configure URLs and run your scraper to see results here."
  const NoCapturesMatch: string := "No captures match your filters. Try adjusting your search or tag selection."

  /** `emptyStateMessage`. */
  function EmptyStateMessage(content: seq<Record>, st: FilterState): string {
    if |content| == 0 && !HasActiveFilters(st) then NoCapturesYet else NoCapturesMatch
  }

  /** When the table is empty, it says "No captures yet" exactly when there is
      nothing to show and no filter is active; it blames the filters only when
      a filter is active or there are records. */
  lemma EmptyStateMessageAccurate(content: seq<Record>, st: FilterState, clock: Clock)
    requires Filtered(content, st, clock) == []
    ensures EmptyStateMessage(content, st) == NoCapturesYet <==> !HasActiveFilters(st)
  {
    if !HasActiveFilters(st) {
      InactiveShowsAll(content, st, clock);
    }
  }

  /** The table component's state: the records it was given and its four
      state cells. */
  class ContentTable {
    const content: seq<Record>
    var search: string
    var selectedTags: seq<string>
    var startDate: string
    var endDate: string

    function State(): FilterState
      reads this
    {
      FilterState(search, selectedTags, startDate, endDate)
    }

    constructor (content: seq<Record>)
      ensures this.content == content && State() == NoFilters
    {
      this.content := content;
      search, selectedTags, startDate, endDate := "", [], "", "";
    }

    /** The search box's `onChange`. */
    method SetSearch(value: string)
      modifies this
      ensures State() == old(State()).(search := value)
    {
      search := value;
    }

    /** The start date picker's `onChange`. */
    method SetStartDate(value: string)
      modifies this
      ensures State() == old(State()).(startDate := value)
    {
      startDate := value;
    }

    /** The end date picker's `onChange`. */
    method SetEndDate(value: string)
      modifies this
      ensures State() == old(State()).(endDate := value)
    {
      endDate := value;
    }

    /** `toggleTag`: only the selection changes. */
    method ToggleTag(tag: string)
      modifies this
      ensures State() == old(State()).(selectedTags := Toggled(old(selectedTags), tag))
    {
      selectedTags := Toggled(selectedTags, tag);
    }

    /** `clearFilters`: all four cells back to blank, so no filter is active
        and every record is shown. */
    method ClearFilters()
      modifies this
      ensures State() == NoFilters
      ensures !HasActiveFilters(State())
    {
      search, selectedTags, startDate, endDate := "", [], "", "";
      assert Trim("") == "";
    }
  }
}
