/** The listing page: the conjunction of facet predicates that selects the
    conferences to show, the facet selections themselves (each a JavaScript
    `Set`, which keeps insertion order, modelled as a list without
    duplicates), and their comma-joined copies in the URL query. */
module ConferenceFilter {
  import opened Wrappers
  import opened Strings
  import opened Decimal
  import opened Arrays
  import opened ConferenceUtils

  datatype Criteria = Criteria(
    tags: seq<string>,
    countries: seq<string>,
    years: seq<int>,
    ratings: seq<string>,
    searchQuery: string,
    showPastConferences: bool)

  // ------------------------------------------------------------ predicate

  predicate MatchesTags(c: Conference, selected: seq<string>) {
    |selected| == 0 || (c.tags.Some? && exists t :: t in c.tags.value && t in selected)
  }

  predicate MatchesCountry(c: Conference, selected: seq<string>) {
    |selected| == 0 || (c.country != "" && c.country in selected)
  }

  predicate MatchesYear(c: Conference, selected: seq<int>) {
    |selected| == 0 || (c.year != 0 && c.year in selected)
  }

  predicate MatchesRating(c: Conference, selected: seq<string>) {
    |selected| == 0 || (c.eraRating != "" && ToUpper(c.eraRating) in selected)
  }

  predicate MatchesSearch(c: Conference, query: string) {
    || query == ""
    || Contains(ToLower(c.title), ToLower(query))
    || (c.fullName != "" && Contains(ToLower(c.fullName), ToLower(query)))
  }

  /** The callback given to `filter`; `hasUpcoming` is the helper
      `hasUpcomingDeadlines`, whose source lies outside this model. */
  predicate Matches(c: Conference, crit: Criteria, hasUpcoming: Conference -> bool)
    ensures Matches(c, crit, hasUpcoming) ==> crit.showPastConferences || hasUpcoming(c)
    ensures Matches(c, crit, hasUpcoming) && |crit.tags| > 0 ==>
              c.tags.Some? && exists t :: t in c.tags.value && t in crit.tags
    ensures Matches(c, crit, hasUpcoming) && |crit.countries| > 0 ==> c.country != "" && c.country in crit.countries
    ensures Matches(c, crit, hasUpcoming) && |crit.years| > 0 ==> c.year != 0 && c.year in crit.years
    ensures Matches(c, crit, hasUpcoming) && |crit.ratings| > 0 ==>
              c.eraRating != "" && ToUpper(c.eraRating) in crit.ratings
    ensures Matches(c, crit, hasUpcoming) && crit.searchQuery != "" ==>
              || Contains(ToLower(c.title), ToLower(crit.searchQuery))
              || (c.fullName != "" && Contains(ToLower(c.fullName), ToLower(crit.searchQuery)))
    ensures crit == Criteria([], [], [], [], "", true) ==> Matches(c, crit, hasUpcoming)
  {
    if !crit.showPastConferences && !hasUpcoming(c) then false
    else
      && MatchesTags(c, crit.tags)
      && MatchesCountry(c, crit.countries)
      && MatchesYear(c, crit.years)
      && MatchesRating(c, crit.ratings)
      && MatchesSearch(c, crit.searchQuery)
  }

  /** Conversely, a conference that is upcoming (or past ones are shown) and
      meets every facet written out in full is kept. */
  lemma EveryFacetMetMatches(c: Conference, crit: Criteria, hasUpcoming: Conference -> bool)
    requires crit.showPastConferences || hasUpcoming(c)
    requires |crit.tags| == 0 || (c.tags.Some? && exists t :: t in c.tags.value && t in crit.tags)
    requires |crit.countries| == 0 || (c.country != "" && c.country in crit.countries)
    requires |crit.years| == 0 || (c.year != 0 && c.year in crit.years)
    requires |crit.ratings| == 0 || (c.eraRating != "" && ToUpper(c.eraRating) in crit.ratings)
    requires || crit.searchQuery == ""
             || Contains(ToLower(c.title), ToLower(crit.searchQuery))
             || (c.fullName != "" && Contains(ToLower(c.fullName), ToLower(crit.searchQuery)))
    ensures Matches(c, crit, hasUpcoming)
  {
  }

  /** Within a facet the selections are alternatives: once a facet has a
      selection, selecting one more value never hides a conference. */
  lemma SelectingMoreKeepsMatches(c: Conference, crit: Criteria, hasUpcoming: Conference -> bool,
                                  tag: string, country: string, year: int, rating: string)
    requires Matches(c, crit, hasUpcoming)
    ensures |crit.tags| > 0 ==> Matches(c, crit.(tags := crit.tags + [tag]), hasUpcoming)
    ensures |crit.countries| > 0 ==> Matches(c, crit.(countries := crit.countries + [country]), hasUpcoming)
    ensures |crit.years| > 0 ==> Matches(c, crit.(years := crit.years + [year]), hasUpcoming)
    ensures |crit.ratings| > 0 ==> Matches(c, crit.(ratings := crit.ratings + [rating]), hasUpcoming)
  {
    if |crit.tags| > 0 {
      var t :| t in c.tags.value && t in crit.tags;
      assert t in crit.tags + [tag];
    }
  }

  /** `conferences.filter(...)`: every matching conference, as often as it
      occurs, and nothing else. */
  function FilterConferences(cs: seq<Conference>, crit: Criteria, hasUpcoming: Conference -> bool): (r: seq<Conference>)
    ensures forall x :: multiset(r)[x] == if Matches(x, crit, hasUpcoming) then multiset(cs)[x] else 0
    ensures |cs| == 1 ==> r == if Matches(cs[0], crit, hasUpcoming) then cs else []
  {
    if |cs| == 0 then []
    else
      var rest := FilterConferences(cs[1..], crit, hasUpcoming);
      assert cs == [cs[0]] + cs[1..];
      if Matches(cs[0], crit, hasUpcoming) then [cs[0]] + rest else rest
  }

  /** `filter` decides conference by conference: filtering a concatenation
      filters each part, so the kept conferences stay in input order. */
  lemma {:induction false} FilterConferencesAppend(a: seq<Conference>, b: seq<Conference>, crit: Criteria,
                                                   hasUpcoming: Conference -> bool)
    ensures FilterConferences(a + b, crit, hasUpcoming)
         == FilterConferences(a, crit, hasUpcoming) + FilterConferences(b, crit, hasUpcoming)
  {
    if |a| == 0 {
      assert a + b == b;
    } else {
      assert (a + b)[1..] == a[1..] + b;
      FilterConferencesAppend(a[1..], b, crit, hasUpcoming);
    }
  }

  /** `filteredConferences`: nothing when the data is not an array (`None`),
      otherwise the matching conferences sorted by primary deadline. */
  function FilteredConferences(data: Option<seq<Conference>>, crit: Criteria,
                               hasUpcoming: Conference -> bool, o: DeadlineOracle): (r: seq<Conference>)
    ensures data.None? ==> r == []
    ensures data.Some? ==> forall x :: multiset(r)[x] == if Matches(x, crit, hasUpcoming) then multiset(data.value)[x] else 0
    ensures forall i, j :: 0 <= i < j < |r| ==> Rank(DeadlineKey(r[i], o)) <= Rank(DeadlineKey(r[j], o))
    ensures forall i, j :: 0 <= i < |r| && 0 <= j < |r| && DeadlineKey(r[i], o).At? && !DeadlineKey(r[j], o).At? ==> i < j
    ensures forall i, j :: 0 <= i < j < |r| && DeadlineKey(r[i], o).At? && DeadlineKey(r[j], o).At? ==>
              DeadlineKey(r[i], o).instant <= DeadlineKey(r[j], o).instant
  {
    if data.None? then []
    else SortConferencesByDeadline(FilterConferences(data.value, crit, hasUpcoming), o)
  }

  /** Conferences whose deadlines the comparator calls equal are listed in
      the order the data gives them. */
  lemma FilteredConferencesIsStable(cs: seq<Conference>, crit: Criteria, hasUpcoming: Conference -> bool,
                                    o: DeadlineOracle, x: Conference)
    ensures Ties(FilteredConferences(Some(cs), crit, hasUpcoming, o), x, DeadlineComparator(o))
         == Ties(FilterConferences(cs, crit, hasUpcoming), x, DeadlineComparator(o))
  {
    SortConferencesByDeadlineIsStable(FilterConferences(cs, crit, hasUpcoming), x, o);
  }

  /** With every selection empty, an empty search and past conferences shown,
      the listing holds every conference. */
  lemma NoFiltersKeepEverything(cs: seq<Conference>, hasUpcoming: Conference -> bool, o: DeadlineOracle)
    ensures multiset(FilteredConferences(Some(cs), Criteria([], [], [], [], "", true), hasUpcoming, o)) == multiset(cs)
  {
    var r := FilteredConferences(Some(cs), Criteria([], [], [], [], "", true), hasUpcoming, o);
    forall x
      ensures multiset(r)[x] == multiset(cs)[x]
    {
      assert Matches(x, Criteria([], [], [], [], "", true), hasUpcoming);
    }
  }

  // ----------------------------------------------------------- selections

  /** The toggle of `toggleTag` and of the facet checkboxes: a copy of the
      selection with `x` deleted when present and added when absent. Only the
      membership of `x` changes. */
  function Toggle<T(==,!new)>(s: seq<T>, x: T): (r: seq<T>)
    ensures x in r <==> x !in s
    ensures forall y :: y != x ==> (y in r <==> y in s)
    ensures NoDup(s) ==> NoDup(r)
  {
    if x in s then Without(s, x) else s + [x]
  }

  /** Toggling twice restores the selection: exactly when the element was
      absent, and up to its position (it moves to the end) when present. */
  lemma ToggleTwice<T(!new)>(s: seq<T>, x: T)
    requires NoDup(s)
    ensures forall y :: y in Toggle(Toggle(s, x), x) <==> y in s
    ensures x !in s ==> Toggle(Toggle(s, x), x) == s
  {
    if x !in s {
      WithoutAppended(s, x);
    }
  }

  // ------------------------------------------------------ URL parameters

  /** `searchParams.get(key)`. */
  function Lookup(params: map<string, string>, key: string): Option<string> {
    if key in params then Some(params[key]) else None
  }

  /** What `handle*Change` does to the query: a non-empty selection is
      written as its comma-join, an empty one deletes the parameter. */
  function WithSelection(params: map<string, string>, key: string, texts: seq<string>): (r: map<string, string>)
    ensures |texts| > 0 ==> Lookup(r, key) == Some(Join(texts, ","))
    ensures |texts| == 0 ==> Lookup(r, key) == None
    ensures forall k :: k != key ==> Lookup(r, k) == Lookup(params, k)
  {
    if |texts| > 0 then params[key := Join(texts, ",")] else params - {key}
  }

  function YearTexts(years: seq<int>): (r: seq<string>)
    ensures |r| == |years|
    ensures forall i :: 0 <= i < |years| ==> r[i] == IntToString(years[i])
  {
    seq(|years|, i requires 0 <= i < |years| => IntToString(years[i]))
  }

  /** Decoding a text-valued parameter: absent or empty leaves the selection
      alone (`None`), otherwise its comma-separated pieces as a set. */
  function DecodeTexts(param: Option<string>): (r: Option<seq<string>>)
    ensures r.None? <==> param.None? || param.value == ""
    ensures r.Some? ==> NoDup(r.value)
    ensures r.Some? ==> forall t :: t in r.value <==> t in Split(param.value, ",")
  {
    if param.None? || param.value == "" then None
    else Some(Dedup(Split(param.value, ",")))
  }

  /** `texts.map(Number).filter(y => !isNaN(y))`. */
  function KeepNumbers(texts: seq<string>): (r: seq<int>)
    ensures |r| <= |texts|
    ensures forall y :: y in r <==> exists t :: t in texts && ParseNumber(t) == Some(y)
    ensures |texts| == 1 ==> r == if ParseNumber(texts[0]).Some? then [ParseNumber(texts[0]).value] else []
  {
    if |texts| == 0 then []
    else
      var rest := KeepNumbers(texts[1..]);
      assert forall t :: t in texts <==> t == texts[0] || t in texts[1..] by {
        assert texts == [texts[0]] + texts[1..];
      }
      match ParseNumber(texts[0])
      case Some(y) => [y] + rest
      case None => rest
  }

  /** `map` then `filter` go text by text: numbers keep the order and the
      multiplicity of their texts. */
  lemma {:induction false} KeepNumbersAppend(a: seq<string>, b: seq<string>)
    ensures KeepNumbers(a + b) == KeepNumbers(a) + KeepNumbers(b)
  {
    if |a| == 0 {
      assert a + b == b;
    } else {
      assert (a + b)[1..] == a[1..] + b;
      KeepNumbersAppend(a[1..], b);
    }
  }

  /** Decoding the `years` parameter: its pieces as numbers, NaN dropped. */
  function DecodeYears(param: Option<string>): (r: Option<seq<int>>)
    ensures r.None? <==> param.None? || param.value == ""
    ensures r.Some? ==> NoDup(r.value)
    ensures r.Some? ==> forall y :: y in r.value <==> exists t :: t in Split(param.value, ",") && ParseNumber(t) == Some(y)
  {
    if param.None? || param.value == "" then None
    else Some(Dedup(KeepNumbers(Split(param.value, ","))))
  }

  /** A join is empty only for no parts or the single empty part. */
  lemma JoinEmpty(parts: seq<string>, sep: string)
    requires |sep| > 0
    ensures Join(parts, sep) == "" <==> parts == [] || parts == [""]
  {
    if |parts| > 1 {
      assert |Join(parts, sep)| >= |sep|;
    }
  }

  /** A text selection survives the trip through the URL when none of its
      entries contains a comma (and it is not the single empty text, whose
      join is the falsy ""). */
  lemma TextSelectionRoundTrip(params: map<string, string>, key: string, selection: seq<string>)
    requires NoDup(selection) && selection != [""]
    requires forall t :: t in selection ==> ',' !in t
    ensures DecodeTexts(Lookup(WithSelection(params, key, selection), key))
            == if |selection| == 0 then None else Some(selection)
  {
    if |selection| > 0 {
      JoinEmpty(selection, ",");
      SplitJoin(selection, ",");
      DedupOfNoDup(selection);
    }
  }

  lemma {:induction false} KeepNumbersOfYearTexts(years: seq<int>)
    ensures KeepNumbers(YearTexts(years)) == years
  {
    if |years| > 0 {
      var texts := YearTexts(years);
      assert texts[1..] == YearTexts(years[1..]);
      KeepNumbersOfYearTexts(years[1..]);
      ParseNumberOfIntToString(years[0]);
      KeepNumbersOfNumber(texts, years[0]);
      assert years == [years[0]] + years[1..];
    }
  }

  lemma KeepNumbersOfNumber(texts: seq<string>, y: int)
    requires |texts| > 0 && ParseNumber(texts[0]) == Some(y)
    ensures KeepNumbers(texts) == [y] + KeepNumbers(texts[1..])
  {
  }

  lemma YearTextsHaveNoComma(years: seq<int>)
    ensures forall t :: t in YearTexts(years) ==> ',' !in t
  {
    var texts := YearTexts(years);
    forall t | t in texts
      ensures ',' !in t
    {
      var i :| 0 <= i < |texts| && texts[i] == t;
      assert t == IntToString(years[i]);
    }
  }

  /** Every year selection survives the trip through the URL. */
  lemma YearSelectionRoundTrip(params: map<string, string>, years: seq<int>)
    requires NoDup(years)
    ensures DecodeYears(Lookup(WithSelection(params, "years", YearTexts(years)), "years"))
            == if |years| == 0 then None else Some(years)
  {
    var texts := YearTexts(years);
    if |years| > 0 {
      YearTextsHaveNoComma(years);
      JoinEmpty(texts, ",");
      assert texts != [""];
      SplitJoin(texts, ",");
      KeepNumbersOfYearTexts(years);
      DedupOfNoDup(years);
    }
  }

  // ----------------------------------------------------------- page state

  /** The listing page's filter state and the URL query it mirrors. */
  class IndexPage {
    var selectedTags: seq<string>
    var selectedCountries: seq<string>
    var selectedYears: seq<int>
    var selectedRatings: seq<string>
    var searchQuery: string
    var showPastConferences: bool
    var searchParams: map<string, string>

    /** Each selection is a set. */
    ghost predicate Valid()
      reads this
    {
      NoDup(selectedTags) && NoDup(selectedCountries) && NoDup(selectedYears) && NoDup(selectedRatings)
    }

    function CurrentCriteria(): Criteria
      reads this
    {
      Criteria(selectedTags, selectedCountries, selectedYears, selectedRatings, searchQuery, showPastConferences)
    }

    /** The state before the effects run: nothing selected, no search, past
        conferences hidden, and the query of the page's URL. */
    constructor(url: map<string, string>)
      ensures Valid()
      ensures CurrentCriteria() == Criteria([], [], [], [], "", false)
      ensures searchParams == url
    {
      selectedTags, selectedCountries, selectedYears, selectedRatings := [], [], [], [];
      searchQuery, showPastConferences := "", false;
      searchParams := url;
    }

    method HandleTagsChange(newTags: seq<string>)
      requires Valid() && NoDup(newTags)
      modifies this
      ensures Valid()
      ensures CurrentCriteria() == old(CurrentCriteria()).(tags := newTags)
      ensures searchParams == WithSelection(old(searchParams), "tags", newTags)
    {
      selectedTags := newTags;
      if |newTags| > 0 {
        searchParams := searchParams["tags" := Join(newTags, ",")];
      } else {
        searchParams := searchParams - {"tags"};
      }
    }

    method HandleCountriesChange(newCountries: seq<string>)
      requires Valid() && NoDup(newCountries)
      modifies this
      ensures Valid()
      ensures CurrentCriteria() == old(CurrentCriteria()).(countries := newCountries)
      ensures searchParams == WithSelection(old(searchParams), "countries", newCountries)
    {
      selectedCountries := newCountries;
      if |newCountries| > 0 {
        searchParams := searchParams["countries" := Join(newCountries, ",")];
      } else {
        searchParams := searchParams - {"countries"};
      }
    }

    method HandleYearsChange(newYears: seq<int>)
      requires Valid() && NoDup(newYears)
      modifies this
      ensures Valid()
      ensures CurrentCriteria() == old(CurrentCriteria()).(years := newYears)
      ensures searchParams == WithSelection(old(searchParams), "years", YearTexts(newYears))
    {
      selectedYears := newYears;
      if |newYears| > 0 {
        searchParams := searchParams["years" := Join(YearTexts(newYears), ",")];
      } else {
        searchParams := searchParams - {"years"};
      }
    }

    method HandleRatingsChange(newRatings: seq<string>)
      requires Valid() && NoDup(newRatings)
      modifies this
      ensures Valid()
      ensures CurrentCriteria() == old(CurrentCriteria()).(ratings := newRatings)
      ensures searchParams == WithSelection(old(searchParams), "ratings", newRatings)
    {
      selectedRatings := newRatings;
      if |newRatings| > 0 {
        searchParams := searchParams["ratings" := Join(newRatings, ",")];
      } else {
        searchParams := searchParams - {"ratings"};
      }
    }

    /** `toggleTag`, and the category buttons, which do the same. */
    method ToggleTag(tag: string)
      requires Valid()
      modifies this
      ensures Valid()
      ensures CurrentCriteria() == old(CurrentCriteria()).(tags := Toggle(old(selectedTags), tag))
      ensures searchParams == WithSelection(old(searchParams), "tags", Toggle(old(selectedTags), tag))
    {
      var newTags := selectedTags;
      if tag in newTags {
        newTags := Without(newTags, tag);
      } else {
        newTags := newTags + [tag];
      }
      HandleTagsChange(newTags);
    }

    /** The country checkbox. */
    method ToggleCountry(country: string)
      requires Valid()
      modifies this
      ensures Valid()
      ensures CurrentCriteria() == old(CurrentCriteria()).(countries := Toggle(old(selectedCountries), country))
      ensures searchParams == WithSelection(old(searchParams), "countries", Toggle(old(selectedCountries), country))
    {
      var newCountries := selectedCountries;
      if country in newCountries {
        newCountries := Without(newCountries, country);
      } else {
        newCountries := newCountries + [country];
      }
      HandleCountriesChange(newCountries);
    }

    /** The year checkbox. */
    method ToggleYear(year: int)
      requires Valid()
      modifies this
      ensures Valid()
      ensures CurrentCriteria() == old(CurrentCriteria()).(years := Toggle(old(selectedYears), year))
      ensures searchParams == WithSelection(old(searchParams), "years", YearTexts(Toggle(old(selectedYears), year)))
    {
      var newYears := selectedYears;
      if year in newYears {
        newYears := Without(newYears, year);
      } else {
        newYears := newYears + [year];
      }
      HandleYearsChange(newYears);
    }

    /** The rating checkbox. */
    method ToggleRating(rating: string)
      requires Valid()
      modifies this
      ensures Valid()
      ensures CurrentCriteria() == old(CurrentCriteria()).(ratings := Toggle(old(selectedRatings), rating))
      ensures searchParams == WithSelection(old(searchParams), "ratings", Toggle(old(selectedRatings), rating))
    {
      var newRatings := selectedRatings;
      if rating in newRatings {
        newRatings := Without(newRatings, rating);
      } else {
        newRatings := newRatings + [rating];
      }
      HandleRatingsChange(newRatings);
    }

    /** The remove button on a selected-country chip. */
    method RemoveCountry(country: string)
      requires Valid()
      modifies this
      ensures Valid()
      ensures CurrentCriteria() == old(CurrentCriteria()).(countries := Without(old(selectedCountries), country))
      ensures country !in selectedCountries
      ensures searchParams == WithSelection(old(searchParams), "countries", Without(old(selectedCountries), country))
    {
      var newCountries := Without(selectedCountries, country);
      HandleCountriesChange(newCountries);
    }

    /** The remove button on a selected-year chip. */
    method RemoveYear(year: int)
      requires Valid()
      modifies this
      ensures Valid()
      ensures CurrentCriteria() == old(CurrentCriteria()).(years := Without(old(selectedYears), year))
      ensures year !in selectedYears
      ensures searchParams == WithSelection(old(searchParams), "years", YearTexts(Without(old(selectedYears), year)))
    {
      var newYears := Without(selectedYears, year);
      HandleYearsChange(newYears);
    }

    /** The remove button on a selected-rating chip. */
    method RemoveRating(rating: string)
      requires Valid()
      modifies this
      ensures Valid()
      ensures CurrentCriteria() == old(CurrentCriteria()).(ratings := Without(old(selectedRatings), rating))
      ensures rating !in selectedRatings
      ensures searchParams == WithSelection(old(searchParams), "ratings", Without(old(selectedRatings), rating))
    {
      var newRatings := Without(selectedRatings, rating);
      HandleRatingsChange(newRatings);
    }

    /** The "Clear all filters" button. */
    method ClearAllFilters()
      requires Valid()
      modifies this
      ensures Valid()
      ensures CurrentCriteria() == old(CurrentCriteria()).(tags := [], countries := [], years := [], ratings := [])
      ensures searchParams == old(searchParams) - {"tags", "countries", "years", "ratings"}
    {
      HandleTagsChange([]);
      HandleCountriesChange([]);
      HandleYearsChange([]);
      HandleRatingsChange([]);
    }

    /** The effect that runs on the first render: each facet whose parameter
        is present and non-empty is replaced by its decoding; the others, and
        the search and past-conference switch, stay. */
    method LoadFiltersFromUrl()
      requires Valid()
      modifies this
      ensures Valid() && searchParams == old(searchParams)
      ensures selectedTags == DecodeTexts(Lookup(searchParams, "tags")).GetOr(old(selectedTags))
      ensures selectedCountries == DecodeTexts(Lookup(searchParams, "countries")).GetOr(old(selectedCountries))
      ensures selectedYears == DecodeYears(Lookup(searchParams, "years")).GetOr(old(selectedYears))
      ensures selectedRatings == DecodeTexts(Lookup(searchParams, "ratings")).GetOr(old(selectedRatings))
      ensures searchQuery == old(searchQuery) && showPastConferences == old(showPastConferences)
    {
      selectedTags := DecodeTexts(Lookup(searchParams, "tags")).GetOr(selectedTags);
      selectedCountries := DecodeTexts(Lookup(searchParams, "countries")).GetOr(selectedCountries);
      selectedYears := DecodeYears(Lookup(searchParams, "years")).GetOr(selectedYears);
      selectedRatings := DecodeTexts(Lookup(searchParams, "ratings")).GetOr(selectedRatings);
    }

    /** The `urlchange` listener: tags and countries are set from the query,
        and cleared when their parameter is absent or empty; years and
        ratings are not looked at. */
    method HandleUrlChange()
      requires Valid()
      modifies this
      ensures Valid() && searchParams == old(searchParams)
      ensures CurrentCriteria() == old(CurrentCriteria()).(
        tags := DecodeTexts(Lookup(searchParams, "tags")).GetOr([]),
        countries := DecodeTexts(Lookup(searchParams, "countries")).GetOr([]))
    {
      var tags := DecodeTexts(Lookup(searchParams, "tags"));
      var countries := DecodeTexts(Lookup(searchParams, "countries"));
      selectedTags := if tags.Some? then tags.value else [];
      selectedCountries := if countries.Some? then countries.value else [];
    }
  }

  /** A shared link restores the tag selection: after a tag change, loading
      the filters from the resulting URL gives the same tags back. */
  method TagsSurviveReload(page: IndexPage, newTags: seq<string>)
    requires page.Valid() && NoDup(newTags) && newTags != [""]
    requires forall t :: t in newTags ==> ',' !in t
    modifies page
    ensures page.Valid() && page.selectedTags == newTags
  {
    page.HandleTagsChange(newTags);
    TextSelectionRoundTrip(old(page.searchParams), "tags", newTags);
    page.LoadFiltersFromUrl();
  }
}
