/** The conference records and the list utilities of the deadline listing:
    sorting by primary deadline, and the year and rating facets. */
module ConferenceUtils {
  import opened Wrappers
  import opened Strings
  import opened Arrays

  /** One deadline of a conference: its date text (possibly "TBD") and the
      named time zone it is given in ("" when it has none). */
  datatype DeadlineEntry = DeadlineEntry(date: string, timezone: string)

  /** A conference record as the loader supplies it. An optional text field
      that is absent is the empty string (both are falsy); an absent year is
      0 (also falsy); `tags` is `None` when the field is not an array. */
  datatype Conference = Conference(
    id: string,
    title: string,
    fullName: string,
    tags: Option<seq<string>>,
    country: string,
    city: string,
    venue: string,
    year: int,
    eraRating: string,
    timezone: string,
    deadline: string)

  /** The deadline helpers whose source lies outside this model, taken as
      given functions: `getPrimaryDeadline` (the next upcoming deadline, else
      the most recent past one, else none) and `getDeadlineInLocalTime` (a
      date text and a time zone to an instant in milliseconds, or none when
      the text does not convert). */
  datatype DeadlineOracle = DeadlineOracle(
    primaryDeadline: Conference -> Option<DeadlineEntry>,
    deadlineInLocalTime: (string, string) -> Option<int>)

  /** The time zone a deadline is read in: its own, else the conference's. */
  function EntryTimezone(c: Conference, d: DeadlineEntry): string {
    if d.timezone != "" then d.timezone else c.timezone
  }

  /** What the comparator sees of a conference: an instant, a primary
      deadline that does not convert, or no primary deadline at all. */
  datatype SortKey = At(instant: int) | Unconvertible | NoPrimary

  function DeadlineKey(c: Conference, o: DeadlineOracle): SortKey {
    match o.primaryDeadline(c)
    case None => NoPrimary
    case Some(d) =>
      match o.deadlineInLocalTime(d.date, EntryTimezone(c, d))
      case None => Unconvertible
      case Some(t) => At(t)
  }

  /** Instants first, then unconvertible deadlines, then none. */
  function Rank(k: SortKey): nat {
    match k
    case At(_) => 0
    case Unconvertible => 1
    case NoPrimary => 2
  }

  /** The comparator of `sortConferencesByDeadline`, branch for branch. */
  function CompareByDeadline(a: Conference, b: Conference, o: DeadlineOracle): (r: int)
    ensures var ka, kb := DeadlineKey(a, o), DeadlineKey(b, o);
      && (ka.At? && kb.At? ==> r == ka.instant - kb.instant)
      && (Rank(ka) < Rank(kb) ==> r == -1)
      && (Rank(ka) > Rank(kb) ==> r == 1)
      && (!ka.At? && Rank(ka) == Rank(kb) ==> r == 0)
  {
    var pa := o.primaryDeadline(a);
    var pb := o.primaryDeadline(b);
    if pa.None? || pb.None? then
      if pa.None? && pb.None? then 0
      else if pa.None? then 1
      else -1
    else
      var da := o.deadlineInLocalTime(pa.value.date, EntryTimezone(a, pa.value));
      var db := o.deadlineInLocalTime(pb.value.date, EntryTimezone(b, pb.value));
      if da.None? || db.None? then
        if da.None? && db.None? then 0
        else if da.None? then 1
        else -1
      else
        da.value - db.value
  }

  function DeadlineComparator(o: DeadlineOracle): (Conference, Conference) -> int {
    (a: Conference, b: Conference) => CompareByDeadline(a, b, o)
  }

  /** The comparator is antisymmetric, and it returns 0 exactly for two
      conferences without a primary deadline, two whose primary deadlines do
      not convert, and two with the same instant. */
  lemma CompareByDeadlineAntisymmetric(a: Conference, b: Conference, o: DeadlineOracle)
    ensures Sign(CompareByDeadline(a, b, o)) == -Sign(CompareByDeadline(b, a, o))
    ensures CompareByDeadline(a, b, o) == 0 <==> DeadlineKey(a, o) == DeadlineKey(b, o)
  {
  }

  lemma DeadlineComparatorIsConsistent(o: DeadlineOracle)
    ensures IsComparator(DeadlineComparator(o))
  {
    var cmp := DeadlineComparator(o);
    forall a, b
      ensures Opposite(cmp, a, b)
    {
      CompareByDeadlineAntisymmetric(a, b, o);
    }
    forall a, b, c
      ensures Chain(cmp, a, b, c)
    {
      assert cmp(a, b) == CompareByDeadline(a, b, o);
      assert cmp(b, c) == CompareByDeadline(b, c, o);
      assert cmp(a, c) == CompareByDeadline(a, c, o);
    }
  }

  /** `sortConferencesByDeadline`: a sorted copy of the list (the argument
      itself is a value and stays as it was). Conferences with an instant
      come first in non-decreasing order of instant, then those whose
      primary deadline does not convert, then those without one. */
  function SortConferencesByDeadline(cs: seq<Conference>, o: DeadlineOracle): (r: seq<Conference>)
    ensures multiset(r) == multiset(cs)
    ensures forall i, j :: 0 <= i < j < |r| ==> Rank(DeadlineKey(r[i], o)) <= Rank(DeadlineKey(r[j], o))
    ensures forall i, j :: 0 <= i < |r| && 0 <= j < |r| && DeadlineKey(r[i], o).At? && !DeadlineKey(r[j], o).At? ==> i < j
    ensures forall i, j :: 0 <= i < j < |r| && DeadlineKey(r[i], o).At? && DeadlineKey(r[j], o).At? ==>
              DeadlineKey(r[i], o).instant <= DeadlineKey(r[j], o).instant
  {
    DeadlineComparatorIsConsistent(o);
    var r := SortBy(cs, DeadlineComparator(o));
    DeadlineOrderOfSorted(r, o);
    r
  }

  /** What a list sorted by the comparator looks like in terms of keys. */
  lemma DeadlineOrderOfSorted(r: seq<Conference>, o: DeadlineOracle)
    requires SortedBy(r, DeadlineComparator(o))
    ensures forall i, j :: 0 <= i < j < |r| ==> Rank(DeadlineKey(r[i], o)) <= Rank(DeadlineKey(r[j], o))
    ensures forall i, j :: 0 <= i < |r| && 0 <= j < |r| && DeadlineKey(r[i], o).At? && !DeadlineKey(r[j], o).At? ==> i < j
    ensures forall i, j :: 0 <= i < j < |r| && DeadlineKey(r[i], o).At? && DeadlineKey(r[j], o).At? ==>
              DeadlineKey(r[i], o).instant <= DeadlineKey(r[j], o).instant
  {
    forall i, j | 0 <= i < j < |r|
      ensures Rank(DeadlineKey(r[i], o)) <= Rank(DeadlineKey(r[j], o))
      ensures DeadlineKey(r[i], o).At? && DeadlineKey(r[j], o).At? ==>
                DeadlineKey(r[i], o).instant <= DeadlineKey(r[j], o).instant
    {
      assert DeadlineComparator(o)(r[i], r[j]) <= 0;
    }
  }

  /** Conferences the comparator calls equal keep their input order (the
      host sort is stable). */
  lemma SortConferencesByDeadlineIsStable(cs: seq<Conference>, x: Conference, o: DeadlineOracle)
    ensures Ties(SortConferencesByDeadline(cs, o), x, DeadlineComparator(o)) == Ties(cs, x, DeadlineComparator(o))
  {
    DeadlineComparatorIsConsistent(o);
    SortByIsStable(cs, x, DeadlineComparator(o));
  }

  // -------------------------------------------------------------- facets

  /** The descending comparator `(a, b) => b - a` of `getAllYears`. */
  function DescendingYears(): (int, int) -> int {
    (a: int, b: int) => b - a
  }

  /** The truthy years among the first `n` conferences. */
  ghost predicate YearAmong(cs: seq<Conference>, n: int, y: int)
    requires 0 <= n <= |cs|
  {
    exists k :: 0 <= k < n && cs[k].year != 0 && cs[k].year == y
  }

  /** `getAllYears`: every truthy year once, largest first. */
  method GetAllYears(cs: seq<Conference>) returns (r: seq<int>)
    ensures forall i, j :: 0 <= i < j < |r| ==> r[i] > r[j]
    ensures forall y :: y in r <==> YearAmong(cs, |cs|, y)
  {
    var years: seq<int> := [];
    for n := 0 to |cs|
      invariant NoDup(years)
      invariant forall y :: y in years <==> YearAmong(cs, n, y)
    {
      var conf := cs[n];
      if conf.year != 0 && conf.year !in years {
        years := years + [conf.year];
      }
      assert forall y :: YearAmong(cs, n + 1, y) <==> YearAmong(cs, n, y) || (conf.year != 0 && conf.year == y);
    }
    var cmp := DescendingYears();
    assert IsComparator(cmp) by {
      forall a, b, c ensures Chain(cmp, a, b, c) {
        assert cmp(a, b) == b - a && cmp(b, c) == c - b && cmp(a, c) == c - a;
      }
      forall a, b ensures Opposite(cmp, a, b) {
        assert cmp(a, b) == b - a && cmp(b, a) == a - b;
      }
    }
    r := SortBy(years, cmp);
    SortByKeepsNoDup(years, cmp);
    forall i, j | 0 <= i < j < |r|
      ensures r[i] > r[j]
    {
      assert cmp(r[i], r[j]) == r[j] - r[i];
    }
    assert forall y :: y in r <==> y in multiset(years);
  }

  /** The default comparison `Array.prototype.sort()` applies to strings. */
  function StringOrder(): (string, string) -> int {
    (a: string, b: string) => CompareStrings(a, b)
  }

  lemma StringOrderIsConsistent()
    ensures IsComparator(StringOrder())
  {
    var cmp := StringOrder();
    forall a, b
      ensures Opposite(cmp, a, b)
    {
      CompareStringsFlip(a, b);
    }
    forall a, b, c
      ensures Chain(cmp, a, b, c)
    {
      if cmp(a, b) <= 0 && cmp(b, c) <= 0 {
        CompareStringsTransitive(a, b, c);
      }
    }
  }

  ghost predicate RatingAmong(cs: seq<Conference>, n: int, x: string)
    requires 0 <= n <= |cs|
  {
    exists k :: 0 <= k < n && cs[k].eraRating != "" && ToUpper(cs[k].eraRating) == x
  }

  /** `getAllEraRatings`: every truthy rating, upper-cased, once, in
      ascending string order. */
  method GetAllEraRatings(cs: seq<Conference>) returns (r: seq<string>)
    ensures forall i, j :: 0 <= i < j < |r| ==> CompareStrings(r[i], r[j]) < 0
    ensures forall x :: x in r <==> RatingAmong(cs, |cs|, x)
  {
    var ratings: seq<string> := [];
    for n := 0 to |cs|
      invariant NoDup(ratings)
      invariant forall x :: x in ratings <==> RatingAmong(cs, n, x)
    {
      var conf := cs[n];
      if conf.eraRating != "" {
        var upper := ToUpper(conf.eraRating);
        if upper !in ratings {
          ratings := ratings + [upper];
        }
      }
      assert forall x :: RatingAmong(cs, n + 1, x) <==>
        RatingAmong(cs, n, x) || (conf.eraRating != "" && ToUpper(conf.eraRating) == x);
    }
    var cmp := StringOrder();
    StringOrderIsConsistent();
    r := SortBy(ratings, cmp);
    SortByKeepsNoDup(ratings, cmp);
    forall i, j | 0 <= i < j < |r|
      ensures CompareStrings(r[i], r[j]) < 0
    {
      assert cmp(r[i], r[j]) == CompareStrings(r[i], r[j]);
    }
    assert forall x :: x in r <==> x in multiset(ratings);
  }
}
