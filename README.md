# Conference deadlines and bill splitting, modelled in Dafny

This project models the logic of two small client-side web pages.

The **conference deadline listing** has three parts:

- The utilities in `src/utils/conferenceUtils.ts`: sorting conferences by their primary deadline, and collecting the year and ERA-rating facets.
- The listing page in `src/pages/Index.tsx`. It holds the filter predicate and the facet selections, which are JavaScript `Set`s. It also keeps a copy of the selections as comma-joined URL query parameters.
- The conference detail dialog in `src/components/ConferenceDialog.tsx`. It shows a countdown and its colour, the location line and deadline texts. It also reads the start day out of a date range and exports calendar events.

The **bill-splitting prototypes** are three stores:

- the per-user count store and total in `src/app/splitbill/BillSplittingInterface.tsx`;
- the share store (selected positions and amounts) in `src/app/splitbill_test/BillSplittingInterface.tsx`;
- the order store in `src/app/splitbill/store.ts`, whose positions are immutable objects compared by identity.

Modules:

| file | module | what it holds |
|---|---|---|
| `wrappers.dfy` | `Wrappers` | `Option` and `Result` |
| `strings.dfy` | `Strings` | ASCII case mapping, `includes`, `split`/`join`, the `/\s+/g` rewrite, default string order |
| `decimal.dfy` | `Decimal` | `String(n)` and `Number(text)` for whole numbers |
| `arrays.dfy` | `Arrays` | `new Set(array)` as first-occurrence deduplication, and `Array.prototype.sort` as a stable insertion sort |
| `conference_utils.dfy` | `ConferenceUtils` | records, the deadline comparator and sort, the year and rating facets |
| `conference_filter.dfy` | `ConferenceFilter` | the filter predicate, toggles, URL encoding and decoding, the page state class `IndexPage` |
| `conference_dialog.dfy` | `ConferenceDialog` | countdown, colour, location, deadline texts, date-range reader, calendar export, the `Dialog` class |
| `split_bill.dfy` | `SplitBill` | the count store `UserStore`, button guards, totals |
| `split_bill_test.dfy` | `SplitBillTest` | the share store `ShareStore`, position clicks, sums |
| `order_store.dfy` | `OrderStore` | `Position` objects and the order store `OrderStore` |

Conventions of the model:

- An absent or empty optional text field is `""`; both are falsy in the source.
- An absent year is `0`.
- A `tags` field that is not an array is `None`.
- A `Set` is a sequence without duplicates, in insertion order.
- Times are whole milliseconds.

Collaborators outside the model are passed in as given functions. These are:

- the deadline helpers `getPrimaryDeadline`, `getNextUpcomingDeadline`, `getDeadlineInLocalTime` and `hasUpcomingDeadlines`;
- date-fns `parse`, `parseISO` and `format`;
- the current time;
- the browser's time zone.

The comment at `src/utils/conferenceUtils.ts:13` speaks of two classes: conferences with deadlines first, those without placed later. The code has three classes, because it tests twice, and the model follows the code:

1. conferences whose primary deadline converts to an instant, by instant;
2. conferences whose primary deadline does not convert;
3. conferences with no primary deadline.

`ConferenceUtils.DeadlineKey` and `ConferenceUtils.Rank` capture this.

## Model

| member | source | states |
|---|---|---|
| `ConferenceUtils.CompareByDeadline` | src/utils/conferenceUtils.ts:9-37 | Two instants compare by their difference. A convertible deadline precedes an unconvertible one, which precedes no primary deadline. Two of the same non-instant kind compare equal. |
| `ConferenceUtils.CompareByDeadlineAntisymmetric` | src/utils/conferenceUtils.ts:9-37 | Swapping the arguments flips the sign. The result is 0 exactly when both conferences have the same key. |
| `ConferenceUtils.DeadlineComparatorIsConsistent` | src/utils/conferenceUtils.ts:9-37 | The comparator is antisymmetric and transitive, so the sort's result is well defined. |
| `ConferenceUtils.SortConferencesByDeadline` | src/utils/conferenceUtils.ts:8-38 | The result is a permutation of the input. Dated conferences come first, in non-decreasing order of instant, then unconvertible ones, then those without a primary deadline. |
| `ConferenceUtils.SortConferencesByDeadlineIsStable` | src/utils/conferenceUtils.ts:9 | Conferences the comparator calls equal keep their input order. |
| `ConferenceUtils.GetAllYears` | src/utils/conferenceUtils.ts:43-51 | Each truthy year appears exactly once, in strictly descending order. |
| `ConferenceUtils.StringOrderIsConsistent` | src/utils/conferenceUtils.ts:63 | The default sort order on strings is antisymmetric and transitive. |
| `ConferenceUtils.GetAllEraRatings` | src/utils/conferenceUtils.ts:56-64 | Each truthy rating, upper-cased, appears exactly once, in strictly ascending string order. |
| `Arrays.Dedup` | src/pages/Index.tsx:147-150 | `new Set(array)` has no duplicates and has exactly the array's members. The values are listed in the order of their first occurrences in the array. |
| `Arrays.DedupOfNoDup` | src/pages/Index.tsx:147-150 | A duplicate-free array comes out of `new Set` unchanged, order included. |
| `Arrays.SortBy` | src/utils/conferenceUtils.ts:9 | For a consistent comparator, the sort returns a permutation that is sorted. |
| `Arrays.SortByIsStable` | src/utils/conferenceUtils.ts:9 | The elements tied with any given element keep their relative order. |
| `Arrays.SortByKeepsNoDup` | src/utils/conferenceUtils.ts:50 | Sorting a set's elements keeps them duplicate-free. |
| `Strings.ToLower` | src/pages/Index.tsx:73 | Lower-casing keeps the length and maps each ASCII capital to its small letter, leaving other characters alone. |
| `Strings.ToUpper` | src/pages/Index.tsx:69 | Upper-casing keeps the length and maps each ASCII small letter to its capital, leaving other characters alone. |
| `Strings.IndexOfFrom` | src/pages/Index.tsx:148 | The search returns the first occurrence of the separator at or after the start, or none when there is none. |
| `Strings.JoinSplit` | src/pages/Index.tsx:148 | Joining the pieces of a split with the same separator gives back the text. |
| `Strings.SplitJoin` | src/pages/Index.tsx:148 | Splitting a join gives back the parts when no part contains the separator's first character. |
| `Strings.ReplaceWhitespaceRuns` | src/components/ConferenceDialog.tsx:160 | The rewrite leaves no whitespace, never lengthens the text, and only adds hyphens. Text without whitespace is unchanged. |
| `Strings.ReplaceWhitespaceRunsOfRun` | src/components/ConferenceDialog.tsx:160 | A whitespace run between two texts that do not touch it with whitespace of their own becomes exactly one hyphen, and each side is rewritten on its own. |
| `Strings.CompareStrings` | src/utils/conferenceUtils.ts:63 | The default string comparison is -1, 0 or 1, and 0 exactly for equal texts. |
| `Strings.CompareStringsIsLexicographic` | src/utils/conferenceUtils.ts:63 | The comparison is negative exactly when the first text is a proper prefix of the second, or the texts agree up to a position where the first has the smaller character. |
| `Strings.CompareStringsFlip` | src/utils/conferenceUtils.ts:63 | Swapping the arguments negates the comparison. |
| `Strings.CompareStringsTransitive` | src/utils/conferenceUtils.ts:63 | The string order is transitive. |
| `Decimal.NatToString` | src/pages/Index.tsx:110 | The decimal text of a number is non-empty digits without a leading zero. |
| `Decimal.IntToString` | src/pages/Index.tsx:110 | The decimal text of a whole number is digits, with a minus sign only in front. |
| `Decimal.DigitsValueOfNatToString` | src/pages/Index.tsx:158 | Reading back the digits of a number gives the number. |
| `Decimal.ParseNumber` | src/pages/Index.tsx:158 | The empty text reads as 0. A text is a number exactly when it is decimal digits with at most one leading sign and at least one digit. Only a leading minus gives a negative value, and plain digits read as their value. |
| `Decimal.ParseNumberOfIntToString` | src/pages/Index.tsx:158 | `Number(String(y))` is `y` for every whole number. |
| `ConferenceFilter.Matches` | src/pages/Index.tsx:51-77 | A past conference matches only when past conferences are shown. Under a tag selection a match has a tag list sharing a selected tag. Under a country selection it has a non-empty selected country. Under a year selection it has a non-zero selected year. Under a rating selection it has a non-empty rating whose upper-case form is selected. Under a non-empty search, the lower-cased title or the non-empty lower-cased full name contains the lower-cased query. With no selection, an empty search and past conferences shown, every conference matches. |
| `ConferenceFilter.EveryFacetMetMatches` | src/pages/Index.tsx:51-77 | Conversely, a conference that passes the past-conference rule and meets every one of those facet conditions is kept. |
| `ConferenceFilter.SelectingMoreKeepsMatches` | src/pages/Index.tsx:56-69 | The values selected within one facet are alternatives: adding a value to a non-empty selection never hides a conference. |
| `ConferenceFilter.FilterConferences` | src/pages/Index.tsx:50-77 | Each conference that matches every active facet, the search and the past filter is kept as often as it occurs; nothing else is kept. A single conference is kept exactly when it matches. |
| `ConferenceFilter.FilterConferencesAppend` | src/pages/Index.tsx:50-77 | Filtering a concatenation filters each part, so the kept conferences stay in input order. |
| `ConferenceFilter.FilteredConferences` | src/pages/Index.tsx:44-81 | Non-array data gives the empty list. Otherwise the result holds exactly the matching conferences. Dated ones come first by instant, then unconvertible ones, then those without a primary deadline. |
| `ConferenceFilter.FilteredConferencesIsStable` | src/pages/Index.tsx:80 | Conferences whose deadlines the comparator calls equal are listed in the order of the data. |
| `ConferenceFilter.NoFiltersKeepEverything` | src/pages/Index.tsx:53-76 | With no facet selected, an empty search and past conferences shown, every conference is listed. |
| `Arrays.Without` | src/app/splitbill_test/BillSplittingInterface.tsx:49 | Removing a value drops every copy of it and keeps every other element as often as it occurs. A one-element list loses its element exactly when it is the value. A duplicate-free list stays duplicate-free, so on a set it is `delete(x)` (src/pages/Index.tsx:132). A list without the value is unchanged. |
| `Arrays.WithoutAppend` | src/app/splitbill_test/BillSplittingInterface.tsx:49 | Removing from a concatenation removes from each part, so the kept elements stay in order. |
| `Arrays.WithoutAppended` | src/app/splitbill_test/BillSplittingInterface.tsx:22-55 | Appending an absent id and then filtering it out restores the list. |
| `ConferenceFilter.Toggle` | src/pages/Index.tsx:129-137 | A toggle flips the membership of the toggled element only, and keeps the set duplicate-free. |
| `ConferenceFilter.ToggleTwice` | src/pages/Index.tsx:129-137 | Toggling twice restores the members. The order is also restored exactly when the element was absent. |
| `ConferenceFilter.WithSelection` | src/pages/Index.tsx:84-126 | A non-empty selection is written as its comma-join and an empty one deletes the parameter. No other parameter changes. |
| `ConferenceFilter.YearTexts` | src/pages/Index.tsx:110 | Each year is written as its decimal text. |
| `ConferenceFilter.DecodeTexts` | src/pages/Index.tsx:147-165 | An absent or empty parameter leaves the selection alone. Otherwise the selection is duplicate-free and holds exactly the comma-separated pieces. |
| `ConferenceFilter.KeepNumbers` | src/pages/Index.tsx:158 | The numbers kept are exactly the values of the pieces `Number` reads, and there are no more of them than pieces. A single piece gives its number, or nothing when it reads as NaN. |
| `ConferenceFilter.KeepNumbersAppend` | src/pages/Index.tsx:158 | Mapping and filtering a concatenation maps and filters each part, so the numbers keep the order and multiplicity of their pieces. |
| `ConferenceFilter.DecodeYears` | src/pages/Index.tsx:157-160 | An absent or empty parameter leaves the selection alone. Otherwise the selection is duplicate-free and holds exactly the values of the pieces that read as numbers. |
| `ConferenceFilter.JoinEmpty` | src/pages/Index.tsx:87-91 | A comma-join is empty only for no parts or the single empty part. |
| `ConferenceFilter.TextSelectionRoundTrip` | src/pages/Index.tsx:84-165 | A text selection survives the trip through the URL when no entry contains a comma. An empty selection leaves no parameter. |
| `ConferenceFilter.KeepNumbersOfYearTexts` | src/pages/Index.tsx:158 | Reading back the written years with NaN dropped gives back the years. |
| `ConferenceFilter.YearSelectionRoundTrip` | src/pages/Index.tsx:106-160 | Every year selection survives the trip through the URL. |
| `ConferenceFilter.IndexPage.constructor` | src/pages/Index.tsx:20-25 | The page starts with nothing selected, an empty search, past conferences hidden, and the URL's query. |
| `ConferenceFilter.IndexPage.HandleTagsChange` | src/pages/Index.tsx:84-93 | Replaces the tag selection and writes it to the query. |
| `ConferenceFilter.IndexPage.HandleCountriesChange` | src/pages/Index.tsx:95-104 | Replaces the country selection and writes it to the query. |
| `ConferenceFilter.IndexPage.HandleYearsChange` | src/pages/Index.tsx:106-115 | Replaces the year selection and writes it to the query as decimal texts. |
| `ConferenceFilter.IndexPage.HandleRatingsChange` | src/pages/Index.tsx:117-126 | Replaces the rating selection and writes it to the query. |
| `ConferenceFilter.IndexPage.ToggleTag` | src/pages/Index.tsx:129-137 | The tag selection becomes its toggle and is written to the query. Nothing else changes. |
| `ConferenceFilter.IndexPage.ToggleCountry` | src/pages/Index.tsx:269-277 | The country selection becomes its toggle and is written to the query. |
| `ConferenceFilter.IndexPage.ToggleYear` | src/pages/Index.tsx:312-320 | The year selection becomes its toggle and is written to the query. |
| `ConferenceFilter.IndexPage.ToggleRating` | src/pages/Index.tsx:355-363 | The rating selection becomes its toggle and is written to the query. |
| `ConferenceFilter.IndexPage.RemoveCountry` | src/pages/Index.tsx:384-388 | The chip's country leaves the selection and the query. |
| `ConferenceFilter.IndexPage.RemoveYear` | src/pages/Index.tsx:400-404 | The chip's year leaves the selection and the query. |
| `ConferenceFilter.IndexPage.RemoveRating` | src/pages/Index.tsx:416-420 | The chip's rating leaves the selection and the query. |
| `ConferenceFilter.IndexPage.ClearAllFilters` | src/pages/Index.tsx:432-437 | All four selections become empty and their parameters are deleted. |
| `ConferenceFilter.IndexPage.LoadFiltersFromUrl` | src/pages/Index.tsx:140-166 | Each facet whose parameter is present and non-empty is replaced by its decoding. The other facets stay as they were. |
| `ConferenceFilter.IndexPage.HandleUrlChange` | src/pages/Index.tsx:169-188 | Tags and countries are set from the query, and cleared when their parameter is absent or empty. Years and ratings are untouched. |
| `ConferenceFilter.TagsSurviveReload` | src/pages/Index.tsx:84-150 | After a tag change, loading the filters from the resulting URL restores the same tags. |
| `ConferenceDialog.TimeLeft` | src/components/ConferenceDialog.tsx:51-68 | No valid deadline gives "TBD", and a difference of at most 0 gives "Deadline passed". Otherwise the result is days, hours below 24, minutes below 60 and seconds below 60. Together they account for the difference to within one second. |
| `ConferenceDialog.DecompositionBounds` | src/components/ConferenceDialog.tsx:65-68 | The four floor divisions stay within their radices and sum to the difference less its sub-second part. |
| `ConferenceDialog.TimeLeftIsUnique` | src/components/ConferenceDialog.tsx:65-68 | Any decomposition within those bounds is the one computed. |
| `ConferenceDialog.DialogDeadline` | src/components/ConferenceDialog.tsx:32 | No next deadline gives none. Otherwise the next deadline is read in its own time zone when it names one, else in the conference's. |
| `ConferenceDialog.DialogDeadlineIsSortInstant` | src/components/ConferenceDialog.tsx:32 | When the next deadline is the primary one, the dialog counts down to the instant the listing sorts by, and has none exactly when the listing ranks the conference after all instants. |
| `ConferenceDialog.CountdownText` | src/components/ConferenceDialog.tsx:53-70 | No valid deadline gives exactly "TBD", and a passed one exactly "Deadline passed". A running countdown gives the template `${days}d ${hours}h ${minutes}m ${seconds}s`, whose text splits at spaces into the four number-and-unit pieces. |
| `ConferenceDialog.CountdownTextIsInjective` | src/components/ConferenceDialog.tsx:51-71 | Different countdowns never show the same text. |
| `ConferenceDialog.Dialog.constructor` | src/components/ConferenceDialog.tsx:30-34 | The dialog's deadline is the next upcoming deadline, read in its own time zone or else the conference's. The countdown starts empty. |
| `ConferenceDialog.Dialog.CalculateTimeLeft` | src/components/ConferenceDialog.tsx:51-71 | One tick sets the countdown to the text of the time left. |
| `ConferenceDialog.DaysRemaining` | src/components/ConferenceDialog.tsx:80 | The result is the ceiling of the difference in days. |
| `ConferenceDialog.GetCountdownColor` | src/components/ConferenceDialog.tsx:78-84 | Muted exactly without a valid deadline. Red up to 7 days left, orange above 7 and up to 30, green beyond. A passed deadline is red. |
| `ConferenceDialog.Truthy` | src/components/ConferenceDialog.tsx:42 | `filter(Boolean)` keeps every non-empty text as often as it occurs and drops every empty one. A one-element list keeps its element exactly when it is non-empty. |
| `ConferenceDialog.TruthyAppend` | src/components/ConferenceDialog.tsx:42 | Filtering a concatenation filters each part, so the kept texts stay in order. |
| `ConferenceDialog.LocationString` | src/components/ConferenceDialog.tsx:37-45 | A given venue is returned as-is. Otherwise the given city and country are joined by ", ", else "Location TBD". The result is never blank. |
| `ConferenceDialog.LocalDeadline` | src/components/ConferenceDialog.tsx:192-195 | There is no deadline for a missing or "TBD" date. Otherwise the date is read in the conference's own time zone. |
| `ConferenceDialog.FormatDeadlineDate` | src/components/ConferenceDialog.tsx:198-206 | A missing or "TBD" date gives "TBD", and a date that does not convert is shown raw. Otherwise the text is the formatted date with the browser's zone in parentheses. |
| `ConferenceDialog.ParseDateFromString` | src/components/ConferenceDialog.tsx:86-107 | Without a day range the result is the current time. Otherwise "month startDay year" is read with the full month pattern, and with the abbreviated pattern only when that fails. |
| `ConferenceDialog.ParseDateOfRange` | src/components/ConferenceDialog.tsx:86-102 | "Month D-E, YYYY" is read as "Month D YYYY", trying the full and then the abbreviated month pattern. |
| `ConferenceDialog.ParseDateWithoutRange` | src/components/ConferenceDialog.tsx:86-107 | Text without a day range makes the source throw, and the reader falls back to the current time. |
| `ConferenceDialog.IcsFileName` | src/components/ConferenceDialog.tsx:160 | The download name has no whitespace and no capital letter, and ends in "-deadline.ics". |
| `ConferenceDialog.CreateCalendarEvent` | src/components/ConferenceDialog.tsx:109-169 | Export fails for a missing or "TBD" deadline and for one `parseISO` rejects. Otherwise the event starts at the parsed deadline and ends exactly one hour later. Only the Apple export names a file. |
| `SplitBill.Increased` | src/app/splitbill/BillSplittingInterface.tsx:19-26 | The position's count goes from its old value (absent is 0) up by one, and every other count stays. Non-negative counts stay non-negative. |
| `SplitBill.Decreased` | src/app/splitbill/BillSplittingInterface.tsx:27-40 | A positive count goes down by one. Otherwise the state is unchanged. Every other count stays, and non-negativity is kept. |
| `SplitBill.IncreaseThenDecrease` | src/app/splitbill/BillSplittingInterface.tsx:19-40 | An increase followed by a decrease of the same position leaves every count as it was. |
| `SplitBill.RunKeepsNonNegative` | src/app/splitbill/BillSplittingInterface.tsx:18-40 | No sequence of store operations makes a count negative. |
| `SplitBill.PlusEnabled` | src/app/splitbill/BillSplittingInterface.tsx:104 | An absent or zero count enables "+". A positive count enables it exactly while it is below the stock. |
| `SplitBill.MinusEnabled` | src/app/splitbill/BillSplittingInterface.tsx:118 | On counts that are never negative, "-" is enabled exactly when `decreaseCount` would change the state. |
| `SplitBill.PressedKeepsWithinStock` | src/app/splitbill/BillSplittingInterface.tsx:101-121 | An enabled button press keeps every count within its position's stock, when each stock is at least 1 and ids are distinct. |
| `SplitBill.PressAllKeepsWithinStock` | src/app/splitbill/BillSplittingInterface.tsx:101-121 | Any sequence of enabled presses keeps every count within stock under the same conditions. |
| `SplitBill.TestPositionsStayWithinStock` | src/app/splitbill/BillSplittingInterface.tsx:43-62 | On the page's own positions, no sequence of presses takes a count above its stock. |
| `SplitBill.ZeroStockIsExceeded` | src/app/splitbill/BillSplittingInterface.tsx:104 | With a stock of 0 the "+" guard lets the count exceed the stock. |
| `SplitBill.TotalAfterIncrease` | src/app/splitbill/BillSplittingInterface.tsx:73-80 | One more unit of a position raises the total by its price. |
| `SplitBill.TotalAfterDecrease` | src/app/splitbill/BillSplittingInterface.tsx:73-80 | One unit fewer of a held position lowers the total by its price. |
| `SplitBill.UserStore.constructor` | src/app/splitbill/BillSplittingInterface.tsx:18 | The store starts with no counts. |
| `SplitBill.UserStore.IncreaseCount` | src/app/splitbill/BillSplittingInterface.tsx:19-26 | The new counts are the old ones with the increase applied. |
| `SplitBill.UserStore.DecreaseCount` | src/app/splitbill/BillSplittingInterface.tsx:27-40 | The new counts are the old ones with the guarded decrease applied. |
| `SplitBill.UserStore.ClickPlus` | src/app/splitbill/BillSplittingInterface.tsx:101-107 | The "+" button increases only while it is enabled. |
| `SplitBill.UserStore.ClickMinus` | src/app/splitbill/BillSplittingInterface.tsx:115-121 | The "-" button decreases only while it is enabled. |
| `SplitBill.UserStore.GetTotalPrice` | src/app/splitbill/BillSplittingInterface.tsx:73-80 | Returns the sum over positions of price times the user's count. |
| `SplitBillTest.Find` | src/app/splitbill_test/BillSplittingInterface.tsx:24 | Returns the first position with the id, or none exactly when no position has it. |
| `SplitBillTest.Increased` | src/app/splitbill_test/BillSplittingInterface.tsx:22-37 | An unknown id changes nothing. A known one adds the position's full price to the user's amount (absent counts as 0) and appends the id. Other amounts stay. |
| `SplitBillTest.Decreased` | src/app/splitbill_test/BillSplittingInterface.tsx:38-55 | An unknown id, or an amount that would go negative, changes nothing. Otherwise the full price is taken off and every copy of the id leaves the selection. Non-negativity is kept. |
| `SplitBillTest.SharePrice` | src/app/splitbill_test/BillSplittingInterface.tsx:60-61 | The price of a percentage of the units is that proportion of the full price. It is non-negative for a non-negative percentage. |
| `SplitBillTest.RangeCounted` | src/app/splitbill_test/BillSplittingInterface.tsx:56-71 | An unknown id changes nothing. A known one overwrites the user's amount with the share price. The selection is never touched. |
| `SplitBillTest.Clicked` | src/app/splitbill_test/BillSplittingInterface.tsx:106-112 | An unknown id changes nothing. An unselected known position becomes selected. A selected one whose amount covers its full price is released. No other position's amount moves. |
| `SplitBillTest.ClickTwiceRestores` | src/app/splitbill_test/BillSplittingInterface.tsx:106-112 | Two clicks on an unselected position restore the selection exactly and every amount as read with `\|\| 0`. |
| `SplitBillTest.SelectedAmountIgnoresUnselected` | src/app/splitbill_test/BillSplittingInterface.tsx:126-134 | The remaining price depends only on the amounts of selected ids. |
| `SplitBillTest.SelectedAmountIsNonNegative` | src/app/splitbill_test/BillSplittingInterface.tsx:126-134 | With non-negative amounts the remaining price is non-negative. |
| `SplitBillTest.ShareStore.constructor` | src/app/splitbill_test/BillSplittingInterface.tsx:20-21 | The store starts with no selection and no amounts. |
| `SplitBillTest.ShareStore.IncreaseCount` | src/app/splitbill_test/BillSplittingInterface.tsx:22-37 | The new state is the old one with the increase applied. |
| `SplitBillTest.ShareStore.DecreaseCount` | src/app/splitbill_test/BillSplittingInterface.tsx:38-55 | The new state is the old one with the guarded decrease applied. |
| `SplitBillTest.ShareStore.RangeCount` | src/app/splitbill_test/BillSplittingInterface.tsx:56-71 | The new state is the old one with the share overwrite applied. |
| `SplitBillTest.ShareStore.HandlePositionClick` | src/app/splitbill_test/BillSplittingInterface.tsx:106-112 | A selected position is released and any other is taken. |
| `SplitBillTest.ShareStore.GetRemainingPrice` | src/app/splitbill_test/BillSplittingInterface.tsx:126-134 | Returns the amounts of the selected positions, each position counted once. |
| `SplitBillTest.GetTotalPrice` | src/app/splitbill_test/BillSplittingInterface.tsx:118-124 | Returns the full price of the positions, whatever the store holds. |
| `SplitBillTest.TestPositionsFullPrice` | src/app/splitbill_test/BillSplittingInterface.tsx:74-93 | The page's total is 170. |
| `OrderStore.Position.constructor` | src/app/splitbill/store.ts:3-8 | A position holds its name, price, count and limit. |
| `OrderStore.SumOfBumped` | src/app/splitbill/store.ts:27-55 | Replacing each entry identical to a position by a copy with `delta` more units changes the sum by occurrences times price times `delta`. |
| `OrderStore.OccursOnce` | src/app/splitbill/store.ts:30 | In a list of distinct objects, a position occurs once or not at all. |
| `OrderStore.IncreaseKeepsTotal` | src/app/splitbill/store.ts:29-36 | When the given position is in the list, `old total + price` is again the list's sum. |
| `OrderStore.IncreaseWithStalePosition` | src/app/splitbill/store.ts:29-36 | A position not in the list changes no entry, yet its price is still added to the total. |
| `OrderStore.OrderStore.constructor` | src/app/splitbill/store.ts:20-26 | Three distinct positions with the source's names, prices and limits, all counts 0, and total 0. |
| `OrderStore.OrderStore.MapBumped` | src/app/splitbill/store.ts:27-55 | The `map` replaces each identical entry by a fresh copy with the count changed and keeps the other entries. Distinct objects stay distinct. |
| `OrderStore.OrderStore.IncreaseCount` | src/app/splitbill/store.ts:27-40 | Only entries identical to the position are bumped and the length is unchanged. The total becomes old total + price. The store invariant is kept when the position is in the list. |
| `OrderStore.OrderStore.DecreaseCount` | src/app/splitbill/store.ts:41-55 | Nothing happens when the given position has count 0. Otherwise identical entries lose a unit and the total is recomputed as the sum. The store invariant is kept. |
| `OrderStore.LimitIsNotEnforced` | src/app/splitbill/store.ts:3-40 | Three increases take a position with limit 2 to three units. |

## Left out

- The deadline helpers `getPrimaryDeadline`, `getNextUpcomingDeadline`, `getDeadlineInLocalTime` and `hasUpcomingDeadlines` are not part of this model. They are given functions. `getDeadlineInLocalTime` is taken to return either `null` or a valid instant. An invalid `Date` object, which is truthy and makes the comparator return `NaN`, is not modelled.
- Time zones and `Intl`: the browser's time zone is a parameter.
- The date-fns functions `parse`, `parseISO`, `format` and `isValid` are parameters. Only the string splitting of `parseDateFromString` is modelled.
- Timers (`setInterval`, `useEffect`): "now" is an input, and `Dialog.CalculateTimeLeft` models one tick.
- Floating point is left out: `progress` in `store.ts`, `getRemainingPercentage`, `toFixed` display, and the millisecond division inside `Math.ceil`, which is exact on whole milliseconds. Amounts in the share store are exact reals.
- `SplitBillTest.SharePrice`: does not model floating-point rounding of `count * percentage / 100`, because amounts are exact reals.
- Case mapping is ASCII only. `toUpperCase` and `toLowerCase` on other letters are not modelled.
- `Number(text)` is modelled for the empty text, optionally signed runs of decimal digits, and everything else as `NaN`. Decimal fractions, exponents, hexadecimal, `Infinity` and surrounding whitespace are not modelled.
- `Strings.CompareStrings`: strings are sequences of Unicode code points, while JavaScript compares UTF-16 code units. Two texts differing at a character above U+FFFF and one in U+E000 to U+FFFF are ordered the other way round.
- Browser I/O is left out: `window.history.replaceState`, `URLSearchParams` percent-encoding, the `urlchange` event wiring, `window.open`, the download anchor and `alert`. The page's query is a map from names to decoded texts.
- The Google Calendar URL and the iCalendar text are foreign encoders and are left out. Only the event window and the file name are modelled.
- The sort algorithm of the JavaScript engine is replaced by a stable insertion sort. Any stable sort gives the same result for a consistent comparator.
- `ConferenceFilter.TextSelectionRoundTrip`: excludes a selection holding only the empty text. Its join is the falsy empty text, so it does not survive the URL. The user interface never builds such a selection.
- `getAllCountries` (country extraction), the conference loader, the header search box, the rendering and the styling are not part of this model.
- `billPositionStore.ts` and the purely presentational bill components are not part of this model.
