# Saily end-to-end suite: the decision logic of its page objects

The suite drives the Saily eSIM shop in a browser through Playwright page objects. Most of that
code clicks, waits and reads the page. Between those reads sits a small amount of ordinary logic:

- It decides whether a page is an anti-bot block page and whether a navigation succeeded.
- It parses search results and popular-destination links into destination records.
- It filters destination codes and console errors.
- It derives a country page's name, country code, feature lists, package flags and
  comparison-table records.

This project models that logic in Dafny and proves what it promises. Every browser read
(`textContent`, `getAttribute`, `title`, `goto`, `count`, `isVisible`, the page URL) is an input:

- an `Option<string>` for a read that may give null;
- a `seq` for a list of elements, in page order;
- `PageView` for what block detection reads (body and title);
- `GotoOutcome` for what navigation produced (a status, no response, or an exception).

A read that throws is an explicit case, because the source catches exceptions and turns them
into values.

Modules follow the source files:

- `TestHelpers` (utils/testHelpers.ts): block detection, guarded navigation, the
  swallow-or-rethrow rule of `waitForPageLoad`, and price normalisation.
- `SearchNavigator` (logic/SearchNavigator.ts): the `success` / `blocked` / `failed`
  classification.
- `SearchModal` (pages/SearchModal.ts): result parsing, visible codes, navigation to a
  result, and the navigation check's verdict.
- `HomePage` (pages/HomePage.ts): destination filtering and extraction, the bounded loop,
  `safeCheck` and the checks built on it.
- `CountryPage` (pages/CountryPage.ts): packages, title stripping, tab lines, country-code
  extraction and the comparison table.
- `SailyTypes` (types/saily.types.ts): the record shapes.

Four supporting modules:

- `Wrappers`: the `Option` type.
- `Seqs`: order-preserving filter and map, defined on the last element so that they match
  loops that push.
- `Text`: the JavaScript string operations the code uses. `replace` with a string or a
  non-global regex rewrites only the first occurrence. `split` keeps pieces `[0]` and `[1]`.
  `trim` uses the ECMAScript whitespace set. `toLowerCase` folds ASCII letters only, and
  characters are Unicode scalar values rather than UTF-16 code units (see "## Left out").
- `Numerals`: `String(n)` and `parseInt`.

Loops in the source are methods proved equal to a specification function. The properties are
proved about those functions:

- `getSearchResults` and `getVisibleDestinationCodes`;
- `getPopularDestinations`;
- `getAllPackages`;
- `getComparisonData` with its inner loop.

## Model

| member | source | states |
|---|---|---|
| TestHelpers.AnyIndicatorFrom | utils/testHelpers.ts:138-142 | the `.some` over an indicator list holds iff some indicator from position k on is mentioned, ignoring case, in the body or the title |
| TestHelpers.IsPageBlocked | utils/testHelpers.ts:121-146 | blocked iff one of the seven fixed indicators occurs, ignoring case, in the body or the title; a body or title that is null or whose own read fails counts as empty (each read is caught on its own, so a blocked title still blocks when the body read fails); only an exception outside those reads gives false |
| TestHelpers.IndicatorInBodyBlocks | utils/testHelpers.ts:124-141 | a body that contains any indicator anywhere is a block page, whatever the title |
| TestHelpers.BlockingIgnoresCase | utils/testHelpers.ts:138-141 | lower-casing the body first never changes the verdict |
| TestHelpers.UnreadPageIsNotBlocked | utils/testHelpers.ts:134-145 | a page whose body and title reads both give nothing, and a check that throws outside those reads, never judge the page blocked |
| TestHelpers.DdosIndicatorIsSubsumed | utils/testHelpers.ts:124-132 | any text that mentions "DDoS protection by Cloudflare" also mentions "Cloudflare", so the fifth indicator never decides anything alone |
| TestHelpers.HandleBlockedNavigation | utils/testHelpers.ts:159-190 | no response or an exception gives false; a status below 400 gives true; a status of 400 or more gives false exactly when the page is blocked |
| TestHelpers.WaitForPageLoad | utils/testHelpers.ts:4-29 | it raises exactly when the `try` block threw (an error status with a block page after the first response, or a load timeout) and the page read in the catch block is blocked; the error is the blocked-status error, carrying the first response's status, whenever the response check threw, and the load timeout otherwise; a completed load with no error status proceeds |
| TestHelpers.NormalizePrice | utils/testHelpers.ts:216-218 | the normalised price holds only digits, '.' and ',', and is exactly as long as the price with every other character dropped |
| TestHelpers.NormalizeRewritesFirstComma | utils/testHelpers.ts:217 | after the other characters are dropped, only the leftmost ',' becomes '.', and every other character stays in place; without a ',' the kept characters are the result |
| TestHelpers.FirstCommaOnly | utils/testHelpers.ts:217 | a label, an integer part, a ',' and any rest normalise to the integer part, '.', and the rest's price characters with their own ',' and '.' unchanged |
| TestHelpers.NormalizeKeepsDigits | utils/testHelpers.ts:217 | normalisation keeps every digit of the price, in order |
| TestHelpers.LeadingDecimalDigits | utils/testHelpers.ts:217 | the numeral parseFloat reads at the start of the normalised price is a non-empty run of digits, or none (NaN) |
| TestHelpers.NoDigitIsNotAPrice | utils/testHelpers.ts:220-223 | a price without any digit parses as NaN and is not valid |
| TestHelpers.CommaDecimalPrice | utils/testHelpers.ts:216-223 | a label without price characters, digits, a decimal comma and digits normalise to `whole.fraction`, and the price is valid iff some digit is not zero |
| TestHelpers.IsValidPrice | utils/testHelpers.ts:220-223 | a valid price has a non-zero digit somewhere in it |
| TestHelpers.LeadingDigitsComeFromPrice | utils/testHelpers.ts:216-223 | a non-zero digit in the numeral parseFloat reads is a digit of the price itself |
| SearchNavigator.Navigator.TargetUrl | logic/SearchNavigator.ts:22-28 | an index inside the list whose link has a non-empty `href` gives exactly that `href` resolved, and no other index or link gives an address |
| SearchNavigator.Navigator.GoToResult | logic/SearchNavigator.ts:18-39 | success iff the link resolves and guarded navigation allows it; blocked only on a block page; a success or blocked result carries exactly the resolved address; failed iff there is no address, or navigation was refused on a page that is not blocked |
| SearchNavigator.FromSearchModal | logic/SearchNavigator.ts:13-16 | the navigator built from a search modal has no link list, because the field it reads is never declared |
| SearchNavigator.WithLinks | logic/SearchNavigator.ts:13-16 | a navigator over a given link list |
| SearchNavigator.FromSearchModalAlwaysFails | logic/SearchNavigator.ts:13-38 | as written, `goToResult` on a navigator built from a search modal is `failed` for every index and every visit |
| SearchNavigator.ResponseNeverFails | logic/SearchNavigator.ts:22-34 | over a real link list, an in-range link with a non-empty `href` that resolves, and any response, give `blocked` (status of 400 or more on a block page) or else `success`, never `failed` |
| SearchNavigator.FirstResultCounterexample | logic/SearchNavigator.ts:15-31 | one concrete search where the intended navigator reports success and the navigator built from a search modal reports failure |
| SearchModal.ResultName | pages/SearchModal.ts:70 | the name is trimmed; it is the trimmed text before the first price marker when that is not blank, and otherwise the trimmed text before the first '•' |
| SearchModal.NameWithoutMarker | pages/SearchModal.ts:70 | a text without the price marker is named by the whole text, trimmed: the '•' fallback never shortens it, so `Europa • 35 krajów` keeps its bullet |
| SearchModal.ResultPrice | pages/SearchModal.ts:72 | the price is empty iff the text lacks "Od US$", and otherwise starts with "Od US$" |
| SearchModal.ListedRecord | pages/SearchModal.ts:68-75 | for a listed link the record's code is its test id and its URL its `href`, both non-empty |
| SearchModal.GetSearchResults | pages/SearchModal.ts:53-78 | the loop returns one record per link with non-empty test id and `href`, in link order |
| SearchModal.SearchResultRecords | pages/SearchModal.ts:62-75 | never more records than links; every record comes from some link's test id and `href`, has a trimmed name, and a price that is empty or marked |
| SearchModal.ResultTextRoundTrip | pages/SearchModal.ts:70-72 | the text `<name> Od US$<price>` parses back to that name and "Od US$" followed by that price |
| SearchModal.NameOfResultText | pages/SearchModal.ts:70 | the name of `<name> Od US$<price>` is `<name>` |
| SearchModal.PriceOfResultText | pages/SearchModal.ts:72 | the price of `<name> Od US$<price>` is "Od US$" followed by `<price>` |
| SearchModal.PriceUpToSecondMarker | pages/SearchModal.ts:72 | the price of `<name> Od US$<price>Od US$<more>` is "Od US$" followed by `<price>` trimmed: a second marker ends the price and what follows it is dropped |
| SearchModal.GetVisibleDestinationCodes | pages/SearchModal.ts:101-114 | the loop returns exactly the non-empty test ids, in order, so no more codes than links |
| SearchModal.ResultsFollowCodes | pages/SearchModal.ts:62-113 | there are never more search results than visible codes; when every link has an `href`, the results' codes are the visible codes, in order |
| SearchModal.NavigateToSearchResult | pages/SearchModal.ts:180-215 | no links, an index at or past the end, or a missing or empty `href` give `{success: false}` without a URL; success always carries the URL; a refused navigation carries the URL and `blocked` equal to the block check; without a URL the result is `{success: false}`; the URL is the chosen `href` resolved |
| SearchModal.NavigationAgreesWithNavigator | pages/SearchModal.ts:180-215 | over the same links the modal's navigation and `goToResult` agree: success with success, `blocked: true` with blocked, the same URL, and `blocked: false` with a URL exactly where the navigator fails after resolving |
| SearchModal.ExpectNavigationToWorkCorrectly | pages/SearchModal.ts:217-242 | when blocked it passes iff the URL is present and valid, and a missing URL fails the first assertion; an unblocked failure fails "Navigation should succeed when not blocked"; the browser checks run iff the result is an unblocked success |
| SearchModal.NavigationVerdict | pages/SearchModal.ts:223-236 | on a real navigation the missing-URL assertion never fails; the unblocked-failure assertion fails iff the navigator classifies the visit as failed; the browser checks run iff it is a success, on the same URL |
| HomePage.PriceMatch | pages/HomePage.ts:509 | the leftmost match of `Od US\$[\d,]+`: no earlier start matches, the matched text is a price text, and the run of digits and commas is maximal |
| HomePage.PriceFrom | pages/HomePage.ts:509-510 | `priceFrom` is empty or the marker followed by one or more digits or commas |
| HomePage.WithoutPrice | pages/HomePage.ts:512 | with no price match the text is unchanged; otherwise exactly the matched span is cut out, and everything before and after it is kept in order |
| HomePage.DestinationName | pages/HomePage.ts:511-514 | the name is trimmed; when the text left after cutting the price has no "Chevron right", the name is that text trimmed |
| HomePage.DestinationCode | pages/HomePage.ts:515 | the code is empty when "/pl/esim-" is absent from the address |
| HomePage.ExtractDestinationData | pages/HomePage.ts:505-517 | a record iff name and code are both non-empty; then its URL is the address (which contains "/pl/esim-"), its name is trimmed, and its price is empty or a price text |
| HomePage.LinkDestination | pages/HomePage.ts:99-105 | one link yields at most one destination, and only a complete one with a valid address |
| HomePage.IsValidDestination | pages/HomePage.ts:501-503 | valid iff "/pl/esim-" occurs somewhere in the address and "ultra-plan" occurs nowhere |
| HomePage.UltraPlanLinkSkipped | pages/HomePage.ts:99-105 | a link whose address contains "ultra-plan" yields no destination, whatever else it holds |
| HomePage.DestinationsOf | pages/HomePage.ts:98-107 | never more destinations than links, each with a valid address, a non-empty trimmed name, a non-empty code and a well-formed price |
| HomePage.GetPopularDestinations | pages/HomePage.ts:86-108 | the loop over the first min(count, 10) links returns their destinations, at most 10, each complete and with a valid address |
| HomePage.DestinationsOfConcat | pages/HomePage.ts:98-107 | the destinations of consecutive runs of links concatenate, so link order is kept |
| HomePage.OnlyFirstTenInspected | pages/HomePage.ts:98 | links after the tenth never change the result |
| HomePage.PriceMatchAfterName | pages/HomePage.ts:509 | in `<name> Od US$<digits>` the price match runs from the marker to the end |
| HomePage.PriceMatchBeforeSuffix | pages/HomePage.ts:509 | in `<name> Od US$<digits><after>`, where `<after>` does not begin with a digit or ',', the match runs from the marker to the end of the digits |
| HomePage.WithoutPriceBeforeSuffix | pages/HomePage.ts:512 | cutting the price out of `<name> Od US$<digits><after>` leaves `<name> <after>` |
| HomePage.ChevronRemovedAfterName | pages/HomePage.ts:513 | in `<name> Chevron right`, with no "Chevron right" in the name, the removal takes exactly the appended label |
| HomePage.NameOfLinkTextWithChevron | pages/HomePage.ts:511-514 | the text `<name> Od US$<digits>Chevron right` gives `<name>`: the price and the label are both removed and the rest trimmed |
| HomePage.NoChevronWithSpace | pages/HomePage.ts:513 | a trailing space never creates a "Chevron right" |
| HomePage.CodeOfCountryAddress | pages/HomePage.ts:515 | the address `/pl/esim-<code>/` gives back `<code>` |
| HomePage.MarkerFirstAfterPrefix | pages/HomePage.ts:515 | after a prefix without "/pl/esim-", the first marker found is the appended one; no occurrence can straddle the join |
| HomePage.SegmentAfterMarker | pages/HomePage.ts:515 | `split('/pl/esim-')[1]` of `<prefix>/pl/esim-<rest>`, with the marker in neither part, is all of `<rest>` |
| HomePage.CodeOfAddress | pages/HomePage.ts:515 | `<prefix>/pl/esim-<code>/<tail>`, with the marker only once and no '/' in the code, gives `<code><tail>`: only the first '/' after the marker is removed and the rest is kept |
| HomePage.CodeBeforeSecondMarker | pages/HomePage.ts:515 | `<prefix>/pl/esim-<code>/<tail>/pl/esim-<more>`, with no marker in the prefix or in `<code>/<tail>` and no '/' in the code, gives `<code><tail>`: a second marker ends the code and whatever follows it is dropped |
| HomePage.NameAndPriceOfLinkText | pages/HomePage.ts:509-514 | the text `<name> Od US$<digits>` gives back that name and that price |
| HomePage.ExtractRoundTrip | pages/HomePage.ts:505-517 | such a text on such an address yields exactly that name, code, price and address |
| HomePage.SafeCheck | pages/HomePage.ts:493-499 | true iff the check returns true without throwing |
| HomePage.ReadPopularDestinations | pages/HomePage.ts:86-108 | the destinations are read iff the page reads succeed and at least one link appears, and they are then exactly the destinations of the first min(count, 10) links |
| HomePage.HasPopularDestinations | pages/HomePage.ts:183-188 | true iff destinations were read, there is one, and the first one's price contains "US$" |
| HomePage.PriceShowsCurrency | pages/HomePage.ts:186 | a destination price contains "US$" iff it is not empty |
| HomePage.HasPopularMeansFirstIsPriced | pages/HomePage.ts:183-188 | the check holds iff the first destination shows a price |
| HomePage.CanNavigateToCountryPage | pages/HomePage.ts:190-201 | always equal to `hasPopularDestinations`, because the name and address tests hold for every destination |
| HomePage.LoadsWithoutCriticalErrors | pages/HomePage.ts:321-338 | true iff the page loaded and every console error matches "Failed to load resource", "consent" or "network" |
| HomePage.NoCriticalErrorsIffAllBenign | pages/HomePage.ts:333-336 | the filter leaves nothing iff every error matches one of the three patterns, and what it keeps is exactly the errors matching none |
| CountryPage.TrimmedOr | pages/CountryPage.ts:88-89 | the read text trimmed, or "" when missing |
| CountryPage.CashbackPercentage | pages/CountryPage.ts:100-114 | 0 when the text is missing or does not parse; a text that parses gives exactly `parseInt` of the text with its first '%' removed, and any non-zero value comes from such a parse |
| CountryPage.CashbackOfRenderedPercent | pages/CountryPage.ts:100-103 | a text `<n>%` gives n |
| Numerals.ParseIntDecimalString | pages/CountryPage.ts:100-103 | `parseInt` reads a printed natural number back |
| CountryPage.ReadPackage | pages/CountryPage.ts:86-117 | a package is unlimited iff its data amount contains "Nielimitowane"; it has a discount iff it has an original price, and the discount is 5; the original price is present iff its trimmed text is non-empty and is then that text; the data amount, duration and price are the element's texts, trimmed, with "" for a missing text; the cashback, badge and id are read as stated |
| CountryPage.GetAllPackages | pages/CountryPage.ts:81-120 | the loop returns one record per package element, in order |
| CountryPage.FirstTitlePrefixFrom | pages/CountryPage.ts:124 | the leftmost position of "eSIM do " or "eSIM na " |
| CountryPage.CountryName | pages/CountryPage.ts:123-124 | a title without either prefix is kept; otherwise the name is 8 characters shorter |
| CountryPage.CountryNameOfInnerPrefix | pages/CountryPage.ts:124 | a prefix after text that holds neither prefix is removed where it stands: `<before>eSIM do <after>` gives `<before><after>` (`Kup eSIM do Hiszpanii` gives `Kup Hiszpanii`) |
| CountryPage.NoTitlePrefixAcrossJoin | pages/CountryPage.ts:124 | in `<before><prefix><after>`, with neither prefix in `<before>`, no prefix starts before the appended one, not even one straddling the join |
| CountryPage.CountryNameOfTitle | pages/CountryPage.ts:124 | `eSIM do <name>` and `eSIM na <name>` both give `<name>` |
| CountryPage.CountryNameOfPrefixedTitle | pages/CountryPage.ts:124 | a title that begins with either prefix loses exactly its first 8 characters, whatever follows |
| CountryPage.CountryNameWithoutPrefix | pages/CountryPage.ts:124 | a title without "eSIM " is kept unchanged |
| CountryPage.TabLines | pages/CountryPage.ts:127-131 | the lines are the text's newline-separated pieces, each trimmed, with the blank ones dropped, in order; so every line is non-empty and trimmed; no text gives no lines |
| CountryPage.TabLinesOfPaddedLines | pages/CountryPage.ts:127-131 | lines with surrounding whitespace joined by newlines come back trimmed, in order, and only the blank ones are dropped; with no blank line every line comes back, trimmed |
| CountryPage.TabLinesOfJoinedLines | pages/CountryPage.ts:137-141 | non-empty trimmed lines joined with newlines are split back into the same lines, in order |
| CountryPage.FirstCodeMatchFrom | pages/CountryPage.ts:194 | the leftmost start of a match of `\/esim-([^\/]+)\/` |
| CountryPage.ExtractCountryCodeFromUrl | pages/CountryPage.ts:193-195 | the code is empty iff the address has no match, and it never contains '/' |
| CountryPage.CountryCodeOfAddress | pages/CountryPage.ts:193-195 | an address with `/esim-<code>/` and no earlier `/esim-` gives `<code>` |
| CountryPage.GetCountryPageData | pages/CountryPage.ts:122-152 | the name, code, packages, tab lines and description are derived as above; the notice is present iff its text is non-empty |
| CountryPage.CompetitorKeyPrefix | pages/CountryPage.ts:168 | every key is "competitor_" followed by at least one more character |
| CountryPage.CompetitorKeyInjective | pages/CountryPage.ts:168 | different columns get different keys |
| CountryPage.CompetitorKeys | pages/CountryPage.ts:167-171 | a row of j cells has exactly the keys `competitor_1` to `competitor_<j-2>`, that is max(0, j-2) keys |
| CountryPage.CompetitorValues | pages/CountryPage.ts:167-171 | `competitor_k` holds cell k+1, trimmed |
| CountryPage.CompetitorKeysStep | pages/CountryPage.ts:168 | each column adds one new key |
| CountryPage.RowRecord | pages/CountryPage.ts:164-171 | `feature` is the first cell trimmed; `saily` is the second cell trimmed, or "" for a one-cell row; the competitors have max(0, cells-2) keys `competitor_1`… with cell k+1 under `competitor_k` |
| CountryPage.ReadCompetitors | pages/CountryPage.ts:167-171 | the inner loop builds the competitor map of the whole row |
| CountryPage.GetComparisonData | pages/CountryPage.ts:154-175 | the loop returns one record per row with cells, in row order |
| CountryPage.ComparisonDataRows | pages/CountryPage.ts:158-173 | never more records than rows; rows with no cells add nothing; when every row has cells the records are the rows' records, one for one |

## Left out

- Playwright interaction is not modelled: navigation, clicks, waits, visibility and element
  counts. Its results are inputs.
- Two block checks made after one visit (in `goToResult` and `navigateToSearchResult`) read
  the same page state. The page cannot change between them.
- `new URL(href, 'https://saily.com')` is an opaque parameter `resolve`. `None` means it throws.
- `isValidURL` is a parameter of `ExpectNavigationToWorkCorrectly`. WHATWG URL parsing is not
  part of this model.
- TestHelpers.IsValidPrice: the `parseFloat` value is not computed. "Value > 0" is modelled as
  "some digit of the leading numeral is not zero". Float underflow of very long fractions is
  not modelled, and neither are exponents (the normalisation removes 'e').
- TestHelpers.Mentions: `toLowerCase` folds ASCII letters only. Unicode case mapping is not
  modelled.
- Text: a string is a sequence of Unicode scalar values, not of UTF-16 code units. Indices and
  lengths differ from JavaScript's for characters outside the Basic Multilingual Plane, and lone
  surrogates cannot be represented.
- CountryPage.CashbackPercentage: `parseInt` is exact on unbounded integers. Loss of precision
  above 2^53 is not modelled.
- Timeouts are booleans or missing reads: `waitForPageLoad`'s load wait, and the wait for the
  first popular-destination link. No time passes in the model.
- The console listener of `loadsWithoutCriticalErrors` is not modelled. The errors it collects
  are an input list.
- `humanLikeDelay`, `loadsWithinAcceptableTime`, `getPagePerformanceMetrics` and
  `simulateSlowNetwork` are not modelled: they use randomness and wall-clock time.
- `Promise.all` / `Promise.any` checks are not modelled.
- `checkConsoleErrors`, screenshots and utils/snapshotHelpers.ts are not modelled.
- The test files and selectors/homePageSelectors.ts are not part of this model. The one
  selector used becomes the inputs `DestinationLink` and `ResultLink`.
- `expectNavigationToWorkCorrectly`'s checks after a successful navigation stay in the browser:
  the page load and `validateURL`. The verdict `ValidateInBrowser` names the URL they receive.

## Findings

| source | as written | input that shows it | evidently intended | confidence | as-written member | corrected member |
|---|---|---|---|---|---|---|
| logic/SearchNavigator.ts:15 | the constructor reads `modal['destinationLinks']`, a field `SearchModal` never declares (pages/SearchModal.ts:5-10); `.all()` on undefined throws and is caught as `failed` | one result linking to `/pl/esim-spain/`, index 0, a 200 response: the result is `failed` | the navigator lists the modal's result links, so the same search gives `success` with the resolved address | not executed | SearchNavigator.FromSearchModalAlwaysFails | SearchNavigator.ResponseNeverFails |
