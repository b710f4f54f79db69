/** pages/SearchModal.ts: the search modal's result list (records parsed from each result
    link's text), the list of visible destination codes, navigation to a result and the
    verdict that navigation check reaches. */
module SearchModal {
  import opened Wrappers
  import opened Text
  import Seqs
  import opened SailyTypes
  import opened TestHelpers
  import opened SearchNavigator

  /** The marker in front of a result's starting price. */
  const PricePrefix: string := "Od US$"

  /** One element matched by the result locator: its `data-testid`, its text content and its
      `href` (each `None` when the read gives null). */
  datatype ResultLink = ResultLink(testId: Option<string>, text: Option<string>, href: Option<string>)

  /** The name: the trimmed text before the price marker, or, when that is empty, the trimmed
      text before the first bullet. */
  function ResultName(text: string): (name: string)
    ensures IsTrimmed(name)
    ensures Trim(SplitHead(text, PricePrefix)) != "" ==> name == Trim(SplitHead(text, PricePrefix))
    ensures Trim(SplitHead(text, PricePrefix)) == "" ==> name == Trim(SplitHead(text, "•"))
  {
    var beforePrice := Trim(SplitHead(text, PricePrefix));
    if beforePrice != "" then beforePrice else Trim(SplitHead(text, "•"))
  }

  /** Without the price marker the name is the whole text, trimmed: the text before the marker
      is then all of it, and the fallback to the text before '•' can only give "" when that is
      blank too. So `Europa • 35 krajów` is named `Europa • 35 krajów`. */
  lemma NameWithoutMarker(text: string)
    requires !Contains(text, PricePrefix)
    ensures ResultName(text) == Trim(text)
  {
    assert SplitHead(text, PricePrefix) == text;
    if Trim(text) == "" {
      BlankTrim(text);
      var head := SplitHead(text, "•");
      SplitHeadIsPrefix(text, "•");
      forall i | 0 <= i < |head| ensures IsJsWhitespace(head[i]) {
        assert head[i] == text[i];
      }
      BlankTrim(head);
    }
  }

  /** Empty, or starting with the price marker. */
  predicate IsMarkedPrice(price: string) {
    price == "" || (|PricePrefix| <= |price| && price[..|PricePrefix|] == PricePrefix)
  }

  /** The price: the marker followed by the trimmed text after its first occurrence (up to a
      second one), or "" when the text has no marker. */
  function ResultPrice(text: string): (price: string)
    ensures price == "" <==> !Contains(text, PricePrefix)
    ensures IsMarkedPrice(price)
  {
    if Contains(text, PricePrefix) then PricePrefix + Trim(SplitSecond(text, PricePrefix).value) else ""
  }

  /** A link yields a record when both its test id and its `href` are non-empty. */
  predicate IsListed(link: ResultLink) {
    link.testId.GetOr("") != "" && link.href.GetOr("") != ""
  }

  /** The record pushed for a listed link. */
  function ResultRecord(link: ResultLink): CountryDestination {
    var text := link.text.GetOr("");
    CountryDestination(ResultName(text), link.testId.GetOr(""), ResultPrice(text), link.href.GetOr(""))
  }

  /** A listed link's record carries its test id as the code and its `href` as the URL. */
  lemma ListedRecord(link: ResultLink)
    requires IsListed(link)
    ensures var d := ResultRecord(link);
      link.testId == Some(d.code) && link.href == Some(d.url) && d.code != "" && d.url != ""
  {
  }

  /** The records `getSearchResults` returns: one per listed link, in link order. */
  function SearchResults(links: seq<ResultLink>): seq<CountryDestination> {
    Seqs.Map(ResultRecord, Seqs.Filter(IsListed, links))
  }

  /** `getSearchResults`: walks the links in order and pushes a record for each listed one. */
  method GetSearchResults(links: seq<ResultLink>) returns (results: seq<CountryDestination>)
    ensures results == SearchResults(links)
  {
    results := [];
    for i := 0 to |links|
      invariant results == SearchResults(links[..i])
    {
      var link := links[i];
      var testId := link.testId.GetOr("");
      var textContent := link.text.GetOr("");
      var url := link.href.GetOr("");
      assert links[..i + 1] == links[..i] + [link];
      Seqs.FilterAppend(IsListed, links[..i], link);
      if testId != "" && url != "" {
        results := results + [CountryDestination(ResultName(textContent), testId, ResultPrice(textContent), url)];
        Seqs.MapAppend(ResultRecord, Seqs.Filter(IsListed, links[..i]), link);
      }
    }
    assert links[..|links|] == links;
  }

  /** Every record has a non-empty code and URL taken from a listed link, a trimmed name, and a
      price that is empty or starts with the marker. */
  lemma SearchResultRecords(links: seq<ResultLink>)
    ensures |SearchResults(links)| <= |links|
    ensures forall d :: d in SearchResults(links) ==>
      && d.code != "" && d.url != "" && IsTrimmed(d.name)
      && (exists l :: l in links && l.testId == Some(d.code) && l.href == Some(d.url))
      && IsMarkedPrice(d.priceFrom)
  {
    forall d | d in SearchResults(links)
      ensures d.code != "" && d.url != "" && IsTrimmed(d.name) && IsMarkedPrice(d.priceFrom)
      ensures exists l :: l in links && l.testId == Some(d.code) && l.href == Some(d.url)
    {
      var k :| 0 <= k < |SearchResults(links)| && SearchResults(links)[k] == d;
      ListedLinkAt(links, k);
      ListedRecord(Seqs.Filter(IsListed, links)[k]);
    }
  }

  lemma ListedLinkAt(links: seq<ResultLink>, k: int)
    requires 0 <= k < |SearchResults(links)|
    ensures var l := Seqs.Filter(IsListed, links)[k];
      l in links && IsListed(l) && SearchResults(links)[k] == ResultRecord(l)
  {
    var listed := Seqs.Filter(IsListed, links);
    assert listed[k] in listed;
  }

  /** The only '$' in a name, a space, the marker and a '$'-free price is the marker's own. */
  lemma DollarOnlyInMarker(name: string, price: string)
    requires '$' !in name && '$' !in price
    ensures var text := name + " " + PricePrefix + price;
      forall k | 0 <= k < |text| && k != |name| + 6 :: text[k] != '$'
  {
    var text := name + " " + PricePrefix + price;
    var n := |name|;
    forall k | 0 <= k < |text| && k != n + 6 ensures text[k] != '$' {
      if k < n {
        assert text[k] == name[k];
      } else if k > n + 6 {
        assert text[k] == price[k - n - 7];
      } else if k == n {
        assert text[k] == ' ';
      } else {
        assert text[k] == PricePrefix[k - n - 1];
      }
    }
  }

  /** In a name, a space, the marker and a price with no '$' of their own, the marker occurs
      once, right after the space. */
  lemma MarkerAfterName(name: string, price: string)
    requires '$' !in name && '$' !in price
    ensures var text := name + " " + PricePrefix + price;
      IndexOf(text, PricePrefix) == Some(|name| + 1) && IndexFrom(text, PricePrefix, |name| + 7) == None
  {
    var text := name + " " + PricePrefix + price;
    var n := |name|;
    DollarOnlyInMarker(name, price);
    OccurrenceAnchoredBy(text, PricePrefix, 5, n + 1);
    OccurrenceInMiddle(name + " ", PricePrefix, price);
    OnlyOccurrence(text, PricePrefix, n + 1);
  }

  /** For a result text made of a name, a space, the marker and a price, parsing gives the name
      and the marked price back. */
  lemma ResultTextRoundTrip(name: string, price: string)
    requires name != "" && IsTrimmed(name) && '$' !in name
    requires IsTrimmed(price) && '$' !in price
    ensures ResultName(name + " " + PricePrefix + price) == name
    ensures ResultPrice(name + " " + PricePrefix + price) == PricePrefix + price
  {
    NameOfResultText(name, price);
    PriceOfResultText(name, price);
  }

  lemma NameOfResultText(name: string, price: string)
    requires name != "" && IsTrimmed(name) && '$' !in name && '$' !in price
    ensures ResultName(name + " " + PricePrefix + price) == name
  {
    MarkerAfterName(name, price);
    Seqs.CutAfterFirst(name + " ", PricePrefix, price);
    TrimPadded("", name, " ");
    assert "" + name + " " == name + " ";
  }

  lemma PriceOfResultText(name: string, price: string)
    requires IsTrimmed(price) && '$' !in name && '$' !in price
    ensures ResultPrice(name + " " + PricePrefix + price) == PricePrefix + price
  {
    var text := name + " " + PricePrefix + price;
    MarkerAfterName(name, price);
    assert text[|name| + 7..] == price;
    TrimOfTrimmed(price);
  }

  /** A marker whose last character `x` appears in it nowhere else, twice in a text with no
      other `x` before the second: up to that one, the first marker holds the only `x`. */
  lemma AnchorOnlyInFirstMarker(a: string, mk: string, price: string, more: string, x: char)
    requires |mk| > 0 && mk[|mk| - 1] == x && x !in mk[..|mk| - 1]
    requires x !in a && x !in price
    ensures var text := a + mk + price + mk + more;
      forall k | 0 <= k < |a| + |mk| + |price| + |mk| - 1 && k != |a| + |mk| - 1 :: text[k] != x
  {
    var text := a + mk + price + mk + more;
    var d := |mk| - 1;
    var first := |a|;
    var second := |a| + |mk| + |price|;
    forall k | 0 <= k < second + d && k != first + d ensures text[k] != x {
      if k < first {
        assert text[k] == a[k];
      } else if k < first + d {
        assert text[k] == mk[..d][k - first];
      } else if k < second {
        assert text[k] == price[k - first - |mk|];
      } else {
        assert text[k] == mk[..d][k - second];
      }
    }
  }

  /** Hence the marker occurs before the second one only at the first. */
  lemma NoOtherAnchoredMarker(a: string, mk: string, price: string, more: string, x: char)
    requires |mk| > 0 && mk[|mk| - 1] == x && x !in mk[..|mk| - 1]
    requires x !in a && x !in price
    ensures var text := a + mk + price + mk + more;
      forall i: nat :: i < |a| + |mk| + |price| && i != |a| ==> !IsOccurrence(text, mk, i)
  {
    var text := a + mk + price + mk + more;
    var d := |mk| - 1;
    AnchorOnlyInFirstMarker(a, mk, price, more, x);
    forall i: nat | i < |a| + |mk| + |price| && i != |a| ensures !IsOccurrence(text, mk, i) {
      assert text[i..i + |mk|][d] == text[i + d];
    }
  }

  /** `indexOf` finds the first marker, and searching on after it finds the second. */
  lemma MarkersFound(a: string, mk: string, price: string, more: string, x: char)
    requires |mk| > 0 && mk[|mk| - 1] == x && x !in mk[..|mk| - 1]
    requires x !in a && x !in price
    ensures var text := a + mk + price + mk + more;
      && IndexOf(text, mk) == Some(|a|)
      && IndexFrom(text, mk, |a| + |mk|) == Some(|a| + |mk| + |price|)
  {
    MarkersInPlace(a, mk, price, more);
    NoOtherAnchoredMarker(a, mk, price, more, x);
    TwoOccurrences(a + mk + price + mk + more, mk, |a|, |a| + |mk| + |price|);
  }

  /** The price lies between the two markers. */
  lemma PriceBetweenMarkers(a: string, mk: string, price: string, more: string)
    ensures (a + mk + price + mk + more)[|a| + |mk|..|a| + |mk| + |price|] == price
  {
  }

  /** The two markers sit right after `a` and right after the price. */
  lemma MarkersInPlace(a: string, mk: string, price: string, more: string)
    ensures var text := a + mk + price + mk + more;
      IsOccurrence(text, mk, |a|) && IsOccurrence(text, mk, |a| + |mk| + |price|)
  {
    var text := a + mk + price + mk + more;
    var second := |a| + |mk| + |price|;
    assert text[|a|..|a| + |mk|] == mk;
    assert text[second..second + |mk|] == mk;
  }

  /** The marker's '$' is its last character and appears in it once. */
  lemma DollarEndsMarker()
    ensures PricePrefix[|PricePrefix| - 1] == '$' && '$' !in PricePrefix[..|PricePrefix| - 1]
  {
    assert PricePrefix[..5] == "Od US";
  }

  /** A second marker ends the price: only the text between the two markers, trimmed, follows
      the first marker in the price, and what comes after the second one is dropped. */
  lemma PriceUpToSecondMarker(name: string, price: string, more: string)
    requires '$' !in name && '$' !in price
    ensures ResultPrice(name + " " + PricePrefix + price + PricePrefix + more) == PricePrefix + Trim(price)
  {
    var text := name + " " + PricePrefix + price + PricePrefix + more;
    DollarEndsMarker();
    assert '$' !in name + " ";
    MarkersFound(name + " ", PricePrefix, price, more, '$');
    PriceBetweenMarkers(name + " ", PricePrefix, price, more);
    SecondPiece(text, PricePrefix, |name + " "|, |name + " "| + |PricePrefix|, |name + " "| + |PricePrefix| + |price|, price);
  }

  /** A link has a visible code when its test id is non-empty. */
  predicate HasTestId(link: ResultLink) {
    link.testId.GetOr("") != ""
  }

  function TestIdOf(link: ResultLink): string {
    link.testId.GetOr("")
  }

  /** The codes `getVisibleDestinationCodes` returns: the non-empty test ids, in link order. */
  function VisibleDestinationCodes(links: seq<ResultLink>): seq<string> {
    Seqs.Map(TestIdOf, Seqs.Filter(HasTestId, links))
  }

  /** `getVisibleDestinationCodes`: pushes each non-empty test id, in link order. */
  method GetVisibleDestinationCodes(links: seq<ResultLink>) returns (codes: seq<string>)
    ensures codes == VisibleDestinationCodes(links)
    ensures |codes| <= |links|
    ensures forall k :: 0 <= k < |codes| ==> codes[k] != ""
  {
    codes := [];
    for i := 0 to |links|
      invariant codes == VisibleDestinationCodes(links[..i])
    {
      var testId := links[i].testId;
      assert links[..i + 1] == links[..i] + [links[i]];
      Seqs.FilterAppend(HasTestId, links[..i], links[i]);
      if testId.GetOr("") != "" {
        codes := codes + [testId.value];
        Seqs.MapAppend(TestIdOf, Seqs.Filter(HasTestId, links[..i]), links[i]);
      }
    }
    assert links[..|links|] == links;
    VisibleCodesNonEmpty(links);
  }

  /** Every visible code is non-empty. */
  lemma VisibleCodesNonEmpty(links: seq<ResultLink>)
    ensures forall k :: 0 <= k < |VisibleDestinationCodes(links)| ==> VisibleDestinationCodes(links)[k] != ""
  {
    var listed := Seqs.Filter(HasTestId, links);
    forall k | 0 <= k < |listed| ensures HasTestId(listed[k]) {
      assert listed[k] in listed;
    }
  }

  /** The search results never outnumber the visible codes, and when every link has an
      `href` their codes are exactly the visible codes, in the same order. */
  lemma {:induction false} ResultsFollowCodes(links: seq<ResultLink>)
    ensures |SearchResults(links)| <= |VisibleDestinationCodes(links)| <= |links|
    ensures (forall i :: 0 <= i < |links| ==> links[i].href.GetOr("") != "") ==>
      Seqs.Map((d: CountryDestination) => d.code, SearchResults(links)) == VisibleDestinationCodes(links)
  {
    Seqs.FilterLengthMonotone(IsListed, HasTestId, links);
    if forall i :: 0 <= i < |links| ==> links[i].href.GetOr("") != "" {
      Seqs.FilterCongruent(IsListed, HasTestId, links);
    }
  }

  /** The object `navigateToSearchResult` returns. */
  datatype NavigationReport = NavigationReport(success: bool, url: Option<string>, blocked: Option<bool>)

  const Unsuccessful: NavigationReport := NavigationReport(false, None, None)

  /** `navigateToSearchResult`: `anchors` lists the `href` of each link inside the modal (`None`
      when listing throws). A negative index reads an undefined element and throws, and a
      failed resolution throws too; every exception gives `{success: false}`. */
  function NavigateToSearchResult(anchors: Option<seq<Option<string>>>, index: int, resolve: Resolver, visit: Visit)
    : (r: NavigationReport)
    ensures anchors.None? ==> r == Unsuccessful
    ensures anchors.Some? && (|anchors.value| == 0 || index >= |anchors.value|) ==> r == Unsuccessful
    ensures anchors.Some? && 0 <= index < |anchors.value| && anchors.value[index].GetOr("") == "" ==>
      r == Unsuccessful
    ensures r.url.None? ==> r == Unsuccessful
    ensures r.success ==> r.url.Some? && r.blocked.None?
    ensures !r.success && r.url.Some? ==> r.blocked == Some(IsPageBlocked(visit.page))
    ensures r.url.Some? ==> (anchors.Some? && 0 <= index < |anchors.value| &&
      anchors.value[index].Some? && resolve(anchors.value[index].value) == r.url)
  {
    match anchors
    case None => Unsuccessful
    case Some(results) =>
      if |results| == 0 || index >= |results| then Unsuccessful
      else if index < 0 then Unsuccessful
      else match results[index]
        case None => Unsuccessful
        case Some(href) =>
          if href == "" then Unsuccessful
          else match resolve(href)
            case None => Unsuccessful
            case Some(fullUrl) =>
              if !HandleBlockedNavigation(visit.goto, visit.page) then
                NavigationReport(false, Some(fullUrl), Some(IsPageBlocked(visit.page)))
              else NavigationReport(true, Some(fullUrl), None)
  }

  /** Over the same links, the modal's navigation and the navigator's classification agree:
      success for success, `blocked: true` for blocked, the same URL, and `blocked: false`
      alongside a URL exactly where the navigator reports a failure after resolving. */
  lemma NavigationAgreesWithNavigator(links: seq<Option<string>>, index: int, resolve: Resolver, visit: Visit)
    ensures var r := NavigateToSearchResult(Some(links), index, resolve, visit);
      var g := WithLinks(links).GoToResult(index, resolve, visit);
      && (r.success <==> g.Success?)
      && (r.blocked == Some(true) <==> g.Blocked?)
      && (!g.Failed? ==> r.url == Some(g.url))
      && (r.url.Some? <==> WithLinks(links).TargetUrl(index, resolve).Some?)
      && (g.Failed? && r.url.Some? ==> r.blocked == Some(false))
  {
  }

  /** What `expectNavigationToWorkCorrectly` concludes from a report: an assertion failure with
      its message, a pass, or (on success) the page-load and URL checks left to the browser. */
  datatype Verdict = Passed | AssertionFailed(message: string) | ValidateInBrowser(url: string)

  const MissingUrlMessage: string := "Navigation URL is available despite blocking"
  const InvalidUrlMessage: string := "Result URL format is valid"
  const UnblockedFailureMessage: string := "Navigation should succeed when not blocked"

  /** `expectNavigationToWorkCorrectly` after its navigation; `isValidUrl` is the URL-syntax
      check, which is not part of this model. */
  function ExpectNavigationToWorkCorrectly(r: NavigationReport, isValidUrl: string -> bool): (v: Verdict)
    ensures r.blocked == Some(true) ==>
      (v == Passed <==> r.url.Some? && r.url.value != "" && isValidUrl(r.url.value))
    ensures r.blocked == Some(true) && r.url.GetOr("") == "" ==> v == AssertionFailed(MissingUrlMessage)
    ensures r.blocked != Some(true) && !r.success ==> v == AssertionFailed(UnblockedFailureMessage)
    ensures v.ValidateInBrowser? <==> r.blocked != Some(true) && r.success
  {
    if r.blocked == Some(true) then
      if r.url.GetOr("") == "" then AssertionFailed(MissingUrlMessage)
      else if !isValidUrl(r.url.value) then AssertionFailed(InvalidUrlMessage)
      else Passed
    else if !r.success then AssertionFailed(UnblockedFailureMessage)
    else ValidateInBrowser(r.url.GetOr(""))
  }

  /** On a report produced by navigation, with a resolver that never yields an empty address,
      the missing-URL assertion cannot fail; the unblocked-failure assertion fails exactly when
      the navigator classifies the same visit as failed, and the browser checks run exactly
      when it classifies it as a success, on the same URL. */
  lemma NavigationVerdict(links: seq<Option<string>>, index: int, resolve: Resolver, visit: Visit, isValidUrl: string -> bool)
    requires forall h :: resolve(h) != Some("")
    ensures var v := ExpectNavigationToWorkCorrectly(NavigateToSearchResult(Some(links), index, resolve, visit), isValidUrl);
      var g := WithLinks(links).GoToResult(index, resolve, visit);
      && v != AssertionFailed(MissingUrlMessage)
      && (v == AssertionFailed(UnblockedFailureMessage) <==> g.Failed?)
      && (v.ValidateInBrowser? <==> g.Success?)
      && (g.Success? ==> v == ValidateInBrowser(g.url))
      && (g.Blocked? ==> (v == Passed <==> isValidUrl(g.url)))
  {
    NavigationAgreesWithNavigator(links, index, resolve, visit);
    var r := NavigateToSearchResult(Some(links), index, resolve, visit);
    if r.url.Some? {
      assert resolve(links[index].value) == r.url;
    }
  }
}
