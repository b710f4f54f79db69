/** logic/SearchNavigator.ts: pick a result link by index, resolve its address, visit it with
    the guarded navigation and classify the outcome as success, blocked or failed. */
module SearchNavigator {
  import opened Wrappers
  import opened TestHelpers

  /** `NavigationResult`: the success and blocked outcomes carry a URL, failure carries none. */
  datatype NavigationResult = Success(url: string) | Blocked(url: string) | Failed

  /** What visiting a URL produced: the outcome of `goto` and the page as read afterwards. Both
      block checks made after one visit read this same page. */
  datatype Visit = Visit(goto: GotoOutcome, page: PageView)

  /** `new URL(href, 'https://saily.com').href`, with `None` when the constructor throws. */
  type Resolver = string -> Option<string>

  /** A navigator over result links, each given by its `href` attribute (`None` when absent).
      `links` is `None` when listing the links throws. */
  datatype Navigator = Navigator(links: Option<seq<Option<string>>>) {

    /** The resolved address of the link at `index`, if that link exists, has a non-empty
        `href`, and the address resolves. */
    function TargetUrl(index: int, resolve: Resolver): (url: Option<string>)
      ensures url.Some? ==> links.Some? && 0 <= index < |links.value|
      ensures url.Some? ==> links.value[index].Some? && links.value[index].value != ""
                            && resolve(links.value[index].value) == url
      ensures (links.Some? && 0 <= index < |links.value| && links.value[index].Some? &&
               links.value[index].value != "") ==> url == resolve(links.value[index].value)
    {
      if links.None? || !(0 <= index < |links.value|) then None
      else match links.value[index]
        case None => None
        case Some(href) => if href == "" then None else resolve(href)
    }

    /** `goToResult`: never throws; every exception along the way becomes `Failed`. */
    function GoToResult(index: int, resolve: Resolver, visit: Visit): (r: NavigationResult)
      ensures !r.Failed? ==> TargetUrl(index, resolve) == Some(r.url)
      ensures r.Success? <==>
        TargetUrl(index, resolve).Some? && HandleBlockedNavigation(visit.goto, visit.page)
      ensures r.Blocked? ==> IsPageBlocked(visit.page)
      ensures r.Failed? <==> (TargetUrl(index, resolve).None? ||
        (!HandleBlockedNavigation(visit.goto, visit.page) && !IsPageBlocked(visit.page)))
    {
      match TargetUrl(index, resolve)
      case None => Failed
      case Some(url) =>
        if HandleBlockedNavigation(visit.goto, visit.page) then Success(url)
        else if IsPageBlocked(visit.page) then Blocked(url)
        else Failed
    }
  }

  /** The navigator `new SearchNavigator(page, modal)` builds: it reads `modal['destinationLinks']`,
      a field `SearchModal` never declares, so the link list is undefined and listing it throws. */
  function FromSearchModal(): (nav: Navigator)
    ensures nav.links.None?
  {
    Navigator(None)
  }

  /** A navigator over an actual list of result links: what the constructor evidently intends. */
  function WithLinks(links: seq<Option<string>>): (nav: Navigator)
    ensures nav.links == Some(links)
  {
    Navigator(Some(links))
  }

  /** As written, `goToResult` on a navigator built from a search modal always fails. */
  lemma FromSearchModalAlwaysFails(index: int, resolve: Resolver, visit: Visit)
    ensures FromSearchModal().GoToResult(index, resolve, visit) == Failed
  {
  }

  /** The intended behaviour: when the link at `index` has a non-empty `href` that resolves
      and the visit yields any response at all, the result is never `Failed`: a success or, on
      an error status with a block page, `Blocked`, carrying the resolved address. */
  lemma ResponseNeverFails(links: seq<Option<string>>, index: int, resolve: Resolver, visit: Visit)
    requires 0 <= index < |links| && links[index].Some? && links[index].value != ""
    requires resolve(links[index].value).Some?
    requires visit.goto.Response?
    ensures var r := WithLinks(links).GoToResult(index, resolve, visit);
      var url := resolve(links[index].value).value;
      r == (if visit.goto.status >= 400 && IsPageBlocked(visit.page) then Blocked(url) else Success(url))
  {
  }

  /** One concrete search that shows the difference: a single result linking to
      `/pl/esim-spain/`, a resolvable address and a 200 response. The intended navigator reports
      success; the navigator built from a search modal reports failure. */
  lemma FirstResultCounterexample()
    ensures var resolve := (href: string) => Some("https://saily.com" + href);
      var visit := Visit(Response(200), PageView(Some("Hiszpania"), Some("eSIM do Hiszpanii")));
      && WithLinks([Some("/pl/esim-spain/")]).GoToResult(0, resolve, visit)
           == Success("https://saily.com/pl/esim-spain/")
      && FromSearchModal().GoToResult(0, resolve, visit) == Failed
  {
    var resolve := (href: string) => Some("https://saily.com" + href);
    var visit := Visit(Response(200), PageView(Some("Hiszpania"), Some("eSIM do Hiszpanii")));
    assert "https://saily.com" + "/pl/esim-spain/" == "https://saily.com/pl/esim-spain/";
    assert resolve("/pl/esim-spain/") == Some("https://saily.com/pl/esim-spain/");
    assert WithLinks([Some("/pl/esim-spain/")]).TargetUrl(0, resolve) == Some("https://saily.com/pl/esim-spain/");
  }
}
