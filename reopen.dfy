/** Reopening a saved session: the browser calls `openSave` issues, as a
    plan of actions. */
module Reopen {
  import opened Model

  /** The pages that count as an empty new-tab placeholder. */
  const NewTabUrls: seq<string> := ["about:newtab", "about:blank", "chrome://newtab/"]

  /** A call into the browser's tab and window API. */
  datatype Action =
    | CreateTab(url: string)
    | RemoveTab(tabId: int)
    | CreateWindow(incognito: bool, urls: seq<string>)

  /** The current window shows a single placeholder tab. */
  predicate ShowsPlaceholder(currentTabs: seq<BrowserTab>) {
    |currentTabs| == 1 && currentTabs[0].url in NewTabUrls
  }

  /** The URLs of a session's tabs, in tab order. */
  function UrlsOf(tabs: seq<TabRecord>): (urls: seq<string>)
    ensures |urls| == |tabs|
    ensures forall i :: 0 <= i < |tabs| ==> urls[i] == tabs[i].url
  {
    if tabs == [] then [] else UrlsOf(tabs[..|tabs| - 1]) + [tabs[|tabs| - 1].url]
  }

  /** The URL-collecting loop of `validateAndOpenSave`. */
  method CollectUrls(tabs: seq<TabRecord>) returns (urlArray: seq<string>)
    ensures |urlArray| == |tabs|
    ensures forall i :: 0 <= i < |tabs| ==> urlArray[i] == tabs[i].url
  {
    urlArray := [];
    for i := 0 to |tabs|
      invariant |urlArray| == i
      invariant forall j :: 0 <= j < i ==> urlArray[j] == tabs[j].url
    {
      urlArray := urlArray + [tabs[i].url];
    }
  }

  /** In place: for each URL a new tab, each followed by a removal of the
      placeholder (the removal sits inside the loop). */
  function InPlace(urls: seq<string>, placeholder: int): (plan: seq<Action>)
    ensures |plan| == 2 * |urls|
    ensures forall i :: 0 <= i < |urls| ==> plan[2 * i] == CreateTab(urls[i])
    ensures forall i :: 0 <= i < |urls| ==> plan[2 * i + 1] == RemoveTab(placeholder)
    ensures forall a :: a in plan ==> a.CreateTab? || a == RemoveTab(placeholder)
  {
    if urls == [] then []
    else
      var rest := InPlace(urls[..|urls| - 1], placeholder);
      assert forall i :: 0 <= i < |urls| - 1 ==> (rest + [CreateTab(urls[|urls| - 1]), RemoveTab(placeholder)])[2 * i] == rest[2 * i];
      rest + [CreateTab(urls[|urls| - 1]), RemoveTab(placeholder)]
  }

  /** What `openSave` does with the saved URLs: every one of them is opened
      exactly once, in order, and a window is created exactly when the
      current window does not show a lone placeholder. */
  function OpenPlan(urlArray: seq<string>, isIncognito: bool, currentTabs: seq<BrowserTab>): (plan: seq<Action>)
    ensures Opened(plan) == urlArray
    ensures (exists a :: a in plan && a.CreateWindow?) <==> !ShowsPlaceholder(currentTabs)
  {
    if ShowsPlaceholder(currentTabs) then
      InPlaceOpens(urlArray, currentTabs[0].id);
      InPlace(urlArray, currentTabs[0].id)
    else
      var plan := [CreateWindow(isIncognito, urlArray)];
      assert plan[..0] == [];
      assert plan[0] in plan;
      plan
  }

  /** `openSave`: loops over the URLs when the window shows a lone
      placeholder, and opens one window otherwise. */
  method OpenSave(urlArray: seq<string>, isIncognito: bool, currentTabs: seq<BrowserTab>)
    returns (plan: seq<Action>)
    ensures plan == OpenPlan(urlArray, isIncognito, currentTabs)
  {
    if |currentTabs| == 1 && currentTabs[0].url in NewTabUrls {
      var tabIdOfNewTab := currentTabs[0].id;
      plan := [];
      for i := 0 to |urlArray|
        invariant plan == InPlace(urlArray[..i], tabIdOfNewTab)
      {
        assert urlArray[..i + 1][..i] == urlArray[..i];
        plan := plan + [CreateTab(urlArray[i]), RemoveTab(tabIdOfNewTab)];
      }
      assert urlArray[..|urlArray|] == urlArray;
    } else {
      plan := [CreateWindow(isIncognito, urlArray)];
    }
  }

  /** The URLs a plan opens, in the order it opens them. */
  function Opened(plan: seq<Action>): seq<string> {
    if plan == [] then []
    else
      Opened(plan[..|plan| - 1]) +
      match plan[|plan| - 1]
      case CreateTab(url) => [url]
      case RemoveTab(_) => []
      case CreateWindow(_, urls) => urls
  }

  lemma {:induction false} InPlaceOpens(urls: seq<string>, placeholder: int)
    ensures Opened(InPlace(urls, placeholder)) == urls
  {
    if urls != [] {
      var front := urls[..|urls| - 1];
      var plan := InPlace(urls, placeholder);
      InPlaceOpens(front, placeholder);
      assert plan[..|plan| - 1][..|plan| - 2] == InPlace(front, placeholder);
      assert front + [urls[|urls| - 1]] == urls;
    }
  }

  /** The placeholder is removed exactly when the window shows one and
      there is at least one URL to open, and only the placeholder is ever
      removed. */
  lemma PlaceholderRemoval(urlArray: seq<string>, isIncognito: bool, currentTabs: seq<BrowserTab>)
    ensures var plan := OpenPlan(urlArray, isIncognito, currentTabs);
      (exists i :: 0 <= i < |plan| && plan[i].RemoveTab?) <==> ShowsPlaceholder(currentTabs) && urlArray != []
    ensures var plan := OpenPlan(urlArray, isIncognito, currentTabs);
      forall a :: a in plan && a.RemoveTab? ==> a == RemoveTab(currentTabs[0].id)
  {
    var plan := OpenPlan(urlArray, isIncognito, currentTabs);
    if ShowsPlaceholder(currentTabs) {
      var id := currentTabs[0].id;
      if urlArray != [] {
        assert urlArray[0] in urlArray;
        assert plan[2 * 0 + 1] == RemoveTab(id);
      }
    }
  }

  /** Away from a placeholder, exactly one window is created, holding all
      the URLs and carrying the incognito flag given. */
  lemma OneWindowOtherwise(urlArray: seq<string>, isIncognito: bool, currentTabs: seq<BrowserTab>)
    requires !ShowsPlaceholder(currentTabs)
    ensures var plan := OpenPlan(urlArray, isIncognito, currentTabs);
      |plan| == 1 && plan[0].CreateWindow? && plan[0].urls == urlArray && plan[0].incognito == isIncognito
  {
  }

  /** `validateAndOpenSave` after its two browser queries. `lastFocused` is
      the last-focused window's incognito flag, None when that query failed
      (the flag then stays false); `currentTabs` is the current window's
      tabs, None when that query failed (the fallback `openSave(urlArray,
      false, [])` then runs). */
  function ReopenPlan(session: Session, lastFocused: Option<bool>, currentTabs: Option<seq<BrowserTab>>): (plan: seq<Action>)
    ensures Opened(plan) == UrlsOf(session.tabs)
    ensures currentTabs.None? ==> plan == [CreateWindow(false, UrlsOf(session.tabs))]
  {
    var urlArray := UrlsOf(session.tabs);
    match currentTabs
    case Some(tabs) => OpenPlan(urlArray, lastFocused.GetOr(false), tabs)
    case None => OpenPlan(urlArray, false, [])
  }

  method ValidateAndOpenSave(session: Session, lastFocused: Option<bool>, currentTabs: Option<seq<BrowserTab>>)
    returns (plan: seq<Action>)
    ensures plan == ReopenPlan(session, lastFocused, currentTabs)
  {
    var urlArray := CollectUrls(session.tabs);
    assert urlArray == UrlsOf(session.tabs);
    var isIncognito := false;
    if lastFocused.Some? {
      isIncognito := lastFocused.value;
    }
    match currentTabs {
      case Some(tabs) =>
        plan := OpenSave(urlArray, isIncognito, tabs);
      case None =>
        plan := OpenSave(urlArray, false, []);
    }
  }

  /** A new window is incognito exactly when the last-focused window was
      reported incognito and the tab query succeeded. */
  lemma WindowFollowsIncognito(session: Session, lastFocused: Option<bool>, currentTabs: Option<seq<BrowserTab>>)
    ensures forall a :: a in ReopenPlan(session, lastFocused, currentTabs) && a.CreateWindow? ==>
      a.incognito == (lastFocused == Some(true) && currentTabs.Some?)
  {
  }
}
