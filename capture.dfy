/** Turning the live tabs of a window into a new session: which tabs are
    chosen, which are kept, what is recorded of each, and the automatic
    title. */
module Capture {
  import opened Text
  import opened Model

  /** The number of highlighted tabs, counted from the front. */
  function HighlightedCount(tabs: seq<BrowserTab>): (n: nat)
    ensures n <= |tabs|
    ensures n == 0 <==> forall i :: 0 <= i < |tabs| ==> !tabs[i].highlighted
  {
    if tabs == [] then 0
    else HighlightedCount(tabs[..|tabs| - 1]) + (if tabs[|tabs| - 1].highlighted then 1 else 0)
  }

  /** `countHighlighted`: walks the tabs once, counting the highlighted ones. */
  method CountHighlighted(tabs: seq<BrowserTab>) returns (count: nat)
    ensures count == HighlightedCount(tabs)
  {
    count := 0;
    for i := 0 to |tabs|
      invariant count == HighlightedCount(tabs[..i])
    {
      assert tabs[..i + 1][..i] == tabs[..i];
      if tabs[i].highlighted {
        count := count + 1;
      }
    }
    assert tabs[..|tabs|] == tabs;
  }

  /** `isHighlighted`, the predicate handed to `filter`. It picks out
      exactly the tabs `countHighlighted` counts. */
  predicate IsHighlighted(tab: BrowserTab)
    ensures HighlightedCount([tab]) == if IsHighlighted(tab) then 1 else 0
  {
    assert [tab][..0] == [];
    tab.highlighted
  }

  /** `tabs.filter(isHighlighted)`: the highlighted tabs, in their order. */
  function Highlighted(tabs: seq<BrowserTab>): (r: seq<BrowserTab>)
    ensures |r| == HighlightedCount(tabs)
    ensures forall t :: t in r <==> t in tabs && IsHighlighted(t)
  {
    if tabs == [] then []
    else
      var last := tabs[|tabs| - 1];
      assert tabs == tabs[..|tabs| - 1] + [last];
      Highlighted(tabs[..|tabs| - 1]) + (if IsHighlighted(last) then [last] else [])
  }

  /** Filtering distributes over concatenation, so the highlighted tabs keep
      their relative order. */
  lemma {:induction false} HighlightedAppend(a: seq<BrowserTab>, b: seq<BrowserTab>)
    ensures Highlighted(a + b) == Highlighted(a) + Highlighted(b)
  {
    if b != [] {
      var b' := b[..|b| - 1];
      assert (a + b)[..|a + b| - 1] == a + b';
      HighlightedAppend(a, b');
    } else {
      assert a + b == a;
    }
  }

  /** The tabs `storeIt` works on: the highlighted ones when more than one
      tab is highlighted, otherwise all of them. */
  function SelectTabs(tabs: seq<BrowserTab>): (r: seq<BrowserTab>)
    ensures HighlightedCount(tabs) > 1 ==> forall t :: t in r <==> t in tabs && t.highlighted
    ensures HighlightedCount(tabs) > 1 ==> |r| == HighlightedCount(tabs)
    ensures HighlightedCount(tabs) <= 1 ==> r == tabs
  {
    if HighlightedCount(tabs) > 1 then Highlighted(tabs) else tabs
  }

  predicate HasPrefix(s: string, p: string) {
    |p| <= |s| && s[..|p|] == p
  }

  /** The schemes the alternation in the pattern lists. */
  const AllowedSchemes: seq<string> := ["http", "https", "file"]

  /** The `^(http|https|file):\/\/` pattern as a case-sensitive prefix test:
      one of the listed schemes followed by "://" starts the url. */
  predicate IsSaveableUrl(url: string)
    ensures IsSaveableUrl(url) <==> exists scheme :: scheme in AllowedSchemes && HasPrefix(url, scheme + "://")
    ensures IsSaveableUrl(url) ==> |url| >= 7
  {
    assert "http" + "://" == "http://";
    assert "https" + "://" == "https://";
    assert "file" + "://" == "file://";
    HasPrefix(url, "http://") || HasPrefix(url, "https://") || HasPrefix(url, "file://")
  }

  /** JavaScript's `a || b` on an optional string: `a` unless it is absent
      or empty. */
  function OrElse(a: Option<string>, b: string): string {
    if a.Some? && a.value != [] then a.value else b
  }

  /** JavaScript's `a || null` on an optional string: an empty string
      becomes null. */
  function NonEmpty(a: Option<string>): Option<string> {
    if a.Some? && a.value != [] then a else None
  }

  /** The record `storeIt` builds for one kept tab. */
  function ToRecord(tab: BrowserTab): (r: TabRecord)
    ensures r.url == tab.url
    ensures tab.title.Some? && tab.title.value != [] ==> r.textContent == tab.title.value
    ensures tab.title.None? || tab.title.value == [] ==> r.textContent == tab.url
    ensures r.iconUrl.Some? <==> tab.favIconUrl.Some? && tab.favIconUrl.value != []
    ensures r.iconUrl.Some? ==> r.iconUrl == tab.favIconUrl
  {
    TabRecord(OrElse(tab.title, tab.url), tab.url, NonEmpty(tab.favIconUrl))
  }

  /** One record per tab whose URL passes the scheme test, in tab order. */
  function Records(tabs: seq<BrowserTab>): (r: seq<TabRecord>)
    ensures |r| <= |tabs|
    ensures forall x :: x in r ==> IsSaveableUrl(x.url) && x.textContent != []
    ensures forall t :: t in tabs && IsSaveableUrl(t.url) ==> ToRecord(t) in r
    ensures forall x :: x in r ==> exists t :: t in tabs && IsSaveableUrl(t.url) && x == ToRecord(t)
  {
    if tabs == [] then []
    else
      var last := tabs[|tabs| - 1];
      assert tabs == tabs[..|tabs| - 1] + [last];
      Records(tabs[..|tabs| - 1]) + (if IsSaveableUrl(last.url) then [ToRecord(last)] else [])
  }

  /** Records of a concatenation are the concatenated records: the saved
      tabs keep the order of the live tabs. */
  lemma {:induction false} RecordsAppend(a: seq<BrowserTab>, b: seq<BrowserTab>)
    ensures Records(a + b) == Records(a) + Records(b)
  {
    if b != [] {
      var b' := b[..|b| - 1];
      assert (a + b)[..|a + b| - 1] == a + b';
      RecordsAppend(a, b');
    } else {
      assert a + b == a;
    }
  }

  /** The loop in `storeIt` that pushes one record per kept tab. */
  method BuildRecords(tabs: seq<BrowserTab>) returns (tabArray: seq<TabRecord>)
    ensures tabArray == Records(tabs)
  {
    tabArray := [];
    for i := 0 to |tabs|
      invariant tabArray == Records(tabs[..i])
    {
      assert tabs[..i + 1][..i] == tabs[..i];
      if IsSaveableUrl(tabs[i].url) {
        tabArray := tabArray + [ToRecord(tabs[i])];
      }
    }
    assert tabs[..|tabs|] == tabs;
  }

  const TabsSuffix := " tabs"

  /** Reads the tab count back out of a title of the form "... N tabs". */
  function TabCountOf(title: string): Option<nat> {
    if |title| < |TabsSuffix| || title[|title| - |TabsSuffix|..] != TabsSuffix then None
    else
      var digits := TrailingDigits(title[..|title| - |TabsSuffix|]);
      if digits == [] then None else Some(DecimalValue(digits))
  }

  /** The automatic title "D/M H:M | N tabs"; the month is getMonth() + 1
      and no part is zero-padded. It starts with the day and ends with the
      tab count after a " | " separator. */
  function AutoTitle(now: Clock, n: nat): (title: string)
    ensures var head := Decimal(now.date) + "/";
      |head| <= |title| && title[..|head|] == head
    ensures var tail := " | " + Decimal(n) + TabsSuffix;
      |tail| <= |title| && title[|title| - |tail|..] == tail
  {
    var p := Decimal(now.date) + "/" + Decimal(now.month + 1) + " " + Decimal(now.hours)
      + ":" + Decimal(now.minutes);
    var title := p + " | " + Decimal(n) + TabsSuffix;
    assert title == p + (" | " + Decimal(n) + TabsSuffix);
    title
  }

  /** The tab count written into the automatic title reads back out of it. */
  lemma AutoTitleTabCount(now: Clock, n: nat)
    ensures TabCountOf(AutoTitle(now, n)) == Some(n)
  {
    var p := Decimal(now.date) + "/" + Decimal(now.month + 1) + " " + Decimal(now.hours)
      + ":" + Decimal(now.minutes) + " | ";
    var title := AutoTitle(now, n);
    assert title == p + Decimal(n) + TabsSuffix;
    assert title[..|title| - |TabsSuffix|] == p + Decimal(n);
    assert title[|title| - |TabsSuffix|..] == TabsSuffix;
    TrailingDigitsAfterSeparator(p, Decimal(n));
    DecimalRoundTrip(n);
  }

  /** Day 5 of January at 9:07 with three tabs: the month is shifted by one
      and the minutes are not padded. */
  lemma AutoTitleExample()
    ensures AutoTitle(Clock(5, 0, 9, 7), 3) == "5/1 9:7 | 3 tabs"
  {
  }

  /** The body of `storeIt` up to the call to `persist`: the session it
      saves under `id`. */
  function CaptureSession(tabs: seq<BrowserTab>, id: nat, now: Clock): (s: Session)
    ensures s.id == id && !s.pinned && s.tags == None
    ensures s.tabs == Records(SelectTabs(tabs))
    ensures forall x :: x in s.tabs ==> IsSaveableUrl(x.url)
    ensures TabCountOf(s.title) == Some(|s.tabs|)
  {
    var records := Records(SelectTabs(tabs));
    AutoTitleTabCount(now, |records|);
    StorageObject(id, AutoTitle(now, |records|), records, None)
  }

  /** An https address is saveable; about:blank and an ftp address are not. */
  lemma SchemeExamples()
    ensures IsSaveableUrl("https://a.com")
    ensures !IsSaveableUrl("about:blank")
    ensures !IsSaveableUrl("ftp://x")
  {
    assert IsSaveableUrl("https://a.com") by {
      assert "https://a.com"[..8] == "https://";
    }
    assert !IsSaveableUrl("about:blank") by {
      assert "about:blank"[..7][0] == 'a';
      assert "about:blank"[..8][0] == 'a';
    }
    assert !IsSaveableUrl("ftp://x") by {
      assert "ftp://x"[..7][0] == 'f';
      assert "ftp://x"[..7][1] == 't';
    }
  }

  /** With no tab highlighted, an https tab is kept while about:blank and
      an ftp tab are dropped. */
  lemma CaptureExample(now: Clock)
    ensures
      var tabs := [
        BrowserTab(1, "https://a.com", Some("A"), false, None),
        BrowserTab(2, "about:blank", None, false, None),
        BrowserTab(3, "ftp://x", None, false, None)];
      CaptureSession(tabs, 42, now).tabs == [TabRecord("A", "https://a.com", None)]
  {
    var a := BrowserTab(1, "https://a.com", Some("A"), false, None);
    var b := BrowserTab(2, "about:blank", None, false, None);
    var c := BrowserTab(3, "ftp://x", None, false, None);
    var tabs := [a, b, c];
    assert HighlightedCount(tabs) == 0;
    assert SelectTabs(tabs) == tabs;
    SchemeExamples();
    assert Records([a]) == [ToRecord(a)] by { assert [a][..0] == []; }
    assert Records([b]) == [] by { assert [b][..0] == []; }
    assert Records([c]) == [] by { assert [c][..0] == []; }
    RecordsAppend([a], [b]);
    RecordsAppend([a, b], [c]);
    assert [a] + [b] == [a, b];
    assert [a, b] + [c] == tabs;
  }
}
