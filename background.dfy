/**
 * The background script (background.js): the store of intercepted image URLs that the
 * `webRequest` listener fills and the tab-removal listener purges, the wait for the next image
 * of a tab (`fetchNextImage`), the range download loop (`downloadPages`) with its file-name
 * cut, the range check of `downloadRangeImages` and the lookup of `getImageUrl`.
 *
 * Browser events are given as values: a completed image request is a `RequestEvent`, the
 * requests that arrive while a page is awaited are a sequence (its end is the timeout), and
 * what happens when a page of the range is visited is a `PageRun` chosen by the page number.
 */
module Background {
  import opened Common
  import opened Text

  /** Only requests for full-size images carry this query fragment. */
  const OriginalMarker: string := "type=original"
  /** The page key of the fallback entry of a tab. */
  const LastPage: string := "last"

  /** An entry of the store: the tab the request came from and its page key. */
  datatype Key = Key(tab: int, page: string)

  /**
   * What `new URL(url).searchParams.get("page")` gives: the constructor throws (Unparsable),
   * or the parameter is absent (Param(None)) or present.
   */
  datatype PageParam = Unparsable | Param(value: Option<string>)

  /** A completed image request seen by `chrome.webRequest.onCompleted`. */
  datatype RequestEvent = Completed(tab: int, url: string, page: PageParam)

  /** `searchParams.get("page") || "last"`: a missing or empty parameter reads as "last". */
  function PageKey(param: Option<string>): (page: string)
    ensures page != []
  {
    if param.Some? && param.value != [] then param.value else LastPage
  }

  /** The page key the recorder stores an event under; an address that does not parse is stored under "last". */
  function RecordedPage(ev: RequestEvent): (page: string)
    ensures page != []
  {
    match ev.page
    case Unparsable => LastPage
    case Param(p) => PageKey(p)
  }

  /** Every stored URL is the URL of a full-size image request. */
  predicate AllOriginal(m: map<Key, string>)
  {
    forall k :: k in m ==> Contains(m[k], OriginalMarker)
  }

  // ---------------------------------------------------------------------------
  // The string keys `${tabId}-${page}`

  /** The key string the source stores an entry under. */
  function KeyString(k: Key): string
  {
    IntToString(k.tab) + "-" + k.page
  }

  /** The decimal form of an integer: an optional leading minus, then digits only. */
  lemma IntToStringShape(i: int)
    ensures var s := IntToString(i);
            && |s| >= 1
            && (s[0] == '-' <==> i < 0)
            && forall k :: 1 <= k < |s| ==> IsDigit(s[k])
  {
    var s := IntToString(i);
    if i < 0 {
      assert s[1..] == NatToString(-i);
    }
  }

  /** Different integers have different decimal forms. */
  lemma IntToStringInjective(a: int, b: int)
    requires IntToString(a) == IntToString(b)
    ensures a == b
  {
    IntToStringShape(a);
    IntToStringShape(b);
    if a < 0 {
      assert IntToString(a)[1..] == NatToString(-a);
      assert IntToString(b)[1..] == NatToString(-b);
      NatToStringInjective(-a, -b);
    } else {
      NatToStringInjective(a, b);
    }
  }

  /**
   * The purge test `key.startsWith(`${tabId}-`)` holds exactly for the keys of that tab:
   * a decimal integer has no "-" after its first character, so the prefix fixes the tab.
   */
  lemma KeyPrefixIsTab(k: Key, tabId: int)
    ensures StartsWith(KeyString(k), IntToString(tabId) + "-") <==> k.tab == tabId
  {
    var a, b := IntToString(tabId), IntToString(k.tab);
    var s := KeyString(k);
    IntToStringShape(tabId);
    IntToStringShape(k.tab);
    assert s == b + "-" + k.page;
    if k.tab == tabId {
      assert s[..|a| + 1] == a + "-";
    } else if StartsWith(s, a + "-") {
      assert s[..|a| + 1] == a + "-";
      assert s[|b|] == '-';
      assert s[|a|] == '-';
      if |a| == |b| {
        assert a == s[..|a|] == b;
        IntToStringInjective(tabId, k.tab);
      }
    }
  }

  /** Different keys have different key strings, so the pair model loses no distinction. */
  lemma KeyStringInjective(k1: Key, k2: Key)
    requires KeyString(k1) == KeyString(k2)
    ensures k1 == k2
  {
    KeyPrefixIsTab(k1, k2.tab);
    var s := KeyString(k1);
    assert s[..|IntToString(k2.tab)| + 1] == IntToString(k2.tab) + "-";
    assert k1.tab == k2.tab;
    var n := |IntToString(k1.tab)| + 1;
    assert k1.page == s[n..] == k2.page;
  }

  // ---------------------------------------------------------------------------
  // The store as a value

  /**
   * The `onCompleted` recorder: a request whose URL holds "type=original" is stored under its
   * page key and under "last" of its tab; any other request changes nothing.
   */
  function Record(m: map<Key, string>, ev: RequestEvent): (r: map<Key, string>)
    ensures AllOriginal(m) ==> AllOriginal(r)
    ensures !Contains(ev.url, OriginalMarker) ==> r == m
    ensures Contains(ev.url, OriginalMarker) ==>
              && r.Keys == m.Keys + {Key(ev.tab, RecordedPage(ev)), Key(ev.tab, LastPage)}
              && r[Key(ev.tab, RecordedPage(ev))] == ev.url
              && r[Key(ev.tab, LastPage)] == ev.url
    ensures forall k :: k in m && k != Key(ev.tab, RecordedPage(ev)) && k != Key(ev.tab, LastPage) ==> r[k] == m[k]
  {
    if !Contains(ev.url, OriginalMarker) then m
    else m[Key(ev.tab, RecordedPage(ev)) := ev.url][Key(ev.tab, LastPage) := ev.url]
  }

  /** The store after the recorder has seen `events`, in order. */
  function RecordAll(m: map<Key, string>, events: seq<RequestEvent>): (r: map<Key, string>)
    ensures AllOriginal(m) ==> AllOriginal(r)
  {
    if events == [] then m else Record(RecordAll(m, events[..|events| - 1]), events[|events| - 1])
  }

  lemma RecordAllStep(m: map<Key, string>, events: seq<RequestEvent>, i: nat)
    requires i < |events|
    ensures RecordAll(m, events[..i + 1]) == Record(RecordAll(m, events[..i]), events[i])
  {
    assert events[..i + 1][..i] == events[..i];
  }

  /** Recording the same event twice is recording it once. */
  lemma RecordIdempotent(m: map<Key, string>, ev: RequestEvent)
    ensures Record(Record(m, ev), ev) == Record(m, ev)
  {
  }

  /** The store without the entries of one tab: what the removal listener leaves. */
  function Purge(m: map<Key, string>, tabId: int): (r: map<Key, string>)
    ensures AllOriginal(m) ==> AllOriginal(r)
  {
    map k | k in m && k.tab != tabId :: m[k]
  }

  /** A purge removes every entry of that tab and keeps every entry of every other tab unchanged. */
  lemma PurgeExactlyThatTab(m: map<Key, string>, tabId: int, k: Key)
    ensures k in Purge(m, tabId) <==> k in m && k.tab != tabId
    ensures k in Purge(m, tabId) ==> Purge(m, tabId)[k] == m[k]
  {
  }

  /** Closing the tab a request came from leaves no trace of that request. */
  lemma {:induction false} PurgeAfterRecord(m: map<Key, string>, ev: RequestEvent)
    ensures Purge(Record(m, ev), ev.tab) == Purge(m, ev.tab)
  {
    var r := Record(m, ev);
    assert forall k :: k in Purge(r, ev.tab) <==> k in Purge(m, ev.tab);
    forall k | k in Purge(r, ev.tab) ensures Purge(r, ev.tab)[k] == Purge(m, ev.tab)[k] {
      assert k.tab != ev.tab;
    }
  }

  /** Closing one tab and recording a request of another tab commute. */
  lemma {:induction false} PurgeRecordCommute(m: map<Key, string>, ev: RequestEvent, tabId: int)
    requires ev.tab != tabId
    ensures Purge(Record(m, ev), tabId) == Record(Purge(m, tabId), ev)
  {
    var left, right := Purge(Record(m, ev), tabId), Record(Purge(m, tabId), ev);
    assert forall k :: k in left <==> k in right;
    forall k | k in left ensures left[k] == right[k] {
      if k == Key(ev.tab, RecordedPage(ev)) || k == Key(ev.tab, LastPage) {
        assert k.tab == ev.tab;
      }
    }
  }

  /** `map.get(key)` used as a truth value: the stored URL when it is present and not empty. */
  function Truthy(m: map<Key, string>, k: Key): (url: Option<string>)
    ensures url.Some? <==> k in m && m[k] != []
    ensures url.Some? ==> url.value == m[k]
  {
    if k in m && m[k] != [] then Some(m[k]) else None
  }

  /** `map.get(key) || map.get(`${tab}-last`)`: the exact entry, else the tab's fallback entry. */
  function LookupWithFallback(m: map<Key, string>, tabId: int, page: string): (url: Option<string>)
    ensures url.Some? ==> url == Truthy(m, Key(tabId, page)) || url == Truthy(m, Key(tabId, LastPage))
    ensures url.None? <==> Truthy(m, Key(tabId, page)).None? && Truthy(m, Key(tabId, LastPage)).None?
  {
    match Truthy(m, Key(tabId, page))
    case Some(u) => Some(u)
    case None => Truthy(m, Key(tabId, LastPage))
  }

  /** After the recorder has seen an image request, both lookups of its tab find it. */
  lemma LookupAfterRecord(m: map<Key, string>, ev: RequestEvent)
    requires Contains(ev.url, OriginalMarker)
    ensures LookupWithFallback(Record(m, ev), ev.tab, RecordedPage(ev)) == Some(ev.url)
    ensures LookupWithFallback(Record(m, ev), ev.tab, LastPage) == Some(ev.url)
  {
    ContainsNonEmpty(ev.url, OriginalMarker);
  }

  // ---------------------------------------------------------------------------
  // fetchNextImage's listener

  /**
   * The listener of `fetchNextImage` accepts a request of the awaited tab holding
   * "type=original" whose address parses and whose page key is the awaited page or "last".
   */
  predicate Accepts(ev: RequestEvent, tabId: int, pageNumber: string)
  {
    && ev.tab == tabId
    && Contains(ev.url, OriginalMarker)
    && ev.page.Param?
    && (PageKey(ev.page.value) == pageNumber || PageKey(ev.page.value) == LastPage)
  }

  /** The position of the first accepted event; `|events|` when none is (the wait times out). */
  function FirstAccepted(events: seq<RequestEvent>, tabId: int, pageNumber: string): (k: nat)
    ensures k <= |events|
  {
    if events == [] then 0
    else if Accepts(events[0], tabId, pageNumber) then 0
    else 1 + FirstAccepted(events[1..], tabId, pageNumber)
  }

  /** `FirstAccepted` finds the first accepted event: none before it is accepted, and it is. */
  lemma {:induction false} FirstAcceptedIsFirst(events: seq<RequestEvent>, tabId: int, pageNumber: string)
    ensures var k := FirstAccepted(events, tabId, pageNumber);
            && (forall j :: 0 <= j < k ==> !Accepts(events[j], tabId, pageNumber))
            && (k < |events| ==> Accepts(events[k], tabId, pageNumber))
  {
    if events != [] && !Accepts(events[0], tabId, pageNumber) {
      FirstAcceptedIsFirst(events[1..], tabId, pageNumber);
      var k := FirstAccepted(events, tabId, pageNumber);
      forall j | 0 <= j < k
        ensures !Accepts(events[j], tabId, pageNumber)
      {
        if j > 0 {
          assert events[j] == events[1..][j - 1];
        }
      }
    }
  }

  /** The number of events that arrive before the wait ends: through the accepted one, or all of them. */
  function Consumed(events: seq<RequestEvent>, tabId: int, pageNumber: string): (n: nat)
    ensures n <= |events|
  {
    var k := FirstAccepted(events, tabId, pageNumber);
    if k < |events| then k + 1 else |events|
  }

  // ---------------------------------------------------------------------------
  // The store

  datatype Status = Success | Fail

  /** A download that was started: the image URL, the page and the file name. */
  datatype Download = Download(url: string, page: int, filename: string)

  /**
   * What opening one page of the range brings: the new tab; the requests of any tab that
   * complete while the tab loads (`navigateToPage`); the requests that complete while
   * `fetchNextImage` waits; whether the download starts.
   */
  datatype PageRun = PageRun(downloadTab: int, loadEvents: seq<RequestEvent>, events: seq<RequestEvent>, downloadStarts: bool)

  /** The file name cap of `downloadPages`. */
  const DownloadNameLimit: nat := 100

  /** `${title} - ${page}.jpeg` */
  function PageFilename(title: string, page: int): string
  {
    title + " - " + IntToString(page) + ".jpeg"
  }

  /** A name longer than 100 characters becomes its first 97 characters and "..."; a shorter one stays. */
  function CutFilename(filename: string): (r: string)
    ensures |r| <= DownloadNameLimit
    ensures |filename| <= DownloadNameLimit ==> r == filename
    ensures |filename| > DownloadNameLimit ==>
              |r| == DownloadNameLimit && StartsWith(r, filename[..97]) && EndsWith(r, "...")
  {
    if |filename| > DownloadNameLimit then
      var r := filename[..97] + "...";
      assert r[..97] == filename[..97];
      r
    else filename
  }

  /** Cutting a cut name changes nothing. */
  lemma CutFilenameIdempotent(filename: string)
    ensures CutFilename(CutFilename(filename)) == CutFilename(filename)
  {
  }

  /** The store once the page's tab has loaded: the recorder has seen every request completed meanwhile. */
  function AfterLoad(m: map<Key, string>, run: PageRun): (r: map<Key, string>)
    ensures AllOriginal(m) ==> AllOriginal(r)
  {
    RecordAll(m, run.loadEvents)
  }

  /** The store once `fetchNextImage` has answered for `page` in the run's tab. */
  function AfterWait(m: map<Key, string>, run: PageRun, page: int): (r: map<Key, string>)
    ensures AllOriginal(m) ==> AllOriginal(r)
    ensures Truthy(m, Key(run.downloadTab, LastPage)).Some? ==> r == m
  {
    if Truthy(m, Key(run.downloadTab, LastPage)).Some? then m
    else RecordAll(m, run.events[..Consumed(run.events, run.downloadTab, IntToString(page))])
  }

  /**
   * The image URL `downloadPages` settles on for `page`, from the store `m` it finds when the
   * page's tab has opened: the tab's fallback entry; else the first accepted request; else,
   * once the wait has timed out, the `${tab}-${page}` entry or the `${tab}-last` entry.
   */
  function PageImageUrl(m: map<Key, string>, run: PageRun, page: int): (url: Option<string>)
  {
    var tab := run.downloadTab;
    var k := FirstAccepted(run.events, tab, IntToString(page));
    if Truthy(m, Key(tab, LastPage)).Some? then Truthy(m, Key(tab, LastPage))
    else if k < |run.events| then Some(run.events[k].url)
    else LookupWithFallback(AfterWait(m, run, page), tab, IntToString(page))
  }

  /** The download `downloadPages` starts for a page: its image URL under the cut file name, when the download starts. */
  function PageDownload(m: map<Key, string>, title: string, page: int, run: PageRun): (d: Option<Download>)
    ensures d.Some? ==> d.value.page == page
  {
    match PageImageUrl(m, run, page)
    case None => None
    case Some(url) => if run.downloadStarts then Some(Download(url, page, CutFilename(PageFilename(title, page)))) else None
  }

  /** The store once a page is done: what the wait recorded, without the entries of the closed tab. */
  function AfterPage(m: map<Key, string>, run: PageRun, page: int): (r: map<Key, string>)
    ensures AllOriginal(m) ==> AllOriginal(r)
    ensures forall k :: k in r ==> k.tab != run.downloadTab
  {
    Purge(AfterWait(m, run, page), run.downloadTab)
  }

  /**
   * The store after the first `n` pages of the range, from the store `m0` left by the initial
   * purge: each page records the requests completed while its tab loads and while it waits,
   * then drops the entries of its closed tab.
   */
  function StoreAfterPages(m0: map<Key, string>, runs: seq<PageRun>, startPage: int, n: nat): (m: map<Key, string>)
    requires n <= |runs|
    ensures AllOriginal(m0) ==> AllOriginal(m)
  {
    if n == 0 then m0
    else
      var prior := StoreAfterPages(m0, runs, startPage, n - 1);
      AfterPage(AfterLoad(prior, runs[n - 1]), runs[n - 1], startPage + n - 1)
  }

  /** The download of page `startPage + i` of the range, run from the store the earlier pages left. */
  function PageDownloads(m0: map<Key, string>, title: string, runs: seq<PageRun>, startPage: int): (f: nat -> Option<Download>)
  {
    (i: nat) => if i < |runs| then PageDownload(AfterLoad(StoreAfterPages(m0, runs, startPage, i), runs[i]), title, startPage + i, runs[i])
                else None
  }

  /** The downloads of the first `n` pages of the range, in page order. */
  function RangeDownloads(m0: map<Key, string>, title: string, runs: seq<PageRun>, startPage: int, n: nat): (ds: seq<Download>)
    requires n <= |runs|
    ensures |ds| <= n
  {
    Collect(PageDownloads(m0, title, runs, startPage), n)
  }

  /** The present values among `f(0)`, ..., `f(n - 1)`, in order. */
  function Collect(f: nat -> Option<Download>, n: nat): (ds: seq<Download>)
    ensures |ds| <= n
  {
    if n == 0 then [] else Collect(f, n - 1) + (if f(n - 1).Some? then [f(n - 1).value] else [])
  }

  /**
   * A page's download is for that page, under its cut file name, with a full-size image URL;
   * it starts whenever the tab reports an accepted request and the download itself starts; and
   * it starts exactly when the download starts and the fallback entry, an accepted request or
   * an entry found after the wait gives a URL.
   */
  lemma PageDownloadMeans(m: map<Key, string>, title: string, page: int, run: PageRun)
    requires AllOriginal(m)
    ensures var d := PageDownload(m, title, page, run);
            && (d.Some? ==> d.value.page == page && StartedDownload(d.value, DownloadName(title), run))
            && (PageFound(run, page) ==> d.Some?)
            && (d.Some? <==> run.downloadStarts
                             && (|| Truthy(m, Key(run.downloadTab, LastPage)).Some?
                                 || FirstAccepted(run.events, run.downloadTab, IntToString(page)) < |run.events|
                                 || LookupWithFallback(AfterWait(m, run, page), run.downloadTab, IntToString(page)).Some?))
  {
    var tab := run.downloadTab;
    var k := FirstAccepted(run.events, tab, IntToString(page));
    FirstAcceptedIsFirst(run.events, tab, IntToString(page));
    var url := PageImageUrl(m, run, page);
    if url.Some? {
      if Truthy(m, Key(tab, LastPage)).None? && k < |run.events| {
        assert Accepts(run.events[k], tab, IntToString(page));
      }
      assert Contains(url.value, OriginalMarker);
    }
  }

  /**
   * Where a page's image URL comes from: an entry of the page's own tab in the store it finds,
   * or a request of that tab; never an entry or a request of another tab.
   */
  lemma PageImageUrlOfOwnTab(m: map<Key, string>, run: PageRun, page: int)
    ensures var url := PageImageUrl(m, run, page);
            url.Some? ==> || (exists k :: k in m && k.tab == run.downloadTab && m[k] == url.value)
                          || (exists j :: 0 <= j < |run.events| && run.events[j].tab == run.downloadTab
                                                               && run.events[j].url == url.value)
  {
    var tab := run.downloadTab;
    var k := FirstAccepted(run.events, tab, IntToString(page));
    var url := PageImageUrl(m, run, page);
    FirstAcceptedIsFirst(run.events, tab, IntToString(page));
    if url.Some? {
      if Truthy(m, Key(tab, LastPage)).Some? {
        assert Key(tab, LastPage) in m;
      } else if k < |run.events| {
        assert Accepts(run.events[k], tab, IntToString(page));
      } else {
        var c := Consumed(run.events, tab, IntToString(page));
        var w := run.events[..c];
        var key := if Truthy(AfterWait(m, run, page), Key(tab, IntToString(page))).Some?
                   then Key(tab, IntToString(page)) else Key(tab, LastPage);
        RecordAllOrigin(m, w, key);
        if key !in m || RecordAll(m, w)[key] != m[key] {
          var j :| 0 <= j < |w| && w[j].tab == key.tab && w[j].url == RecordAll(m, w)[key];
          assert run.events[j] == w[j];
        }
      }
    }
  }

  /**
   * A page of the range has a download exactly when its own page, run from the store the
   * earlier pages left, starts one: `downloadPages` downloads no other pages and skips none.
   */
  lemma RangeDownloadsPages(m0: map<Key, string>, title: string, runs: seq<PageRun>, startPage: int, n: nat, i: nat)
    requires i < n <= |runs|
    ensures startPage + i in Pages(RangeDownloads(m0, title, runs, startPage, n))
            <==> PageDownload(AfterLoad(StoreAfterPages(m0, runs, startPage, i), runs[i]), title, startPage + i, runs[i]).Some?
  {
    PageDownloadsOwnPage(m0, title, runs, startPage);
    CollectPages(PageDownloads(m0, title, runs, startPage), startPage, n, i);
    PageDownloadsAt(m0, title, runs, startPage, i);
  }

  lemma PageDownloadsAt(m0: map<Key, string>, title: string, runs: seq<PageRun>, startPage: int, i: nat)
    requires i < |runs|
    ensures PageDownloads(m0, title, runs, startPage)(i)
            == PageDownload(AfterLoad(StoreAfterPages(m0, runs, startPage, i), runs[i]), title, startPage + i, runs[i])
  {
  }

  /** One more page: its download, if any, is appended, and the store becomes the one after that page. */
  lemma RangeStep(m0: map<Key, string>, title: string, runs: seq<PageRun>, startPage: int, i: nat)
    requires i < |runs|
    ensures var m := AfterLoad(StoreAfterPages(m0, runs, startPage, i), runs[i]);
            var d := PageDownload(m, title, startPage + i, runs[i]);
            && RangeDownloads(m0, title, runs, startPage, i + 1) == RangeDownloads(m0, title, runs, startPage, i) + Present(d)
            && StoreAfterPages(m0, runs, startPage, i + 1) == AfterPage(m, runs[i], startPage + i)
  {
    PageDownloadsAt(m0, title, runs, startPage, i);
  }

  lemma PageDownloadsOwnPage(m0: map<Key, string>, title: string, runs: seq<PageRun>, startPage: int)
    ensures var f := PageDownloads(m0, title, runs, startPage);
            forall j: nat :: f(j).Some? ==> f(j).value.page == startPage + j
  {
    var f := PageDownloads(m0, title, runs, startPage);
    forall j: nat | f(j).Some?
      ensures f(j).value.page == startPage + j
    {
      if j < |runs| {
        var d := PageDownload(AfterLoad(StoreAfterPages(m0, runs, startPage, j), runs[j]), title, startPage + j, runs[j]);
        assert f(j) == d;
      }
    }
  }

  /** When `f(j)` is always a download of page `startPage + j`, page `startPage + i` is collected exactly when `f(i)` is present. */
  lemma {:induction false} CollectPages(f: nat -> Option<Download>, startPage: int, n: nat, i: nat)
    requires forall j: nat :: f(j).Some? ==> f(j).value.page == startPage + j
    requires i < n
    ensures startPage + i in Pages(Collect(f, n)) <==> f(i).Some?
  {
    PagesAppend(Collect(f, n - 1), f(n - 1));
    if i < n - 1 {
      CollectPages(f, startPage, n - 1, i);
    } else {
      CollectBelow(f, startPage, n - 1);
    }
  }

  lemma {:induction false} CollectBelow(f: nat -> Option<Download>, startPage: int, n: nat)
    requires forall j: nat :: f(j).Some? ==> f(j).value.page == startPage + j
    ensures forall p :: p in Pages(Collect(f, n)) ==> startPage <= p < startPage + n
  {
    if n > 0 {
      CollectBelow(f, startPage, n - 1);
      PagesAppend(Collect(f, n - 1), f(n - 1));
    }
  }

  lemma PagesAppend(downloads: seq<Download>, d: Option<Download>)
    ensures Pages(downloads + (if d.Some? then [d.value] else [])) == Pages(downloads) + (if d.Some? then {d.value.page} else {})
  {
    if d.Some? {
      PagesSnoc(downloads, d.value);
    } else {
      assert downloads + [] == downloads;
    }
  }

  /** Every entry of a store after recording was in the store before, or is the URL of a recorded request of its tab. */
  lemma {:induction false} RecordAllOrigin(m: map<Key, string>, events: seq<RequestEvent>, k: Key)
    requires k in RecordAll(m, events)
    ensures || (k in m && RecordAll(m, events)[k] == m[k])
            || (exists j :: 0 <= j < |events| && events[j].tab == k.tab && events[j].url == RecordAll(m, events)[k])
  {
    if events != [] {
      var init := events[..|events| - 1];
      var ev := events[|events| - 1];
      var before := RecordAll(m, init);
      if k == Key(ev.tab, RecordedPage(ev)) || k == Key(ev.tab, LastPage) {
        if Contains(ev.url, OriginalMarker) {
          assert events[|events| - 1].url == RecordAll(m, events)[k];
        } else {
          RecordAllOrigin(m, init, k);
          if !(k in m && before[k] == m[k]) {
            var j :| 0 <= j < |init| && init[j].tab == k.tab && init[j].url == before[k];
            assert events[j] == init[j];
          }
        }
      } else {
        RecordAllOrigin(m, init, k);
        if !(k in m && before[k] == m[k]) {
          var j :| 0 <= j < |init| && init[j].tab == k.tab && init[j].url == before[k];
          assert events[j] == init[j];
        }
      }
    }
  }

  /** `events[j]` is the last full-size image request of `tab` among `events`. */
  predicate LastOriginalOfTab(events: seq<RequestEvent>, tab: int, j: int)
  {
    && 0 <= j < |events|
    && events[j].tab == tab
    && Contains(events[j].url, OriginalMarker)
    && forall i :: j < i < |events| && events[i].tab == tab ==> !Contains(events[i].url, OriginalMarker)
  }

  /** Once the last full-size request of a tab is recorded, the tab's "last" entry holds its URL. */
  lemma {:induction false} RecordAllKeepsLast(m: map<Key, string>, events: seq<RequestEvent>, tab: int, j: nat, n: nat)
    requires j < n <= |events|
    requires LastOriginalOfTab(events, tab, j)
    ensures Key(tab, LastPage) in RecordAll(m, events[..n])
    ensures RecordAll(m, events[..n])[Key(tab, LastPage)] == events[j].url
  {
    RecordAllStep(m, events, n - 1);
    if j < n - 1 {
      RecordAllKeepsLast(m, events, tab, j, n - 1);
      var ev := events[n - 1];
      if Contains(ev.url, OriginalMarker) {
        assert ev.tab != tab;
      }
    }
  }

  /**
   * The usual path of `downloadPages`: when the page's tab completes a full-size image request
   * while it loads, `fetchNextImage` answers at once with the last such request's URL, and the
   * wait records nothing.
   */
  lemma LoadedImageIsTaken(m: map<Key, string>, run: PageRun, page: int, j: nat)
    requires LastOriginalOfTab(run.loadEvents, run.downloadTab, j)
    ensures PageImageUrl(AfterLoad(m, run), run, page) == Some(run.loadEvents[j].url)
    ensures AfterWait(AfterLoad(m, run), run, page) == AfterLoad(m, run)
  {
    RecordAllKeepsLast(m, run.loadEvents, run.downloadTab, j, |run.loadEvents|);
    assert run.loadEvents[..|run.loadEvents|] == run.loadEvents;
    ContainsNonEmpty(run.loadEvents[j].url, OriginalMarker);
  }

  /** A present value among the first `n` is collected. */
  lemma {:induction false} CollectHas(f: nat -> Option<Download>, n: nat, i: nat)
    requires i < n && f(i).Some?
    ensures f(i).value in Collect(f, n)
  {
    if i < n - 1 {
      CollectHas(f, n - 1, i);
    }
  }

  /**
   * A page whose tab completed a full-size image request while loading, and whose download
   * starts, is downloaded from the last such request's URL under its cut file name, whatever
   * the earlier pages left in the store.
   */
  lemma LoadTimeImageDownloaded(m0: map<Key, string>, title: string, runs: seq<PageRun>, startPage: int, i: nat, j: nat)
    requires i < |runs| && runs[i].downloadStarts
    requires LastOriginalOfTab(runs[i].loadEvents, runs[i].downloadTab, j)
    ensures Download(runs[i].loadEvents[j].url, startPage + i, CutFilename(PageFilename(title, startPage + i)))
            in RangeDownloads(m0, title, runs, startPage, |runs|)
  {
    LoadedImageIsTaken(StoreAfterPages(m0, runs, startPage, i), runs[i], startPage + i, j);
    PageDownloadsAt(m0, title, runs, startPage, i);
    CollectHas(PageDownloads(m0, title, runs, startPage), |runs|, i);
  }

  /** The requests of `events` that do not come from tab `tabId`, in order. */
  function OtherTabs(events: seq<RequestEvent>, tabId: int): (r: seq<RequestEvent>)
    ensures |r| <= |events|
    ensures forall i :: 0 <= i < |r| ==> r[i].tab != tabId
  {
    if events == [] then []
    else
      var ev := events[|events| - 1];
      OtherTabs(events[..|events| - 1], tabId) + (if ev.tab != tabId then [ev] else [])
  }

  /**
   * Requests recorded before a tab is purged leave what recording only the other tabs'
   * requests after the purge leaves: the requests that complete after a page's URL is settled
   * and before its tab's entries go may be counted among the next page's load requests.
   */
  lemma {:induction false} PurgeRecordAllCommute(m: map<Key, string>, events: seq<RequestEvent>, tabId: int)
    ensures Purge(RecordAll(m, events), tabId) == RecordAll(Purge(m, tabId), OtherTabs(events, tabId))
  {
    if events != [] {
      var init := events[..|events| - 1];
      var ev := events[|events| - 1];
      var others := OtherTabs(init, tabId);
      PurgeRecordAllCommute(m, init, tabId);
      assert RecordAll(m, events) == Record(RecordAll(m, init), ev);
      if ev.tab == tabId {
        assert OtherTabs(events, tabId) == others + [] == others;
        PurgeAfterRecord(RecordAll(m, init), ev);
        assert Purge(RecordAll(m, events), tabId) == Purge(RecordAll(m, init), tabId);
      } else {
        PurgeRecordCommute(RecordAll(m, init), ev, tabId);
        assert (others + [ev])[..|others|] == others;
      }
    }
  }

  /**
   * Where a page's image URL comes from, from the store the earlier pages left: an entry of
   * the page's own tab, or a request of that tab made while it loaded or while it was awaited.
   */
  lemma PageImageUrlOrigin(m: map<Key, string>, run: PageRun, page: int)
    ensures var url := PageImageUrl(AfterLoad(m, run), run, page);
            url.Some? ==> || (exists k :: k in m && k.tab == run.downloadTab && m[k] == url.value)
                          || (exists j :: 0 <= j < |run.loadEvents| && run.loadEvents[j].tab == run.downloadTab
                                                                   && run.loadEvents[j].url == url.value)
                          || (exists j :: 0 <= j < |run.events| && run.events[j].tab == run.downloadTab
                                                               && run.events[j].url == url.value)
  {
    var loaded := AfterLoad(m, run);
    var url := PageImageUrl(loaded, run, page);
    PageImageUrlOfOwnTab(loaded, run, page);
    if url.Some? && exists k :: k in loaded && k.tab == run.downloadTab && loaded[k] == url.value {
      var k :| k in loaded && k.tab == run.downloadTab && loaded[k] == url.value;
      RecordAllOrigin(m, run.loadEvents, k);
    }
  }

  /** The module-level `imageUrls` map of the background script. */
  class InterceptionStore {
    var urls: map<Key, string>

    ghost predicate Valid()
      reads this
    {
      AllOriginal(urls)
    }

    constructor ()
      ensures urls == map[] && Valid()
    {
      urls := map[];
    }

    /** The `webRequest.onCompleted` listener. */
    method OnCompleted(ev: RequestEvent)
      requires Valid()
      modifies this
      ensures Valid()
      ensures urls == Record(old(urls), ev)
    {
      if !Contains(ev.url, OriginalMarker) {
        return;
      }
      var page := match ev.page
                  case Unparsable => LastPage
                  case Param(p) => PageKey(p);
      urls := urls[Key(ev.tab, page) := ev.url];
      urls := urls[Key(ev.tab, LastPage) := ev.url];
    }

    /**
     * The deletion loop of the `tabs.onRemoved` listener, also run by `downloadPages` for its
     * originating tab: every key starting with `${tabId}-` is deleted.
     */
    method DeleteTabEntries(tabId: int)
      requires Valid()
      modifies this
      ensures Valid()
      ensures urls == Purge(old(urls), tabId)
    {
      var keys := urls.Keys;
      ghost var before := urls;
      while keys != {}
        invariant keys <= before.Keys
        invariant urls.Keys == (set k | k in before && (k in keys || k.tab != tabId))
        invariant forall k :: k in urls ==> urls[k] == before[k]
        decreases |keys|
      {
        var k :| k in keys;
        KeyPrefixIsTab(k, tabId);
        if StartsWith(KeyString(k), IntToString(tabId) + "-") {
          urls := urls - {k};
        }
        keys := keys - {k};
      }
      assert urls.Keys == Purge(before, tabId).Keys;
    }

    /**
     * `fetchNextImage(tabId, pageNumber)`: the tab's fallback entry when it is set; otherwise
     * the URL of the first accepted request among `events`, or None when the wait times out.
     * The recorder sees each arriving event before the listener does.
     */
    method FetchNextImage(tabId: int, pageNumber: string, events: seq<RequestEvent>) returns (url: Option<string>)
      requires Valid()
      modifies this
      ensures Valid()
      ensures Truthy(old(urls), Key(tabId, LastPage)).Some? ==>
                url == Truthy(old(urls), Key(tabId, LastPage)) && urls == old(urls)
      ensures Truthy(old(urls), Key(tabId, LastPage)).None? ==>
                && var k := FirstAccepted(events, tabId, pageNumber);
                   && url == (if k < |events| then Some(events[k].url) else None)
                   && urls == RecordAll(old(urls), events[..Consumed(events, tabId, pageNumber)])
    {
      var fallback := Truthy(urls, Key(tabId, LastPage));
      if fallback.Some? {
        return fallback;
      }
      url := AwaitImage(tabId, pageNumber, events);
    }

    /**
     * The promise of `fetchNextImage` without a fallback entry: the listener takes the first
     * accepted request, or the timeout gives None once no event is left. The recorder sees
     * each arriving event before the listener does.
     */
    method AwaitImage(tabId: int, pageNumber: string, events: seq<RequestEvent>) returns (url: Option<string>)
      requires Valid()
      modifies this
      ensures Valid()
      ensures var k := FirstAccepted(events, tabId, pageNumber);
              && url == (if k < |events| then Some(events[k].url) else None)
              && urls == RecordAll(old(urls), events[..Consumed(events, tabId, pageNumber)])
    {
      ghost var before := urls;
      ghost var first := FirstAccepted(events, tabId, pageNumber);
      FirstAcceptedIsFirst(events, tabId, pageNumber);
      var done := false;
      url := None;
      var i := 0;
      while i < |events| && !done
        invariant 0 <= i <= |events|
        invariant Valid()
        invariant urls == RecordAll(before, events[..i])
        invariant !done ==> i <= first && url == None
        invariant done ==> i == first + 1 && url == Some(events[first].url)
      {
        var ev := events[i];
        OnCompleted(ev);
        RecordAllStep(before, events, i);
        if Accepts(ev, tabId, pageNumber) {
          done := true;
          url := Some(ev.url);
        }
        i := i + 1;
      }
      assert i == Consumed(events, tabId, pageNumber);
    }

    /**
     * `downloadPages`: purges the originating tab's entries, then for each page from
     * `startPage` to `endPage` opens the page in a new tab (`visited` lists the pages in
     * order), waits for its image URL, falls back to the stored entries, starts the download
     * under the cut file name, and closes the tab on every path (`closed` lists the tabs).
     * The answer is Success exactly when a download started. `runs[k]` is what the tab of
     * page `startPage + k` brings.
     */
    method DownloadPages(tabId: int, title: string, startPage: int, endPage: int, runs: seq<PageRun>)
      returns (status: Status, downloads: seq<Download>, visited: seq<int>, closed: seq<int>)
      requires Valid()
      requires |runs| == RangeLength(startPage, endPage)
      modifies this
      ensures Valid()
      ensures status == Success <==> |downloads| > 0
      ensures |downloads| <= |runs|
      ensures |visited| == |closed| == |runs|
      ensures visited == PageRange(startPage, |runs|)
      ensures closed == DownloadTabs(runs, |runs|)
      ensures downloads == RangeDownloads(Purge(old(urls), tabId), title, runs, startPage, |runs|)
      ensures urls == StoreAfterPages(Purge(old(urls), tabId), runs, startPage, |runs|)
      ensures DownloadsSoFar(downloads, DownloadName(title), runs, startPage, |runs|)
    {
      var downloaded := 0;
      downloads, visited, closed := [], [], [];
      DeleteTabEntries(tabId);
      ghost var m0 := urls;
      for i := 0 to |runs|
        invariant Valid()
        invariant downloaded == |downloads| <= i
        invariant visited == PageRange(startPage, i)
        invariant closed == DownloadTabs(runs, i)
        invariant downloads == RangeDownloads(m0, title, runs, startPage, i)
        invariant urls == StoreAfterPages(m0, runs, startPage, i)
      {
        var started;
        downloads, visited, closed, started := VisitPage(title, runs, startPage, i, downloads, visited, closed, m0);
        if started {
          downloaded := downloaded + 1;
        }
      }
      status := if downloaded > 0 then Success else Fail;
      RangeDownloadsSoFar(m0, title, runs, startPage, |runs|);
    }

    /**
     * Page `startPage + i` of `downloadPages`: open its tab, download its image if one turns
     * up, close the tab. `started` tells whether a download started.
     */
    method VisitPage(title: string, runs: seq<PageRun>, startPage: int, i: nat,
                     downloads: seq<Download>, visited: seq<int>, closed: seq<int>, ghost m0: map<Key, string>)
      returns (downloads': seq<Download>, visited': seq<int>, closed': seq<int>, started: bool)
      requires Valid()
      requires i < |runs|
      requires downloads == RangeDownloads(m0, title, runs, startPage, i) && urls == StoreAfterPages(m0, runs, startPage, i)
      requires visited == PageRange(startPage, i) && closed == DownloadTabs(runs, i)
      modifies this
      ensures Valid()
      ensures downloads' == RangeDownloads(m0, title, runs, startPage, i + 1) && urls == StoreAfterPages(m0, runs, startPage, i + 1)
      ensures visited' == PageRange(startPage, i + 1) && closed' == DownloadTabs(runs, i + 1)
      ensures |downloads'| == |downloads| + (if started then 1 else 0)
    {
      visited' := visited + [startPage + i];
      RangeStep(m0, title, runs, startPage, i);
      var download := DownloadPage(title, startPage + i, runs[i]);
      closed' := closed + [runs[i].downloadTab];
      started := download.Some?;
      downloads' := downloads + Present(download);
    }

    /**
     * `navigateToPage`: opens the page in a new tab and waits until it has loaded; the
     * recorder sees every request that completes meanwhile, whichever tab it comes from.
     */
    method NavigateToPage(run: PageRun) returns (downloadTabId: int)
      requires Valid()
      modifies this
      ensures Valid()
      ensures downloadTabId == run.downloadTab
      ensures urls == AfterLoad(old(urls), run)
    {
      ghost var before := urls;
      for i := 0 to |run.loadEvents|
        invariant Valid()
        invariant urls == RecordAll(before, run.loadEvents[..i])
      {
        OnCompleted(run.loadEvents[i]);
        RecordAllStep(before, run.loadEvents, i);
      }
      assert run.loadEvents[..|run.loadEvents|] == run.loadEvents;
      downloadTabId := run.downloadTab;
    }

    /**
     * One page of `downloadPages`: open its tab and let it load, wait for the image URL, fall
     * back to the stored entries, start the download under the cut file name, and close the
     * tab (which purges its entries) on every path.
     */
    method DownloadPage(title: string, page: int, run: PageRun) returns (download: Option<Download>)
      requires Valid()
      modifies this
      ensures Valid()
      ensures download == PageDownload(AfterLoad(old(urls), run), title, page, run)
      ensures urls == AfterPage(AfterLoad(old(urls), run), run, page)
      ensures download.Some? ==> download.value.page == page && StartedDownload(download.value, DownloadName(title), run)
      ensures PageFound(run, page) ==> download.Some?
    {
      var downloadTabId := NavigateToPage(run);
      ghost var before := urls;
      FirstAcceptedIsFirst(run.events, downloadTabId, IntToString(page));
      PageDownloadMeans(before, title, page, run);
      var imageUrl := FetchNextImage(downloadTabId, IntToString(page), run.events);
      assert urls == AfterWait(before, run, page);
      if imageUrl.Some? && Truthy(before, Key(downloadTabId, LastPage)).None? {
        var k := FirstAccepted(run.events, downloadTabId, IntToString(page));
        assert Accepts(run.events[k], downloadTabId, IntToString(page));
        ContainsNonEmpty(imageUrl.value, OriginalMarker);
      }
      if imageUrl.None? || imageUrl.value == [] {
        imageUrl := LookupWithFallback(urls, downloadTabId, IntToString(page));
      }
      assert imageUrl == PageImageUrl(before, run, page);
      if imageUrl.None? || imageUrl.value == [] || !run.downloadStarts {
        DeleteTabEntries(downloadTabId);
        return None;
      }
      var filename := CutFilename(PageFilename(title, page));
      download := Some(Download(imageUrl.value, page, filename));
      DeleteTabEntries(downloadTabId);
    }
  }

  /** A download `downloadPages` starts: its page's download started, under the cut file name, for a full-size image URL. */
  predicate StartedDownload(d: Download, name: int -> string, run: PageRun)
  {
    && run.downloadStarts
    && d.filename == name(d.page)
    && Contains(d.url, OriginalMarker)
  }

  /** The file name `downloadPages` gives each page: the page file name, cut to 100 characters. */
  function DownloadName(title: string): int -> string
  {
    page => CutFilename(PageFilename(title, page))
  }

  /**
   * What `downloadPages` has achieved after the first `n` pages of the range: the downloads
   * are for those pages, in ascending order, each one started, and every page that should
   * have started a download did.
   */
  ghost predicate DownloadsSoFar(downloads: seq<Download>, name: int -> string, runs: seq<PageRun>, startPage: int, n: nat)
    requires n <= |runs|
  {
    && StartedInOrder(downloads, name, runs, startPage)
    && (downloads != [] ==> downloads[|downloads| - 1].page < startPage + n)
    && FoundPages(runs, startPage, n) <= Pages(downloads)
  }

  /**
   * Spelled out: each download is for a page of the range, started under the cut file name
   * with a full-size image URL; the pages ascend; and every page whose tab reported an
   * accepted image request and whose download started has a download.
   */
  lemma DownloadsSoFarMeans(downloads: seq<Download>, name: int -> string, runs: seq<PageRun>, startPage: int, n: nat)
    requires n <= |runs|
    requires DownloadsSoFar(downloads, name, runs, startPage, n)
    ensures forall k :: 0 <= k < |downloads| ==>
              && startPage <= downloads[k].page < startPage + n
              && StartedDownload(downloads[k], name, runs[downloads[k].page - startPage])
    ensures forall j, k :: 0 <= j < k < |downloads| ==> downloads[j].page < downloads[k].page
    ensures forall i :: 0 <= i < n && PageFound(runs[i], startPage + i) ==> startPage + i in Pages(downloads)
  {
    StartedInOrderElements(downloads, name, runs, startPage);
    forall i | 0 <= i < n && PageFound(runs[i], startPage + i)
      ensures startPage + i in Pages(downloads)
    {
      FoundPagesMembers(runs, startPage, n, i);
    }
  }

  lemma DownloadsSoFarSnoc(downloads: seq<Download>, d: Download, name: int -> string, runs: seq<PageRun>, startPage: int, n: nat)
    requires n < |runs|
    requires DownloadsSoFar(downloads, name, runs, startPage, n)
    requires d.page == startPage + n && StartedDownload(d, name, runs[n])
    ensures DownloadsSoFar(downloads + [d], name, runs, startPage, n + 1)
  {
    assert (downloads + [d])[..|downloads|] == downloads;
    assert StartedInOrder(downloads + [d], name, runs, startPage);
    PagesSnoc(downloads, d);
  }

  /** The download of a page, if any, as a list of zero or one. */
  function Present(d: Option<Download>): (ds: seq<Download>)
    ensures |ds| == (if d.Some? then 1 else 0)
  {
    if d.Some? then [d.value] else []
  }

  /**
   * The downloads of the first `n` pages achieve what `downloadPages` promises so far, from
   * any store holding only full-size image URLs.
   */
  lemma {:induction false} RangeDownloadsSoFar(m0: map<Key, string>, title: string, runs: seq<PageRun>, startPage: int, n: nat)
    requires AllOriginal(m0)
    requires n <= |runs|
    ensures DownloadsSoFar(RangeDownloads(m0, title, runs, startPage, n), DownloadName(title), runs, startPage, n)
  {
    if n > 0 {
      var k := n - 1;
      var prior := RangeDownloads(m0, title, runs, startPage, k);
      RangeDownloadsSoFar(m0, title, runs, startPage, k);
      RangeStep(m0, title, runs, startPage, k);
      var m := AfterLoad(StoreAfterPages(m0, runs, startPage, k), runs[k]);
      PageDownloadMeans(m, title, startPage + k, runs[k]);
      DownloadsSoFarStep(prior, PageDownload(m, title, startPage + k, runs[k]), DownloadName(title), runs, startPage, k);
    }
  }

  lemma DownloadsSoFarStep(downloads: seq<Download>, d: Option<Download>, name: int -> string, runs: seq<PageRun>, startPage: int, n: nat)
    requires n < |runs|
    requires DownloadsSoFar(downloads, name, runs, startPage, n)
    requires d.Some? ==> d.value.page == startPage + n && StartedDownload(d.value, name, runs[n])
    requires d.None? ==> !PageFound(runs[n], startPage + n)
    ensures DownloadsSoFar(downloads + Present(d), name, runs, startPage, n + 1)
  {
    if d.Some? {
      DownloadsSoFarSnoc(downloads, d.value, name, runs, startPage, n);
    } else {
      assert downloads + Present(d) == downloads;
      DownloadsSoFarSkip(downloads, name, runs, startPage, n);
    }
  }

  lemma DownloadsSoFarSkip(downloads: seq<Download>, name: int -> string, runs: seq<PageRun>, startPage: int, n: nat)
    requires n < |runs|
    requires DownloadsSoFar(downloads, name, runs, startPage, n)
    requires !PageFound(runs[n], startPage + n)
    ensures DownloadsSoFar(downloads, name, runs, startPage, n + 1)
  {
  }

  /**
   * Every download of the list is started, for a page of the range starting at `startPage`,
   * and each one's page comes after the previous one's.
   */
  predicate StartedInOrder(downloads: seq<Download>, name: int -> string, runs: seq<PageRun>, startPage: int)
  {
    if downloads == [] then true
    else
      var init := downloads[..|downloads| - 1];
      var d := downloads[|downloads| - 1];
      && StartedInOrder(init, name, runs, startPage)
      && (init != [] ==> init[|init| - 1].page < d.page)
      && 0 <= d.page - startPage < |runs|
      && StartedDownload(d, name, runs[d.page - startPage])
  }

  lemma {:induction false} StartedInOrderElements(downloads: seq<Download>, name: int -> string, runs: seq<PageRun>, startPage: int)
    requires StartedInOrder(downloads, name, runs, startPage)
    ensures forall k :: 0 <= k < |downloads| ==>
              0 <= downloads[k].page - startPage < |runs| && StartedDownload(downloads[k], name, runs[downloads[k].page - startPage])
    ensures forall j, k :: 0 <= j < k < |downloads| ==> downloads[j].page < downloads[k].page
  {
    if downloads != [] {
      var init := downloads[..|downloads| - 1];
      StartedInOrderElements(init, name, runs, startPage);
      assert forall k :: 0 <= k < |init| ==> init[k] == downloads[k];
    }
  }

  /** The first `n` pages from `startPage`, in the order their tabs are opened. */
  function PageRange(startPage: int, n: nat): (pages: seq<int>)
    ensures |pages| == n
  {
    if n == 0 then [] else PageRange(startPage, n - 1) + [startPage + n - 1]
  }

  /** The `k`-th page visited is `startPage + k`: the pages ascend one by one. */
  lemma {:induction false} PageRangeInOrder(startPage: int, n: nat)
    ensures forall k :: 0 <= k < n ==> PageRange(startPage, n)[k] == startPage + k
  {
    if n > 0 {
      PageRangeInOrder(startPage, n - 1);
    }
  }

  /** The tabs opened for the first `n` pages, in order: the ones `downloadPages` closes. */
  function DownloadTabs(runs: seq<PageRun>, n: nat): (tabs: seq<int>)
    requires n <= |runs|
    ensures |tabs| == n
  {
    if n == 0 then [] else DownloadTabs(runs, n - 1) + [runs[n - 1].downloadTab]
  }

  /** The `k`-th tab closed is the one opened for the `k`-th page. */
  lemma {:induction false} DownloadTabsInOrder(runs: seq<PageRun>, n: nat)
    requires n <= |runs|
    ensures forall k :: 0 <= k < n ==> DownloadTabs(runs, n)[k] == runs[k].downloadTab
  {
    if n > 0 {
      DownloadTabsInOrder(runs, n - 1);
    }
  }

  /** The pages of a list of downloads. */
  function Pages(downloads: seq<Download>): set<int>
  {
    if downloads == [] then {} else Pages(downloads[..|downloads| - 1]) + {downloads[|downloads| - 1].page}
  }

  lemma PagesSnoc(downloads: seq<Download>, d: Download)
    ensures Pages(downloads + [d]) == Pages(downloads) + {d.page}
  {
    assert (downloads + [d])[..|downloads|] == downloads;
  }

  /** The pages among the first `n` of the range starting at `startPage` whose download should start. */
  ghost function FoundPages(runs: seq<PageRun>, startPage: int, n: nat): set<int>
    requires n <= |runs|
  {
    if n == 0 then {}
    else FoundPages(runs, startPage, n - 1) + (if PageFound(runs[n - 1], startPage + n - 1) then {startPage + n - 1} else {})
  }

  /** A page of the first `n` is among the found ones exactly when its download should start. */
  lemma {:induction false} FoundPagesMembers(runs: seq<PageRun>, startPage: int, n: nat, i: nat)
    requires n <= |runs| && i < n
    ensures startPage + i in FoundPages(runs, startPage, n) <==> PageFound(runs[i], startPage + i)
  {
    if i < n - 1 {
      FoundPagesMembers(runs, startPage, n - 1, i);
    } else {
      FoundPagesBelow(runs, startPage, n - 1);
    }
  }

  lemma {:induction false} FoundPagesBelow(runs: seq<PageRun>, startPage: int, n: nat)
    requires n <= |runs|
    ensures forall p :: p in FoundPages(runs, startPage, n) ==> startPage <= p < startPage + n
  {
    if n > 0 {
      FoundPagesBelow(runs, startPage, n - 1);
    }
  }

  /** The download of a page starts whenever its tab reports an accepted image request and the download itself starts. */
  predicate PageFound(run: PageRun, page: int)
  {
    run.downloadStarts && FirstAccepted(run.events, run.downloadTab, IntToString(page)) < |run.events|
  }

  // ---------------------------------------------------------------------------
  // Message handlers

  datatype RangeError = InvalidRange

  /** `downloadRangeImages`: both bounds must parse as integers and the end must not precede the start. */
  function ValidateRange(startInput: string, endInput: string): (r: Result<(int, int), RangeError>)
    ensures r.Ok? <==> ParseInt(startInput).Some? && ParseInt(endInput).Some?
                       && ParseInt(startInput).value <= ParseInt(endInput).value
    ensures r.Ok? ==> r.value == (ParseInt(startInput).value, ParseInt(endInput).value)
  {
    match (ParseInt(startInput), ParseInt(endInput))
    case (Some(s), Some(e)) => if e < s then Err(InvalidRange) else Ok((s, e))
    case _ => Err(InvalidRange)
  }

  /** Page numbers written out in decimal are accepted exactly when they are in order. */
  lemma ValidateRangeOfNumbers(a: nat, b: nat)
    ensures ValidateRange(NatToString(a), NatToString(b)) == if a <= b then Ok((a, b)) else Err(InvalidRange)
  {
    ParseIntOfNatToString(a);
    ParseIntOfNatToString(b);
  }

  /** The active tab as `chrome.tabs.query` reports it. */
  datatype TabInfo = TabInfo(id: int, url: string)

  /** `/^https:\/\/(ya\.ru|yandex\.ru)\/archive/`: a page of the Yandex Archive. */
  predicate IsArchivePage(url: string)
  {
    StartsWith(url, "https://ya.ru/archive") || StartsWith(url, "https://yandex.ru/archive")
  }

  /** `url.split('/').pop().split('?')[0]`: the last path segment without its query. */
  function PageSegment(url: string): (pn: string)
    ensures '?' !in pn
  {
    var parts := Split(LastPart(url, '/'), '?');
    SplitPartsLackSeparator(LastPart(url, '/'), '?');
    parts[0]
  }

  /**
   * The `getImageUrl` handler: for an archive page in the active tab, the entry of the page
   * segment of its address, else the tab's fallback entry; None when there is no such tab,
   * the tab is not an archive page, or neither entry is set.
   */
  function GetImageUrl(m: map<Key, string>, tab: Option<TabInfo>): (url: Option<string>)
    ensures url.Some? ==> tab.Some? && IsArchivePage(tab.value.url) && url.value != []
    ensures url.Some? ==> url == Truthy(m, Key(tab.value.id, PageSegment(tab.value.url)))
                          || url == Truthy(m, Key(tab.value.id, LastPage))
  {
    match tab
    case None => None
    case Some(t) =>
      if !IsArchivePage(t.url) then None
      else LookupWithFallback(m, t.id, PageSegment(t.url))
  }

  /** The page segment of `${base}/${n}` and of `${base}/${n}?${query}` is n. */
  lemma PageSegmentOfPageUrl(base: string, n: nat, query: string)
    requires '/' !in query
    ensures PageSegment(base + "/" + NatToString(n)) == NatToString(n)
    ensures PageSegment(base + "/" + NatToString(n) + "?" + query) == NatToString(n)
  {
    var digits := NatToString(n);
    assert '/' !in digits && '?' !in digits by {
      assert forall k :: 0 <= k < |digits| ==> IsDigit(digits[k]);
    }
    assert base + "/" + digits == base + ['/'] + digits;
    SplitAtSeparator(base, digits, '/');
    SplitWithoutSeparator(digits, '/');
    SplitWithoutSeparator(digits, '?');
    var tail := digits + "?" + query;
    assert base + "/" + digits + "?" + query == base + ['/'] + tail;
    assert '/' !in tail by {
      assert tail == digits + ['?'] + query;
    }
    SplitAtSeparator(base, tail, '/');
    SplitWithoutSeparator(tail, '/');
    assert tail == digits + ['?'] + query;
    SplitAtSeparator(digits, query, '?');
  }

  /**
   * After the recorder has seen the image request of an archive page `${base}/${n}` in that
   * tab, `getImageUrl` answers its URL.
   */
  lemma ImageUrlAfterRecord(m: map<Key, string>, ev: RequestEvent, base: string, n: nat)
    requires Contains(ev.url, OriginalMarker) && RecordedPage(ev) == NatToString(n)
    requires IsArchivePage(base + "/" + NatToString(n))
    ensures GetImageUrl(Record(m, ev), Some(TabInfo(ev.tab, base + "/" + NatToString(n)))) == Some(ev.url)
  {
    PageSegmentOfPageUrl(base, n, "");
    LookupAfterRecord(m, ev);
  }
}
