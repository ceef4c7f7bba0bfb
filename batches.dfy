/**
 * The range loops of the popup (popup.js): the Yandex Archive ZIP loop
 * (`processZipDownloadYA`), the page range and page loop of the Presidential Library
 * handler (`handleDownloadPagesPrLib`) and the image loop of the Goskatalog lot handler
 * (`handleDownloadLotGoskatalog`). Tabs, messages, fetches and JSZip are replaced by the
 * outcome each page had; an archive is a map from entry name to its contents, as
 * `zip.file(name, blob)` overwrites an entry of the same name.
 */
module Batches {
  import opened Common
  import opened Text
  import opened Filenames
  import ContentScript
  import Background
  import Tiles

  type Bytes = seq<bv8>

  // ---------------------------------------------------------------------------
  // Yandex Archive: processZipDownloadYA

  /** What fetching a page's image gave: an error, or the bytes received (possibly none). */
  datatype BlobFetch = BlobFailed | Fetched(bytes: Bytes)

  /**
   * One page of the range: its temporary tab failed to load (the navigation closes it
   * itself), or it loaded as `tab`, the background script answered with an image URL or
   * none, and fetching that image gave `blob`.
   */
  datatype YaPage = NavigationFailed | Loaded(tab: TabId, imageUrl: Option<string>, blob: BlobFetch)

  /** The archive built so far and the set of image URLs already taken (`collectedUrls`). */
  datatype ZipState = ZipState(entries: map<string, Bytes>, collected: set<string>)

  datatype ZipError = NoEntries | ZipDownloadRejected

  /** Whether a page's answer carries a usable URL: present and not empty. */
  predicate HasImageUrl(p: YaPage)
  {
    p.Loaded? && p.imageUrl.Some? && p.imageUrl.value != []
  }

  /** Whether the page puts an image in the archive: a new URL and a non-empty image. */
  predicate AddsEntry(s: ZipState, p: YaPage)
  {
    HasImageUrl(p) && p.imageUrl.value !in s.collected && p.blob.Fetched? && p.blob.bytes != []
  }

  /**
   * The effect of one page, entries named by `name`: a page without a URL or with a URL
   * already taken changes nothing; otherwise the URL is taken, and the image is stored
   * unless its fetch failed or gave no bytes.
   */
  function ZipStep(name: nat -> string, s: ZipState, page: nat, p: YaPage): ZipState
  {
    if !HasImageUrl(p) || p.imageUrl.value in s.collected then s
    else
      var collected := s.collected + {p.imageUrl.value};
      if AddsEntry(s, p) then ZipState(s.entries[name(page) := p.blob.bytes], collected)
      else ZipState(s.entries, collected)
  }

  /** The state after the first `n` pages of the range starting at `startPage`. */
  function ZipRun(name: nat -> string, startPage: nat, pages: seq<YaPage>, n: nat): ZipState
    requires n <= |pages|
  {
    if n == 0 then ZipState(map[], {})
    else ZipStep(name, ZipRun(name, startPage, pages, n - 1), startPage + n - 1, pages[n - 1])
  }

  /** The temporary tabs closed in the `finally` block of the first `n` pages, in order. */
  function LoadedTabs(pages: seq<YaPage>, n: nat): (tabs: seq<TabId>)
    requires n <= |pages|
    ensures |tabs| <= n
  {
    if n == 0 then []
    else if pages[n - 1].Loaded? then LoadedTabs(pages, n - 1) + [pages[n - 1].tab]
    else LoadedTabs(pages, n - 1)
  }

  /** The entry names of the loop: `truncateFilename(`${title} - ${page}.jpeg`, 90)`. */
  function YandexEntryNames(title: string): nat -> string
  {
    (page: nat) => YandexEntryName(title, page)
  }

  /**
   * `processZipDownloadYA`: opens each page of the range in turn, asks for its image URL,
   * skips a page without one or with a URL already taken, takes the URL, fetches the image
   * and stores a non-empty one under the page's entry name; a failing page is skipped and
   * its temporary tab is closed and forgotten in every case. An archive without entries is
   * an error, and so is a rejected download of the finished archive (`archiveDelivered`
   * tells whether `downloadFile` starts it).
   */
  method ProcessZipDownload(title: string, startPage: nat, endPage: int, pages: seq<YaPage>, archiveDelivered: bool)
    returns (r: Result<map<string, Bytes>, ZipError>, collected: set<string>, visited: seq<int>, closed: seq<TabId>)
    requires 1 <= startPage <= endPage
    requires |pages| == RangeLength(startPage, endPage)
    ensures var final := ZipRun(YandexEntryNames(title), startPage, pages, |pages|);
            && collected == final.collected
            && r == (if |final.entries| == 0 then Err(NoEntries)
                     else if !archiveDelivered then Err(ZipDownloadRejected)
                     else Ok(final.entries))
    ensures visited == Background.PageRange(startPage, |pages|)
    ensures closed == LoadedTabs(pages, |pages|)
  {
    var entries: map<string, Bytes> := map[];
    var tempTab: Option<TabId> := None;
    collected, visited, closed := {}, [], [];
    for i := 0 to |pages|
      invariant ZipState(entries, collected) == ZipRun(YandexEntryNames(title), startPage, pages, i)
      invariant visited == Background.PageRange(startPage, i)
      invariant closed == LoadedTabs(pages, i)
      invariant tempTab == None
    {
      var page := startPage + i;
      visited := visited + [page];
      entries, collected, tempTab := TakePage(title, entries, collected, page, pages[i]);
      assert ZipRun(YandexEntryNames(title), startPage, pages, i + 1)
          == ZipStep(YandexEntryNames(title), ZipRun(YandexEntryNames(title), startPage, pages, i), page, pages[i]);
      // finally: the temporary tab is closed and forgotten
      if tempTab.Some? {
        closed := closed + [tempTab.value];
        tempTab := None;
      }
    }
    r := if |entries| == 0 then Err(NoEntries)
         else if !archiveDelivered then Err(ZipDownloadRejected)
         else Ok(entries);
  }

  /**
   * The body of the loop for one page: a loaded tab is remembered for closing; a usable URL
   * not yet taken is taken, and a non-empty image is stored under the page's entry name.
   */
  method TakePage(title: string, entries: map<string, Bytes>, collected: set<string>, page: nat, p: YaPage)
    returns (entries': map<string, Bytes>, collected': set<string>, tempTab: Option<TabId>)
    ensures ZipState(entries', collected') == ZipStep(YandexEntryNames(title), ZipState(entries, collected), page, p)
    ensures tempTab == (if p.Loaded? then Some(p.tab) else None)
  {
    entries', collected', tempTab := entries, collected, None;
    if p.Loaded? {
      tempTab := Some(p.tab);
      if p.imageUrl.Some? && p.imageUrl.value != [] && p.imageUrl.value !in collected {
        collected' := collected + {p.imageUrl.value};
        if p.blob.Fetched? && p.blob.bytes != [] {
          entries' := entries[YandexEntryNames(title)(page) := p.blob.bytes];
        }
      }
    }
  }

  /** The URLs taken only grow from page to page. */
  lemma {:induction false} CollectedGrows(name: nat -> string, startPage: nat, pages: seq<YaPage>, i: nat, j: nat)
    requires i <= j <= |pages|
    ensures ZipRun(name, startPage, pages, i).collected <= ZipRun(name, startPage, pages, j).collected
    decreases j
  {
    if i < j {
      CollectedGrows(name, startPage, pages, i, j - 1);
    }
  }

  /**
   * Each image URL is taken at most once: a later page answering with a URL an earlier page
   * already answered with changes nothing.
   */
  lemma RepeatedUrlSkipped(name: nat -> string, startPage: nat, pages: seq<YaPage>, j: nat, k: nat)
    requires j < k < |pages|
    requires HasImageUrl(pages[j]) && HasImageUrl(pages[k])
    requires pages[j].imageUrl == pages[k].imageUrl
    ensures ZipRun(name, startPage, pages, k + 1) == ZipRun(name, startPage, pages, k)
  {
    assert pages[j].imageUrl.value in ZipRun(name, startPage, pages, j + 1).collected;
    CollectedGrows(name, startPage, pages, j + 1, k);
  }

  /** The archive never holds more entries than there are distinct image URLs taken. */
  lemma {:induction false} EntriesBoundedByUrls(name: nat -> string, startPage: nat, pages: seq<YaPage>, n: nat)
    requires n <= |pages|
    ensures |ZipRun(name, startPage, pages, n).entries| <= |ZipRun(name, startPage, pages, n).collected| <= n
  {
    if n > 0 {
      var prev := ZipRun(name, startPage, pages, n - 1);
      EntriesBoundedByUrls(name, startPage, pages, n - 1);
      ZipStepCounts(name, prev, startPage + n - 1, pages[n - 1]);
      assert ZipRun(name, startPage, pages, n) == ZipStep(name, prev, startPage + n - 1, pages[n - 1]);
    }
  }

  /** One page takes at most one URL, and stores an image only under a URL it takes. */
  lemma ZipStepCounts(name: nat -> string, s: ZipState, page: nat, p: YaPage)
    requires |s.entries| <= |s.collected|
    ensures |ZipStep(name, s, page, p).entries| <= |ZipStep(name, s, page, p).collected| <= |s.collected| + 1
  {
    if HasImageUrl(p) && p.imageUrl.value !in s.collected {
      assert |s.collected + {p.imageUrl.value}| == |s.collected| + 1;
      if AddsEntry(s, p) {
        UpdateGrowsByOne(s.entries, name(page), p.blob.bytes);
      }
    }
  }

  /** Storing under one name adds at most one entry. */
  lemma UpdateGrowsByOne<K, V>(m: map<K, V>, k: K, v: V)
    ensures |m[k := v]| <= |m| + 1
  {
    assert m[k := v].Keys == m.Keys + {k};
  }

  /** The pages of the first `n` whose image went into the archive. */
  function AddedPages(name: nat -> string, startPage: nat, pages: seq<YaPage>, n: nat): (added: seq<nat>)
    requires n <= |pages|
    ensures |added| <= n
  {
    if n == 0 then []
    else if AddsEntry(ZipRun(name, startPage, pages, n - 1), pages[n - 1]) then
      AddedPages(name, startPage, pages, n - 1) + [startPage + n - 1]
    else AddedPages(name, startPage, pages, n - 1)
  }

  /** Every page the archive received is a page of the range, in ascending order. */
  lemma {:induction false} AddedPagesAscend(name: nat -> string, startPage: nat, pages: seq<YaPage>, n: nat)
    requires n <= |pages|
    ensures forall k :: 0 <= k < |AddedPages(name, startPage, pages, n)| ==>
              startPage <= AddedPages(name, startPage, pages, n)[k] < startPage + n
    ensures forall j, k :: 0 <= j < k < |AddedPages(name, startPage, pages, n)| ==>
              AddedPages(name, startPage, pages, n)[j] < AddedPages(name, startPage, pages, n)[k]
  {
    if n > 0 {
      AddedPagesAscend(name, startPage, pages, n - 1);
    }
  }

  /** Entry names that differ from page to page. */
  ghost predicate Injective(name: nat -> string)
  {
    forall a: nat, b: nat :: a != b ==> name(a) != name(b)
  }

  /**
   * With names that differ from page to page, every page the archive received keeps its own
   * entry: the archive has exactly one entry per received page.
   */
  lemma {:induction false} InjectiveNamesKeepEveryImage(name: nat -> string, startPage: nat, pages: seq<YaPage>, n: nat)
    requires n <= |pages|
    requires Injective(name)
    ensures var entries := ZipRun(name, startPage, pages, n).entries;
            && |entries| == |AddedPages(name, startPage, pages, n)|
            && forall k :: 0 <= k < |AddedPages(name, startPage, pages, n)| ==>
                 name(AddedPages(name, startPage, pages, n)[k]) in entries
    ensures forall key :: key in ZipRun(name, startPage, pages, n).entries ==>
              exists page: nat :: startPage <= page < startPage + n && key == name(page)
  {
    if n > 0 {
      InjectiveNamesKeepEveryImage(name, startPage, pages, n - 1);
      var before := ZipRun(name, startPage, pages, n - 1);
      var page := startPage + n - 1;
      if AddsEntry(before, pages[n - 1]) {
        assert name(page) !in before.entries;
      }
    }
  }

  /** When every page gets the same entry name, the archive holds at most that one entry. */
  lemma {:induction false} ConstantNameOneEntry(name: nat -> string, key: string, startPage: nat, pages: seq<YaPage>, n: nat)
    requires n <= |pages|
    requires forall page: nat :: name(page) == key
    ensures ZipRun(name, startPage, pages, n).entries.Keys <= {key}
  {
    if n > 0 {
      ConstantNameOneEntry(name, key, startPage, pages, n - 1);
    }
  }

  /**
   * As written, with a title of 82 characters or more the archive ends up with at most one
   * entry however many pages deliver an image: each stored page overwrites the previous one.
   */
  lemma LongTitleZipHoldsOneEntry(title: string, startPage: nat, pages: seq<YaPage>)
    requires |title| >= 82
    ensures |ZipRun(YandexEntryNames(title), startPage, pages, |pages|).entries| <= 1
  {
    var key := (title + " ")[..83] + TruncateSuffix + ".jpeg";
    forall page: nat
      ensures YandexEntryNames(title)(page) == key
    {
      LongTitleEntryName(title, page);
    }
    ConstantNameOneEntry(YandexEntryNames(title), key, startPage, pages, |pages|);
    var keys := ZipRun(YandexEntryNames(title), startPage, pages, |pages|).entries.Keys;
    assert keys == {} || keys == {key};
  }

  /** The corrected entry names: the page suffix is always kept, so names differ from page to page. */
  function DistinctEntryNames(title: string): nat -> string
  {
    (page: nat) => DistinctEntryName(title, page, 90)
  }

  lemma DistinctEntryNamesInjective(title: string)
    ensures Injective(DistinctEntryNames(title))
  {
    forall a: nat, b: nat | a != b
      ensures DistinctEntryNames(title)(a) != DistinctEntryNames(title)(b)
    {
      DistinctEntryNamesDiffer(title, a, b, 90);
    }
  }

  /** With the corrected names the archive keeps one entry for every page that delivered an image. */
  lemma CorrectedZipKeepsEveryImage(title: string, startPage: nat, pages: seq<YaPage>)
    ensures var name := DistinctEntryNames(title);
            |ZipRun(name, startPage, pages, |pages|).entries| == |AddedPages(name, startPage, pages, |pages|)|
  {
    DistinctEntryNamesInjective(title);
    InjectiveNamesKeepEveryImage(DistinctEntryNames(title), startPage, pages, |pages|);
  }

  // ---------------------------------------------------------------------------
  // Presidential Library: the range and page loop of handleDownloadPagesPrLib

  /**
   * `parseInt(value, 10) || fallback`, given the parse (`None` for NaN): the parsed number
   * unless the input does not parse or parses to 0, both of which are falsy.
   */
  function PageInput(parsed: Option<int>, fallback: int): (n: int)
    ensures parsed.None? || parsed == Some(0) ==> n == fallback
    ensures n != fallback ==> parsed == Some(n) && n != 0
  {
    match parsed
    case None => fallback
    case Some(v) => if v == 0 then fallback else v
  }

  /** `files.length` when the file list is an array, else `pageCount` when it is a number, else 0. */
  function TotalAvailablePages(files: Option<seq<string>>, pageCount: Option<int>): (total: int)
    ensures files.Some? ==> total == |files.value|
    ensures files.None? && pageCount.None? ==> total == 0
  {
    if files.Some? then |files.value| else if pageCount.Some? then pageCount.value else 0
  }

  datatype PrLibError =
    | NoDocumentData
    | NoPages
    | BadRange(start: int, end: int)
    | AssemblyFailed(page: nat, error: Tiles.AssemblyError)
    | DownloadRejected(page: nat)
    | EmptyZip
    | ArchiveRejected

  datatype PageBounds = PageBounds(start: nat, end: nat)

  /**
   * The range check on the parsed inputs: no pages at all is an error; otherwise `start`
   * defaults to 1 and `end` to `start`, and the range must satisfy `1 <= start <= end <= total`.
   */
  function PrLibRange(total: int, startValue: Option<int>, endValue: Option<int>): (r: Result<PageBounds, PrLibError>)
    ensures r == Err(NoPages) <==> total == 0
    ensures r.Ok? <==>
              total != 0 && var start := PageInput(startValue, 1);
                            1 <= start <= PageInput(endValue, start) <= total
    ensures r.Ok? ==> && 1 <= r.value.start <= r.value.end <= total
                      && r.value.start == PageInput(startValue, 1)
                      && r.value.end == PageInput(endValue, r.value.start)
  {
    if total == 0 then Err(NoPages)
    else
      var start := PageInput(startValue, 1);
      var end := PageInput(endValue, start);
      if start < 1 || end < start || end > total then Err(BadRange(start, end))
      else Ok(PageBounds(start, end))
  }

  /** Empty or unparsable inputs ask for the first page alone. */
  lemma DefaultRangeIsFirstPage(total: int, startInput: string, endInput: string)
    requires total >= 1
    requires ParseInt(startInput).None? && ParseInt(endInput).None?
    ensures PrLibRange(total, ParseInt(startInput), ParseInt(endInput)) == Ok(PageBounds(1, 1))
  {
  }

  /** A start alone asks for that page alone. */
  lemma StartAloneIsOnePage(total: int, start: nat, endInput: string)
    requires 1 <= start <= total
    requires ParseInt(endInput).None?
    ensures PrLibRange(total, ParseInt(NatToString(start)), ParseInt(endInput)) == Ok(PageBounds(start, start))
  {
    ParseIntOfNatToString(start);
  }

  /** The server file of page `page`: `files[page - 1]` when the list has a non-empty one there. */
  function PageFile(files: Option<seq<string>>, page: nat): (file: Option<string>)
    ensures file.Some? ==> files.Some? && 1 <= page <= |files.value| && file.value == files.value[page - 1] != []
  {
    if files.Some? && 1 <= page <= |files.value| && files.value[page - 1] != [] then Some(files.value[page - 1])
    else None
  }

  /**
   * What `assembleTiledImagePrLib` gives for a server file: the assembled image or the
   * error that aborts (`Tiles.AssembleTiledImage` on that file's tile server).
   */
  type Assembler = string -> Result<Tiles.Raster, Tiles.AssemblyError>

  /**
   * What `downloadFile` does in the handler: whether it starts the download of each page's
   * image (download mode) and of the archive (ZIP mode), or rejects (`lastError`, no id).
   */
  datatype Deliveries = Deliveries(page: nat -> bool, archive: bool)

  /** Whether a page that was assembled goes on: in the ZIP mode always, in the download mode when its download starts. */
  function PageDelivery(zipMode: bool, deliveries: Deliveries): nat -> bool
  {
    if zipMode then (page: nat) => true else deliveries.page
  }

  /** The names of the loop: `truncateFilename(`${itemTitle}-${page}.jpeg`)`. */
  function PrLibPageNames(itemTitle: string): nat -> string
  {
    (page: nat) => PrLibPageName(itemTitle, page)
  }

  /** A page image with the name it is stored or downloaded under. */
  datatype PageImage = PageImage(page: nat, name: string, image: Tiles.Raster)

  /** Where the page loop stopped: the page images it got through, and the error that ended it, if any. */
  datatype PageLoop = PageLoop(images: seq<PageImage>, failure: Option<PrLibError>)

  /**
   * The page loop over the first `n` pages of the range starting at `start`: a page without a
   * file is skipped; a page whose assembly fails, or whose download does not start, ends the
   * loop with that error; every other page gives its assembled image named by `name`.
   */
  function PrLibPages(name: nat -> string, files: Option<seq<string>>, assemble: Assembler,
                      delivered: nat -> bool, start: nat, n: nat): PageLoop
  {
    if n == 0 then PageLoop([], None)
    else
      var prior := PrLibPages(name, files, assemble, delivered, start, n - 1);
      var page := start + n - 1;
      if prior.failure.Some? then prior
      else
        match PageFile(files, page)
        case None => prior
        case Some(file) =>
          match assemble(file)
          case Err(e) => PageLoop(prior.images, Some(AssemblyFailed(page, e)))
          case Ok(image) =>
            if !delivered(page) then PageLoop(prior.images, Some(DownloadRejected(page)))
            else PageLoop(prior.images + [PageImage(page, name(page), image)], None)
  }

  /**
   * The page loop of both modes: page `i` uses `files[i - 1]`, a page without one is
   * skipped, and a failed assembly or, in the download mode, a rejected download aborts.
   */
  method CollectPrLibPages(name: nat -> string, files: Option<seq<string>>, assemble: Assembler,
                           delivered: nat -> bool, start: nat, end: nat)
    returns (r: PageLoop)
    requires 1 <= start <= end
    ensures r == PrLibPages(name, files, assemble, delivered, start, end - start + 1)
  {
    var images: seq<PageImage> := [];
    var i := start;
    while i <= end
      invariant start <= i <= end + 1
      invariant PrLibPages(name, files, assemble, delivered, start, i - start) == PageLoop(images, None)
    {
      var file := PageFile(files, i);
      if file.Some? {
        var image := assemble(file.value);
        if image.Err? {
          r := PageLoop(images, Some(AssemblyFailed(i, image.error)));
          FailureIsFinal(name, files, assemble, delivered, start, i - start + 1, end - start + 1);
          return;
        }
        if !delivered(i) {
          r := PageLoop(images, Some(DownloadRejected(i)));
          FailureIsFinal(name, files, assemble, delivered, start, i - start + 1, end - start + 1);
          return;
        }
        images := images + [PageImage(i, name(i), image.value)];
      }
      i := i + 1;
    }
    r := PageLoop(images, None);
  }

  /** Once a page has failed, the later pages change nothing: the first failure is the result. */
  lemma {:induction false} FailureIsFinal(name: nat -> string, files: Option<seq<string>>, assemble: Assembler,
                                          delivered: nat -> bool, start: nat, m: nat, n: nat)
    requires m <= n
    requires PrLibPages(name, files, assemble, delivered, start, m).failure.Some?
    ensures PrLibPages(name, files, assemble, delivered, start, n) == PrLibPages(name, files, assemble, delivered, start, m)
    decreases n
  {
    if m < n {
      FailureIsFinal(name, files, assemble, delivered, start, m, n - 1);
    }
  }

  /** The archive of the ZIP mode: each image under its name, a later one replacing an earlier one of the same name. */
  function ZipOf(images: seq<PageImage>): (entries: map<string, Tiles.Raster>)
    ensures |entries| == 0 <==> images == []
  {
    if images == [] then map[]
    else ZipOf(images[..|images| - 1])[images[|images| - 1].name := images[|images| - 1].image]
  }

  datatype PrLibOutput = Archive(entries: map<string, Tiles.Raster>) | Downloads(images: seq<PageImage>)

  /**
   * What the handler makes of the page loop: its error; the downloads; or the archive, which
   * must not be empty and whose own download must start.
   */
  function PrLibFinish(pages: PageLoop, zipMode: bool, archiveDelivered: bool): (r: Result<PrLibOutput, PrLibError>)
    ensures pages.failure.Some? ==> r == Err(pages.failure.value)
    ensures pages.failure.None? && !zipMode ==> r == Ok(Downloads(pages.images))
    ensures pages.failure.None? && zipMode ==> (r.Ok? <==> pages.images != [] && archiveDelivered)
  {
    if pages.failure.Some? then Err(pages.failure.value)
    else if !zipMode then Ok(Downloads(pages.images))
    else if pages.images == [] then Err(EmptyZip)
    else if !archiveDelivered then Err(ArchiveRejected)
    else Ok(Archive(ZipOf(pages.images)))
  }

  /**
   * The outcome of the handler: without a file list (after the one reload attempt) the
   * document data is missing; otherwise the range check, the page loop, then the archive or
   * the downloads.
   */
  function PrLibOutcome(name: nat -> string, files: Option<seq<string>>, pageCount: Option<int>,
                        startValue: Option<int>, endValue: Option<int>, zipMode: bool,
                        assemble: Assembler, deliveries: Deliveries): Result<PrLibOutput, PrLibError>
  {
    if files.None? then Err(NoDocumentData)
    else match PrLibRange(TotalAvailablePages(files, pageCount), startValue, endValue)
    case Err(e) => Err(e)
    case Ok(bounds) =>
      PrLibFinish(PrLibPages(name, files, assemble, PageDelivery(zipMode, deliveries), bounds.start,
                             bounds.end - bounds.start + 1),
                  zipMode, deliveries.archive)
  }

  /**
   * The page images the handler has downloaded when it ends, whether it succeeds or not: in
   * the download mode each page that got through the loop before it stopped; in the ZIP mode
   * none (only the archive is downloaded).
   */
  function PrLibDownloaded(name: nat -> string, files: Option<seq<string>>, pageCount: Option<int>,
                           startValue: Option<int>, endValue: Option<int>, zipMode: bool,
                           assemble: Assembler, deliveries: Deliveries): seq<PageImage>
  {
    if files.None? then []
    else match PrLibRange(TotalAvailablePages(files, pageCount), startValue, endValue)
    case Err(_) => []
    case Ok(bounds) =>
      if zipMode then []
      else PrLibPages(name, files, assemble, PageDelivery(zipMode, deliveries), bounds.start, bounds.end - bounds.start + 1).images
  }

  /**
   * `handleDownloadPagesPrLib` once the document information has been requested (and
   * requested again if it had no file list): fails when the file list is still missing,
   * checks the range, then runs the page loop of the chosen mode; in ZIP mode an archive without entries is
   * an error. Page `p` is named `name(p)`. `downloaded` lists the page images whose
   * download started, in order.
   */
  method DownloadPages(name: nat -> string, files: Option<seq<string>>, pageCount: Option<int>,
                       startValue: Option<int>, endValue: Option<int>, zipMode: bool,
                       assemble: Assembler, deliveries: Deliveries)
    returns (r: Result<PrLibOutput, PrLibError>, downloaded: seq<PageImage>)
    ensures r == PrLibOutcome(name, files, pageCount, startValue, endValue, zipMode, assemble, deliveries)
    ensures downloaded == PrLibDownloaded(name, files, pageCount, startValue, endValue, zipMode, assemble, deliveries)
  {
    downloaded := [];
    if files.None? {
      return Err(NoDocumentData), downloaded;
    }
    var total := TotalAvailablePages(files, pageCount);
    var range := PrLibRange(total, startValue, endValue);
    if range.Err? {
      return Err(range.error), downloaded;
    }
    var pages := CollectPrLibPages(name, files, assemble, PageDelivery(zipMode, deliveries),
                                   range.value.start, range.value.end);
    if !zipMode {
      downloaded := pages.images;
    }
    r := PrLibFinish(pages, zipMode, deliveries.archive);
  }

  /** The handler with its naming rule: page `i` is named `truncateFilename(`${itemTitle}-${i}.jpeg`)`. */
  method DownloadPagesPrLib(itemTitle: string, files: Option<seq<string>>, pageCount: Option<int>,
                            startInput: string, endInput: string, zipMode: bool,
                            assemble: Assembler, deliveries: Deliveries)
    returns (r: Result<PrLibOutput, PrLibError>, downloaded: seq<PageImage>)
    ensures r == PrLibOutcome(PrLibPageNames(itemTitle), files, pageCount, ParseInt(startInput), ParseInt(endInput),
                              zipMode, assemble, deliveries)
    ensures downloaded == PrLibDownloaded(PrLibPageNames(itemTitle), files, pageCount, ParseInt(startInput),
                                          ParseInt(endInput), zipMode, assemble, deliveries)
  {
    r, downloaded := DownloadPages(PrLibPageNames(itemTitle), files, pageCount, ParseInt(startInput),
                                   ParseInt(endInput), zipMode, assemble, deliveries);
  }

  /** Whether page `page` stops the loop: it has a file whose assembly fails or whose download does not start. */
  predicate PageFails(files: Option<seq<string>>, assemble: Assembler, delivered: nat -> bool, page: nat)
  {
    PageFile(files, page).Some? && (assemble(PageFile(files, page).value).Err? || !delivered(page))
  }

  /** The loop fails exactly when some page of the range has a file whose assembly fails or whose download does not start. */
  lemma {:induction false} PrLibPagesFailIff(name: nat -> string, files: Option<seq<string>>,
                                             assemble: Assembler, delivered: nat -> bool, start: nat, n: nat)
    ensures PrLibPages(name, files, assemble, delivered, start, n).failure.Some?
            <==> exists page: nat :: start <= page < start + n && PageFails(files, assemble, delivered, page)
  {
    if n > 0 {
      PrLibPagesFailIff(name, files, assemble, delivered, start, n - 1);
      var page := start + n - 1;
      if PageFails(files, assemble, delivered, page) {
        assert start <= page < start + n;
      }
    }
  }

  /**
   * Each image the loop got through is of a page of the range that has a file, assembled from
   * that file, delivered, and named after its page; the pages ascend; and when the loop
   * stopped, it stopped at a page of the range after all of them.
   */
  lemma {:induction false} PrLibPagesFromFiles(name: nat -> string, files: Option<seq<string>>,
                                               assemble: Assembler, delivered: nat -> bool, start: nat, n: nat)
    ensures var images := PrLibPages(name, files, assemble, delivered, start, n).images;
            forall k :: 0 <= k < |images| ==>
              && start <= images[k].page < start + n
              && PageFile(files, images[k].page).Some?
              && assemble(PageFile(files, images[k].page).value) == Ok(images[k].image)
              && delivered(images[k].page)
              && images[k].name == name(images[k].page)
    ensures var images := PrLibPages(name, files, assemble, delivered, start, n).images;
            forall j, k :: 0 <= j < k < |images| ==> images[j].page < images[k].page
    ensures var loop := PrLibPages(name, files, assemble, delivered, start, n);
            loop.failure.Some? ==>
              && (loop.failure.value.AssemblyFailed? || loop.failure.value.DownloadRejected?)
              && start <= loop.failure.value.page < start + n
              && PageFails(files, assemble, delivered, loop.failure.value.page)
              && forall k :: 0 <= k < |loop.images| ==> loop.images[k].page < loop.failure.value.page
  {
    if n > 0 {
      PrLibPagesFromFiles(name, files, assemble, delivered, start, n - 1);
    }
  }

  /** The loop leaves out no page of the range that has a file and comes before the page it stopped at. */
  lemma {:induction false} PrLibPagesComplete(name: nat -> string, files: Option<seq<string>>,
                                              assemble: Assembler, delivered: nat -> bool, start: nat, n: nat, page: nat)
    requires start <= page < start + n && PageFile(files, page).Some?
    requires var loop := PrLibPages(name, files, assemble, delivered, start, n);
             loop.failure.None? || ((loop.failure.value.AssemblyFailed? || loop.failure.value.DownloadRejected?)
                                    && page < loop.failure.value.page)
    ensures exists k :: 0 <= k < |PrLibPages(name, files, assemble, delivered, start, n).images|
                        && PrLibPages(name, files, assemble, delivered, start, n).images[k].page == page
  {
    var loop := PrLibPages(name, files, assemble, delivered, start, n);
    var prior := PrLibPages(name, files, assemble, delivered, start, n - 1);
    if page < start + n - 1 {
      if prior.failure.Some? {
        PrLibPagesFromFiles(name, files, assemble, delivered, start, n - 1);
      }
      PrLibPagesComplete(name, files, assemble, delivered, start, n - 1, page);
      var k :| 0 <= k < |prior.images| && prior.images[k].page == page;
      assert loop.images[k] == prior.images[k];
    } else {
      PrLibPagesFromFiles(name, files, assemble, delivered, start, n - 1);
      assert loop.images[|loop.images| - 1].page == page;
    }
  }

  /**
   * The handler reports missing document data exactly when there is no file list: the range
   * check, the page loop and the archive never give that error.
   */
  lemma NoDocumentDataIff(name: nat -> string, files: Option<seq<string>>, pageCount: Option<int>,
                          startValue: Option<int>, endValue: Option<int>, zipMode: bool,
                          assemble: Assembler, deliveries: Deliveries)
    ensures PrLibOutcome(name, files, pageCount, startValue, endValue, zipMode, assemble, deliveries) == Err(NoDocumentData)
            <==> files.None?
    ensures files.None? ==> PrLibDownloaded(name, files, pageCount, startValue, endValue, zipMode, assemble, deliveries) == []
  {
    if files.Some? {
      var range := PrLibRange(TotalAvailablePages(files, pageCount), startValue, endValue);
      if range.Ok? {
        var bounds := range.value;
        PrLibPagesFromFiles(name, files, assemble, PageDelivery(zipMode, deliveries), bounds.start,
                            bounds.end - bounds.start + 1);
      }
    }
  }

  lemma {:induction false} NoFilesNoPages(name: nat -> string, assemble: Assembler, delivered: nat -> bool, start: nat, n: nat)
    ensures PrLibPages(name, None, assemble, delivered, start, n) == PageLoop([], None)
  {
    if n > 0 {
      NoFilesNoPages(name, assemble, delivered, start, n - 1);
    }
  }

  // ---------------------------------------------------------------------------
  // Goskatalog: the image loop of handleDownloadLotGoskatalog

  /**
   * `documentTitle.replace(/[<>:"/\\|?*]+/g, '_')`: each run of characters a file name may
   * not contain becomes a single '_'.
   */
  function CollapseInvalidRuns(s: string): (r: string)
    ensures forall i :: 0 <= i < |r| ==> !ContentScript.IsInvalidFilenameChar(r[i])
    ensures |r| <= |s|
    decreases |s|
  {
    if s == [] then []
    else if ContentScript.IsInvalidFilenameChar(s[0]) then "_" + CollapseInvalidRuns(DropInvalid(s[1..]))
    else [s[0]] + CollapseInvalidRuns(s[1..])
  }

  /** What is left of `s` after its leading run of invalid characters. */
  function DropInvalid(s: string): (r: string)
    ensures |r| <= |s| && r == s[|s| - |r|..]
    ensures r != [] ==> !ContentScript.IsInvalidFilenameChar(r[0])
    ensures forall i :: 0 <= i < |s| - |r| ==> ContentScript.IsInvalidFilenameChar(s[i])
    decreases |s|
  {
    if s != [] && ContentScript.IsInvalidFilenameChar(s[0]) then DropInvalid(s[1..]) else s
  }

  /** A title without invalid characters is kept as it is. */
  lemma {:induction false} CollapseKeepsValidTitle(s: string)
    requires forall i :: 0 <= i < |s| ==> !ContentScript.IsInvalidFilenameChar(s[i])
    ensures CollapseInvalidRuns(s) == s
    decreases |s|
  {
    if s != [] {
      CollapseKeepsValidTitle(s[1..]);
      assert s == [s[0]] + s[1..];
    }
  }

  /** Collapsing is idempotent. */
  lemma CollapseIdempotent(s: string)
    ensures CollapseInvalidRuns(CollapseInvalidRuns(s)) == CollapseInvalidRuns(s)
  {
    CollapseKeepsValidTitle(CollapseInvalidRuns(s));
  }

  /** The base of the file names: the cleaned document title, or the lot id when the title is empty. */
  function LotBaseFilename(documentTitle: string, lotId: string): (base: string)
    ensures documentTitle == [] ==> base == lotId
    ensures documentTitle != [] ==> forall i :: 0 <= i < |base| ==> !ContentScript.IsInvalidFilenameChar(base[i])
  {
    if documentTitle != [] then CollapseInvalidRuns(documentTitle) else lotId
  }

  /**
   * The extension of a lot image: from the last '.' of the URL's last '/'-segment to its end,
   * ".jpg" when that segment has no '.'.
   */
  function LotExtension(imageUrl: string): (ext: string)
    ensures |ext| >= 1 && ext[0] == '.'
    ensures '.' !in ext[1..] && '/' !in ext
  {
    var segment := match LastIndexOf(imageUrl, '/') case None => imageUrl case Some(i) => imageUrl[i + 1..];
    match LastIndexOf(segment, '.')
    case None => ".jpg"
    case Some(j) =>
      assert segment[j..][1..] == segment[j + 1..];
      SuffixLacks(segment, j, '/');
      segment[j..]
  }

  lemma SuffixLacks(s: string, j: nat, c: char)
    requires j <= |s| && c !in s
    ensures c !in s[j..]
  {
  }

  /** The file name of image `i` (from 0): `truncateFilename(`${base}_${i + 1}${extension}`)`. */
  function LotFilename(base: string, imageUrl: string, i: nat): string
  {
    TruncateFilename(base + "_" + NatToString(i + 1) + LotExtension(imageUrl), MaxFilenameLength)
  }

  /** A file name keeps the image's extension, whenever that extension has a character after its dot. */
  lemma LotFilenameKeepsExtension(base: string, imageUrl: string, i: nat)
    requires |LotExtension(imageUrl)| >= 2
    ensures EndsWith(LotFilename(base, imageUrl, i), LotExtension(imageUrl))
  {
    ExtensionOfSuffix(base + "_" + NatToString(i + 1), LotExtension(imageUrl));
  }

  /** The file-name rule of a lot, as a function of an image URL and its index. */
  function LotNames(base: string): (string, nat) -> string
  {
    (imageUrl: string, i: nat) => LotFilename(base, imageUrl, i)
  }

  /** The file names of the first `n` images: image `k` is saved under `name(imageUrls[k], k)`. */
  function LotFilenames(name: (string, nat) -> string, imageUrls: seq<string>, n: nat): (names: seq<string>)
    requires n <= |imageUrls|
    ensures |names| == n
    ensures forall k :: 0 <= k < n ==> names[k] == name(imageUrls[k], k)
  {
    if n == 0 then [] else LotFilenames(name, imageUrls, n - 1) + [name(imageUrls[n - 1], n - 1)]
  }

  /** The number of successful downloads among the first `n`. */
  function CountSucceeded(succeeded: seq<bool>, n: nat): (count: nat)
    requires n <= |succeeded|
    ensures count <= n
  {
    if n == 0 then 0 else CountSucceeded(succeeded, n - 1) + (if succeeded[n - 1] then 1 else 0)
  }

  /** Every download succeeded exactly when the count of successes is the count of images. */
  lemma {:induction false} AllSucceededIff(succeeded: seq<bool>, n: nat)
    requires n <= |succeeded|
    ensures CountSucceeded(succeeded, n) == n <==> forall k :: 0 <= k < n ==> succeeded[k]
  {
    if n > 0 {
      AllSucceededIff(succeeded, n - 1);
    }
  }

  datatype LotError = NoLotId | NoImageUrls
  datatype LotStatus = AllDownloaded | Partial(downloaded: nat, total: nat, failed: nat)

  /** The status the handler reports after `downloaded` of `total` downloads succeeded. */
  function LotStatusOf(downloaded: nat, total: nat): (status: LotStatus)
    requires downloaded <= total
    ensures status.Partial? ==> status.downloaded + status.failed == status.total == total && status.failed > 0
  {
    if downloaded == total then AllDownloaded else Partial(downloaded, total, total - downloaded)
  }

  /**
   * The image loop: image `i` is saved under `name(imageUrls[i], i)`, a failed download is
   * counted and the loop goes on; the status follows from the counts.
   */
  method DownloadImages(name: (string, nat) -> string, imageUrls: seq<string>, succeeded: seq<bool>)
    returns (filenames: seq<string>, status: LotStatus)
    requires |succeeded| == |imageUrls|
    ensures filenames == LotFilenames(name, imageUrls, |imageUrls|)
    ensures status == LotStatusOf(CountSucceeded(succeeded, |imageUrls|), |imageUrls|)
  {
    filenames := [];
    var downloaded, failed := 0, 0;
    for i := 0 to |imageUrls|
      invariant downloaded == CountSucceeded(succeeded, i)
      invariant downloaded + failed == i
      invariant filenames == LotFilenames(name, imageUrls, i)
    {
      filenames := filenames + [name(imageUrls[i], i)];
      if succeeded[i] {
        downloaded := downloaded + 1;
      } else {
        failed := failed + 1;
      }
    }
    status := if failed == 0 then AllDownloaded else Partial(downloaded, |imageUrls|, failed);
  }

  /**
   * `handleDownloadLotGoskatalog` once the tab is known: a missing lot id or an answer
   * without image URLs is an error; otherwise every image is downloaded in turn under its
   * file name, and the result is full success when nothing failed, else a partial result
   * with both counts.
   */
  method DownloadLot(lotId: Option<string>, documentTitle: string, imageUrls: seq<string>, succeeded: seq<bool>)
    returns (r: Result<LotStatus, LotError>, filenames: seq<string>)
    requires |succeeded| == |imageUrls|
    ensures lotId.None? || lotId.value == [] ==> r == Err(NoLotId) && filenames == []
    ensures lotId.Some? && lotId.value != [] && imageUrls == [] ==> r == Err(NoImageUrls) && filenames == []
    ensures lotId.Some? && lotId.value != [] && imageUrls != [] ==>
              && filenames == LotFilenames(LotNames(LotBaseFilename(documentTitle, lotId.value)), imageUrls, |imageUrls|)
              && r == Ok(LotStatusOf(CountSucceeded(succeeded, |imageUrls|), |imageUrls|))
  {
    if lotId.None? || lotId.value == [] {
      return Err(NoLotId), [];
    }
    if imageUrls == [] {
      return Err(NoImageUrls), [];
    }
    var name := LotNames(LotBaseFilename(documentTitle, lotId.value));
    var status;
    filenames, status := DownloadImages(name, imageUrls, succeeded);
    r := Ok(status);
  }

  /** The lot succeeds fully exactly when every download succeeded. */
  lemma LotStatusMeans(succeeded: seq<bool>)
    ensures LotStatusOf(CountSucceeded(succeeded, |succeeded|), |succeeded|) == AllDownloaded
            <==> forall k :: 0 <= k < |succeeded| ==> succeeded[k]
  {
    AllSucceededIff(succeeded, |succeeded|);
  }
}
