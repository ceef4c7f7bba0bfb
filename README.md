# A verified model of the archive downloader's core

The browser extension downloads page images from three archives:
- the Yandex Archive;
- the Presidential Library, whose pages are served as JPEG tiles;
- the Goskatalog museum catalogue.

This project models in Dafny the logic inside the extension that can be stated exactly, and proves what that logic promises.

**Background script (`background.dfy`).**
- The store of intercepted image URLs is the class `InterceptionStore` with a `map` field. Keys are `(tab, page)` pairs, and a lemma shows they lose nothing against the `${tabId}-${page}` strings of the source.
- The `webRequest` recorder, the tab-removal purge and the wait for the next image of a tab (`fetchNextImage`) are methods on that class.
- So is the range download loop `downloadPages`, with its 100-character file-name cut.
- The range check of `downloadRangeImages` and the lookup of `getImageUrl` are functions.

**Popup.**
- `truncateFilename` and the entry names built from it are in `filenames.dfy`.
- `isNewerVersion` is in `version_check.dfy`.
- `tiles.dfy` covers the greedy search for the finest JPEG tile level and the assembly of a page from its tiles. The raster is a canvas object that records which tile was drawn at which pixel origin.
- `batches.dfy` covers three range loops: the Yandex Archive ZIP loop, the range check and page loop of the Presidential Library handler, and the image loop of the Goskatalog lot handler.

**Content script (`content_script.dfy`).** `getTitle`, `getPageNumber`, `getBaseUrl`, the text split of `getTotalPages`, and the selector fallback and URL filter of `extractImageUrls`.

`text.dfy` holds the JavaScript string built-ins the source relies on (`split`, `join`, `trim`, `parseInt`, `lastIndexOf`, decimal printing). `common.dfy` holds `Option`, `Result` and the length of an inclusive page range.

Browser APIs, timers and servers become values:
- a completed request is a `RequestEvent`;
- the requests that complete while a page's tab loads form one sequence, and those that arrive while its image is awaited form another, whose end is the timeout;
- what a page of a range brings is a datatype value, one per page;
- the tile server is a pair of functions (probe per level, tile per level and index);
- the page assembler of the Presidential Library loop is a function from server file to image or error.

## Model

| member | source | states |
|---|---|---|
| Common.RangeLength | popup.js:897 | the number of pages from `start` to `end` inclusive: zero exactly when `end < start`, otherwise it ends at `end` |
| Text.ParseIntOfNatToString | popup.js:752-753 | `parseInt` of a number's decimal form gives the number back |
| Filenames.Extension | popup.js:120-121 | the extension `/\.[^.]+$/` finds is a suffix of the name |
| Filenames.ExtensionShape | popup.js:120-121 | a found extension is a dot followed by non-dots; there is none exactly when the name has no dot or ends in one |
| Filenames.ExtensionOfSuffix | popup.js:120-121 | a name ending in a dot and non-dots has exactly that extension, whatever precedes it |
| Filenames.TruncateFilename | popup.js:114-117 | a name within `maxLength` is returned unchanged; the result always ends with the input's extension |
| Filenames.TruncatedForm | popup.js:114-128 | the two outcomes: when the name is too long and its base exceeds `maxLength - 7`, the first `maxLength - 7` characters, "..." and the extension; otherwise the name unchanged (including the over-long name with a short base) |
| Filenames.TruncatedShape | popup.js:118-126 | a cut name has length `maxLength - 4 + |ext|`, starts with the first `maxLength - 7` characters and ends with "..." and the extension |
| Filenames.TruncatePreservesExtension | popup.js:114-128 | the result has the same extension as the input |
| Filenames.TruncateIdempotent | popup.js:114-128 | truncating a truncated name changes nothing |
| Filenames.LongTitleEntryName | popup.js:943 | with a title of 82 characters or more, the ZIP entry name of every page is the first 83 characters of `title + " "`, then "..." and ".jpeg": no digit of the page number is left |
| Filenames.YandexEntryNamesCollide | popup.js:943 | as written, pages of a title of 82 characters or more all get the same ZIP entry name |
| Filenames.PrLibPageNameOverruns | popup.js:778 | as written, the cut page name of a title of 94 characters or more is 101 characters long, one over the 100 limit |
| Filenames.TruncateFilenameWithin | popup.js:114-128 | corrected truncation: the result never exceeds `maxLength`; a fitting name is unchanged; a cut name is exactly `maxLength` long and is the leading characters of the name, "..." and the extension whenever "..." and the extension fit, else the name's first `maxLength` characters |
| Filenames.WithinAgreesOnFourCharExtension | popup.js:114-128 | for an extension of the four characters `truncateFilename` reserves, the corrected truncation gives the original's result |
| Filenames.CorrectedPrLibPageNameWithin | popup.js:778 | the corrected Presidential Library page name is at most 100 characters and still ends in ".jpeg" |
| Filenames.DistinctEntryName | popup.js:943 | corrected entry name: always ends with " - <page>.jpeg" and stays within the limit whenever that suffix and "..." fit |
| Filenames.PageOfDistinctEntryName | popup.js:943 | the page number is read back from a corrected entry name |
| Filenames.DistinctEntryNamesDiffer | popup.js:943-944 | corrected entry names of different pages differ |
| VersionCheck.ParseVersion | popup.js:1011-1012 | one number per "."-separated segment, each the segment's value |
| VersionCheck.IsNewerVersion | popup.js:1010-1020 | the loop answers true exactly when, at the first segment where the zero-padded versions differ, the second version's segment is larger |
| VersionCheck.NotNewerThanSame | popup.js:1019 | equal versions give false |
| VersionCheck.NewerAsymmetric | popup.js:1013-1018 | never true in both directions |
| VersionCheck.NewerTransitive | popup.js:1013-1018 | newer than newer is newer |
| VersionCheck.NewerRespectsSameVersion | popup.js:1013-1016 | versions equal up to trailing zero segments compare the same way against everything |
| VersionCheck.NewerTotal | popup.js:1013-1019 | two versions are equal, or exactly one is newer |
| VersionCheck.FirstDifference | popup.js:1013-1018 | a difference at some segment implies a first differing segment |
| VersionCheck.ZeroSegmentIsSameVersion | popup.js:1014-1015 | appending ".0" gives the same version |
| VersionCheck.ZeroSegmentKeepsComparison | popup.js:1010-1020 | appending ".0" to either version does not change the answer |
| Tiles.CeilDiv | popup.js:488-489 | `Math.ceil(a / b)`: the least count of `b`-sized cells covering `a` |
| Tiles.FinestFrom | popup.js:456-466 | the first level from `level` down to 0 whose probe answers with an image, with no image above it; None when no level does |
| Tiles.FinestLevel | popup.js:453-471 | a level is found exactly when some level 0..10 answers with an image, and it is the highest such level; otherwise the error |
| Tiles.FinestLevelUnique | popup.js:456-463 | at most one level is the finest |
| Tiles.FindMaxJtlLevel | popup.js:453-471 | the loop returns the finest level, probing levels 10, 9, ... in order: `11 - L` probes when it returns L, all 11 when it throws |
| Tiles.TileCellInGrid | popup.js:488-490 | every index below `cols * rows` has row below `rows` and column below `cols` |
| Tiles.TileCellInjective | popup.js:533-534 | distinct indices get distinct (row, column) cells |
| Tiles.TileCellOnto | popup.js:533-534 | every cell of the grid is the cell of index `row * cols + col` |
| Tiles.TileOriginInjective | popup.js:533-535 | with positive tile sizes distinct indices are drawn at distinct origins |
| Tiles.NominalOriginInsideRaster | popup.js:488-490 | with 256-pixel tiles every origin of the grid lies inside the `width x height` raster |
| Tiles.Canvas.DrawImage | popup.js:535 | drawing records the tile at its origin and changes nothing else |
| Tiles.PlacementsWellFormed | popup.js:515 | every drawing is of tile 0 at (0,0) or of a decoded tile at its own origin, and (0,0) always holds a drawing |
| Tiles.DecodedTileIsPlaced | popup.js:522-545 | every decoded tile other than 0 is found at its origin in the final drawing |
| Tiles.FirstTileStaysAtOrigin | popup.js:515 | tile 0 stays at (0,0) |
| Tiles.NominalPlacementsInsideRaster | popup.js:488-490 | with 256-pixel tiles every drawing starts inside the raster |
| Tiles.Assemble | popup.js:481-559 | the error cases in order (metadata missing, no usable level, tile 0 failed, a later tile's message rejected), each exactly when it happens; otherwise a raster of the metadata's size built at the finest level, with no later tile rejected, whose tiles are the `Placements` of the nominal grid at that level with tile 0's size |
| Tiles.AnyRejected | popup.js:523-549 | true exactly when the message for one of the tiles 1 to `n - 1` was rejected |
| Tiles.AssembleTiledImage | popup.js:481-549 | the method (canvas, loop over tiles 1 to `totalTiles - 1`, tiles without data or that do not decode skipped, a rejected message failing the assembly) computes `Assemble` |
| Tiles.NominalGridLeavesGap | popup.js:488-489 | as written: when the actual tiles are narrower than 256 and the nominal columns fall short of the width, the pixel column right of the last drawn column stays blank |
| Tiles.NominalGridGapExample | popup.js:513-514 | a 512 x 256 page served in 128-pixel tiles has pixel (256, 0) uncovered |
| Tiles.DrawingsDoNotOverlap | popup.js:533-535 | only the drawing at the origin of a pixel's cell can lie over that pixel |
| Tiles.CoveringGridCoversRaster | popup.js:488-489 | corrected: with the grid computed from the actual tile size and every tile decoded, every pixel of the raster lies under a drawn tile |
| Tiles.GridCoversRaster | popup.js:522-536 | any grid reaching the raster's width and height covers every pixel when every tile decodes |
| Tiles.CellIsPlaced | popup.js:533-535 | the cell (row, col) is drawn at `(col * tileWidth, row * tileHeight)` when its tile decodes |
| ContentScript.BeforeFirst | contentScript.js:3 | the prefix of the title up to the first " — ", with no earlier occurrence |
| ContentScript.RawTitleWithoutSeparator | contentScript.js:3 | a title without " — " is used whole, trimmed |
| ContentScript.RawTitleBeforeSeparator | contentScript.js:3 | "Name — Site" gives the trimmed name when it holds more than whitespace and does not end in a dash |
| ContentScript.ReplaceInvalidChars | contentScript.js:4-5 | one for one: same length, each of the nine invalid characters becomes "_", every other character is kept |
| ContentScript.GetTitle | contentScript.js:2-6 | as long as the raw title and free of invalid characters |
| ContentScript.GetPageNumber | contentScript.js:9-14 | the last "/"-segment or "unknown", and the segment exactly when it reads as a finite number |
| ContentScript.GetTotalPages | contentScript.js:17-22 | "unknown" when the pagination element is missing or its text has no "/" |
| ContentScript.TotalPagesOfPagination | contentScript.js:20-21 | "current/total", alone or followed by further "/"-segments, gives the second part, trimmed |
| ContentScript.GetBaseUrl | contentScript.js:25-29 | the address without its last segment, no longer than the address |
| ContentScript.BaseUrlAndLastSegment | contentScript.js:25-29 | base, "/" and last segment give the address back |
| ContentScript.BaseUrlOfPageUrl | contentScript.js:25-29 | the inverse of building `${baseUrl}/${page}`: the base and the page come back |
| ContentScript.PageNumberOfPageUrl | contentScript.js:9-14 | the page number of `${baseUrl}/${n}` is n |
| ContentScript.ElementUrl | contentScript.js:86-90 | a non-empty mapped URL starts with "http"; there is no URL exactly when `ng-src` is missing or empty and `src` is missing |
| ContentScript.ElementUrlOfAttribute | contentScript.js:86-90 | the URL is read from `ng-src` when it is non-empty, else from `src`; a relative one gets the catalogue origin in front, an empty or absolute one is kept |
| ContentScript.ElementUrlIdempotent | contentScript.js:86-90 | mapping a mapped URL again changes nothing: the origin is put in front at most once |
| ContentScript.LotImageUrls | contentScript.js:84-94 | no longer than the elements; every URL starts with "http" and holds the image path; empty exactly when no element's URL survives the filter |
| ContentScript.LotImageUrlsConcat | contentScript.js:84-94 | the map and filter keep the element order |
| ContentScript.FirstYieldIndex | contentScript.js:70-77 | the first selector that yields elements: all earlier ones yield none |
| ContentScript.ExtractImageUrls | contentScript.js:61-103 | the selector loop stops at the first selector that yields; the error when none yields, the error when no URL survives, else the filtered URLs |
| Background.PageKey | background.js:25 | `get("page") || "last"` is never empty |
| Background.RecordedPage | background.js:22-29 | the page key an event is stored under is never empty |
| Background.KeyPrefixIsTab | background.js:15 | the prefix test `${tabId}-` holds exactly for that tab's keys |
| Background.IntToStringInjective | background.js:15 | different tab ids have different decimal forms |
| Background.KeyStringInjective | background.js:31-32 | different keys have different key strings |
| Background.Record | background.js:19-33 | a request without "type=original" changes nothing; otherwise its URL is stored under its page key and "last" of its tab, and nothing else changes |
| Background.RecordIdempotent | background.js:31-32 | recording the same event twice is recording it once |
| Background.PurgeExactlyThatTab | background.js:13-17 | a purge deletes every key of that tab and keeps every other entry unchanged |
| Background.PurgeAfterRecord | background.js:13-17 | closing the tab a request came from leaves no trace of it |
| Background.PurgeRecordCommute | background.js:13-33 | purging one tab and recording another tab's request commute |
| Background.Truthy | background.js:48-49 | `map.get(key)` as a truth value: present and non-empty |
| Background.LookupWithFallback | background.js:121 | the exact entry, else the tab's "last" entry; nothing exactly when neither is set |
| Background.LookupAfterRecord | background.js:31-32 | after a request is recorded, both lookups of its tab find it |
| Background.FirstAcceptedIsFirst | background.js:57-67 | the first accepted event is accepted and no earlier one is |
| Background.CutFilename | background.js:129-130 | at most 100 characters; a name within 100 is unchanged; a longer one becomes its first 97 and "..." |
| Background.CutFilenameIdempotent | background.js:129-130 | cutting a cut name changes nothing |
| Background.InterceptionStore.OnCompleted | background.js:19-33 | the store becomes `Record` of the old store |
| Background.InterceptionStore.DeleteTabEntries | background.js:13-17 | the deletion loop leaves exactly the purged store |
| Background.InterceptionStore.FetchNextImage | background.js:43-90 | the "last" entry when set, store untouched; otherwise the first accepted event's URL or None at the timeout, the store having recorded exactly the events seen |
| Background.InterceptionStore.AwaitImage | background.js:55-89 | the first accepted event's URL, or None at the timeout when none is accepted; the store has recorded exactly the events that arrived before the wait ended |
| Background.InterceptionStore.NavigateToPage | background.js:92-106 | the new tab is the page's tab, and the store has recorded every request completed while it loaded |
| Background.InterceptionStore.DownloadPages | background.js:108-149 | pages visited in ascending order, every tab closed; the downloads are `RangeDownloads` and the store is `StoreAfterPages`, both from the store left by purging the originating tab, with each page's load-time requests recorded before its wait; at least every page that found its image and started has a download; "success" exactly when a download started |
| Background.InterceptionStore.DownloadPage | background.js:116-145 | the download is `PageDownload` of the store it finds once the tab has loaded (the URL is `PageImageUrl`: the fallback entry, else the first accepted request, else the page or "last" entry after the wait; the name is the cut name), and the store becomes the one after the wait with the tab's entries purged |
| Background.AfterWait | background.js:45-90 | the store after the wait: untouched when the fallback entry is set, all full-size URLs otherwise |
| Background.AfterPage | background.js:116-145 | after a page the store holds no entry of that page's tab |
| Background.AfterLoad | background.js:94-104 | the store once a page's tab has loaded, with every request completed meanwhile recorded, keeps holding only full-size image URLs |
| Background.StoreAfterPages | background.js:110-146 | the store after each page of the range (its load-time and wait requests recorded, its tab's entries dropped) keeps holding only full-size image URLs |
| Background.RecordAllKeepsLast | background.js:31-32 | once a tab's last full-size request is recorded, the tab's "last" entry holds its URL |
| Background.LoadedImageIsTaken | background.js:31-52 | when the page's tab completed a full-size request while loading, `fetchNextImage` answers at once with the last such URL and the wait records nothing |
| Background.LoadTimeImageDownloaded | background.js:115-145 | such a page, when its download starts, is downloaded from that URL under its cut name, whatever the earlier pages left |
| Background.PurgeRecordAllCommute | background.js:13-33 | recording requests and then purging a tab leaves what purging first and recording only the other tabs' requests leaves |
| Background.PageImageUrlOrigin | background.js:116-122 | a page's URL is an entry of its own tab in the store the earlier pages left, or a request of that tab made while it loaded or was awaited |
| Background.RangeDownloadsSoFar | background.js:115-146 | the range's downloads are of pages of the range, ascending, each started under its cut name with a full-size URL, and include every page that found its image and started |
| Background.PageDownloadMeans | background.js:116-145 | a page's download is for that page under the cut name with a full-size URL; it exists whenever an accepted request arrived and the download started; and exactly when the download started and the fallback entry, an accepted request or an entry found after the wait gives a URL |
| Background.PageImageUrlOfOwnTab | background.js:118-122 | the URL of a page comes from an entry of the page's own tab or from a request of that tab, never from another tab |
| Background.RecordAllOrigin | background.js:19-33 | every entry after recording was there before or is the URL of a recorded request of that entry's tab |
| Background.RangeDownloadsPages | background.js:115-146 | a page of the range has a download exactly when its own page step, run from the store the earlier pages left, starts one |
| Background.RangeStep | background.js:115-146 | one more page appends that page's download, if any, and moves the store on by that page |
| Background.PageDownloadsOwnPage | background.js:129-144 | the download of the `j`-th page step is always for page `startPage + j` |
| Background.CollectPages | background.js:115-146 | when each step gives a download of its own page, a page is collected exactly when its step gives a download |
| Background.CollectBelow | background.js:115-146 | the collected pages lie in the range visited so far |
| Background.DownloadsSoFarMeans | background.js:115-146 | the downloads are of pages of the range, ascending, each started, and every page that found its image and started is among them |
| Background.PageRangeInOrder | background.js:115 | the `k`-th page visited is `startPage + k` |
| Background.DownloadTabsInOrder | background.js:116-145 | the `k`-th tab closed is the one opened for the `k`-th page |
| Background.ValidateRange | background.js:210-215 | accepted exactly when both bounds parse and the end is not before the start |
| Background.ValidateRangeOfNumbers | background.js:210-215 | decimal page numbers are accepted exactly when they are in order |
| Background.PageSegment | background.js:158 | the page segment holds no "?" |
| Background.GetImageUrl | background.js:152-166 | an answer only for an archive page in the active tab: the page segment's entry, else the "last" entry |
| Background.PageSegmentOfPageUrl | background.js:158 | the page segment of `${base}/${n}`, with or without a query, is n |
| Background.ImageUrlAfterRecord | background.js:152-166 | once the recorder saw a page's image request, `getImageUrl` answers its URL |
| Batches.LoadedTabs | popup.js:952-955 | no more temporary tabs are closed than pages visited |
| Batches.ProcessZipDownload | popup.js:886-976 | pages visited in ascending order, every loaded tab closed in order, and the archive and URL set the page-by-page rule gives; an error when the archive is empty, else when its download is rejected, else the archive |
| Batches.TakePage | popup.js:901-948 | one page: a loaded tab is remembered for closing; a new usable URL is taken, and a non-empty image is stored under the page's entry name |
| Batches.CollectedGrows | popup.js:917-922 | the URLs taken only grow |
| Batches.RepeatedUrlSkipped | popup.js:917-921 | a page repeating an already taken URL changes nothing |
| Batches.EntriesBoundedByUrls | popup.js:917-944 | entries are at most the URLs taken, which are at most the pages visited |
| Batches.ZipStepCounts | popup.js:917-944 | one page takes at most one URL and stores at most one image |
| Batches.AddedPagesAscend | popup.js:897 | the pages that gave an entry are pages of the range, in ascending order |
| Batches.InjectiveNamesKeepEveryImage | popup.js:943-944 | with names that differ per page, exactly one entry per page that gave an image, and every key is a page's name |
| Batches.ConstantNameOneEntry | popup.js:943-944 | with one name for every page, the archive has at most that entry |
| Batches.LongTitleZipHoldsOneEntry | popup.js:943-944 | as written, a title of 82 characters or more leaves at most one entry in the archive |
| Batches.DistinctEntryNamesInjective | popup.js:943 | the corrected names differ per page |
| Batches.CorrectedZipKeepsEveryImage | popup.js:943-944 | with the corrected names, one entry per page that gave an image |
| Batches.PageInput | popup.js:752-753 | `parseInt(...) || fallback`: the fallback for NaN or 0, otherwise the parsed number |
| Batches.TotalAvailablePages | popup.js:746 | the file count when there is a file list, 0 when there is neither list nor count |
| Batches.PrLibRange | popup.js:748-757 | no pages exactly when the total is 0; accepted exactly when `1 <= start <= end <= total` with the defaults applied |
| Batches.DefaultRangeIsFirstPage | popup.js:752-753 | empty or unparsable inputs ask for page 1 alone |
| Batches.StartAloneIsOnePage | popup.js:753 | a start without an end asks for that page alone |
| Batches.PageFile | popup.js:768-773 | page `i` uses `files[i - 1]`, only when it exists and is non-empty |
| Batches.CollectPrLibPages | popup.js:766-816 | the page loop of both modes computes the page-by-page result: skipped pages, and the first failed assembly or rejected download ends it |
| Batches.FailureIsFinal | popup.js:777 | after a failed page later pages change nothing |
| Batches.ZipOf | popup.js:779-783 | the archive is empty exactly when there are no images |
| Batches.PrLibFinish | popup.js:783-816 | the loop's failure propagates; the download mode gives the pages it got through; in ZIP mode success exactly when an image was added and the archive's download started |
| Batches.PrLibPagesFailIff | popup.js:766-816 | the loop fails exactly when a page of the range has a file whose assembly fails or, in the download mode, whose download is rejected |
| Batches.PrLibPagesFromFiles | popup.js:766-816 | each image comes from its page's file, under its page's name, and was delivered; pages ascend; a failure is at a failing page of the range after every image |
| Batches.PrLibPagesComplete | popup.js:766-816 | the loop leaves out no page that has a file and comes before the page it stopped at |
| Batches.NoDocumentDataIff | popup.js:734-740 | the handler reports missing document data exactly when there is no file list after the reload attempt, and then downloads nothing |
| Batches.NoFilesNoPages | popup.js:768-773 | without a file list the loop yields nothing |
| Batches.DownloadPages | popup.js:734-816 | the handler's result is the missing-document error without a file list, else the range check, then the page loop, then the archive or the downloads; `downloaded` lists the pages whose download started, including those before an abort |
| Batches.DownloadPagesPrLib | popup.js:743-816 | the same with the page names `truncateFilename(`${itemTitle}-${i}.jpeg`)` |
| Batches.CollapseInvalidRuns | popup.js:580 | no invalid character remains and the title does not grow |
| Batches.CollapseKeepsValidTitle | popup.js:580 | a title without invalid characters is unchanged |
| Batches.CollapseIdempotent | popup.js:580 | cleaning twice is cleaning once |
| Batches.LotBaseFilename | popup.js:580 | the lot id for an empty title, otherwise a cleaned title |
| Batches.LotExtension | popup.js:589-590 | a dot followed by no dot and no "/" |
| Batches.LotFilenameKeepsExtension | popup.js:589-591 | a file name keeps the image's extension |
| Batches.LotFilenames | popup.js:586-591 | image `k` is named by its URL and index |
| Batches.AllSucceededIff | popup.js:583-603 | every download succeeded exactly when the success count equals the image count |
| Batches.LotStatusOf | popup.js:605-612 | a partial result's counts add up to the total, with at least one failure |
| Batches.DownloadImages | popup.js:583-603 | the loop gives the file names of every image and the status of its counts |
| Batches.DownloadLot | popup.js:571-612 | a missing lot id and an answer without image URLs are errors; otherwise every image named and the status of the counts |
| Batches.LotStatusMeans | popup.js:605-612 | full success exactly when every download succeeded |

## Left out

- Browser APIs are not modelled: `chrome.tabs`, `webRequest`, `downloads`, `notifications` and runtime or tab messaging. What they bring is given as values (events, per-page outcomes, oracles), and message routing between the scripts is not modelled.
- Timers are not modelled: the 35 s navigation timeout, the 1 s settle delay, the 10 s wait and `MutationObserver`. A timeout is the end of an event sequence.
- The asynchronous `chrome.tabs.remove` is not modelled. Its effect on the store (the removal listener's purge) is applied at once. A `navigateToPage` that never completes, which hangs the source, is not modelled.
- The following are foreign code and are not modelled:
  - pixels and JPEG encoding; a raster is the map from pixel origin to the tile drawn there;
  - `Image` decoding, `fetch` and `Blob`;
  - JSZip; an archive is a map from entry name to contents.
- `URL` and `URLSearchParams` parsing are not modelled. The `page` parameter of a request is a field of the event. `extractLotIdFromUrl` gives an optional lot id, and an empty id counts as missing.
- `Promise.all` over the tiles is modelled as drawing tiles 1, 2, ... in index order, and a rejected tile message fails the assembly after the loop. With positive tile sizes, distinct tiles are drawn at distinct origins, so the order does not matter; the canvas is dropped on failure, so when the rejection happens does not matter either.
- String lengths are counted in characters (Unicode scalar values), while JavaScript's `length` and `substring` count UTF-16 code units. For titles with characters outside the Basic Multilingual Plane (an emoji, say) the cut points of `Filenames.TruncateFilename`, `Background.CutFilename` and `Filenames.ShortTitle` differ from the source's, and the model never splits a surrogate pair as the source can.
- Batches.CollectPrLibPages: the assembler `assembleTiledImagePrLib` is a parameter of the Presidential Library loop rather than `Tiles.Assemble` applied to each file's tile server; the two are not composed.
- Batches.CollectPrLibPages: the ZIP mode and the download mode of the Presidential Library handler share one page-loop model. In the download mode each page's download may be rejected, which ends the loop; in the ZIP mode only the archive's download may be. The ZIP file's own name and the object URLs are left out.
- Batches.DownloadPages: the reload of the document information (`requestDocumentInfoPrLib`) is not modelled; `files` is the file list after it. Since a missing list is an error first, the `pageCount` fallback of `Batches.TotalAvailablePages` and the loop's own `!files` test (`Batches.NoFilesNoPages`) cannot change the handler's outcome.
- StoreAfterPages: a request that completes after a page's image URL is settled and before its tab's entries are purged is counted among the next page's load-time requests. `Background.PurgeRecordAllCommute` shows that this leaves the same store: the closed tab's own requests vanish either way, and the other tabs' requests commute with the purge. Requests completed after the last page are outside the handler.
- Batches.DownloadLot: a content-script reply without image URLs is modelled as an empty URL list, so it takes the same error path.
- Batches.ProcessZipDownload: `visited` lists page numbers rather than the `${baseUrl}/${page}` addresses. `ContentScript.BaseUrlOfPageUrl` relates the two.
- VersionCheck.ParseVersion: `Number(segment) || 0` is modelled for segments of decimal digits. Any other segment reads as 0, which leaves out forms such as " 1", "1e2" or "0x1".
- ContentScript.GetPageNumber: the `isNaN`/`isFinite` test is a parameter.
- UI code is not modelled: status messages, control enabling, DOM caching and event wiring, and the fetch of the published manifest.
- Other handlers are left out: the single-page and all-pages handlers of the Yandex Archive and the Presidential Library's document-info request. They are Chrome plumbing around the modelled pieces.

## Findings

| source | as written | input that shows it | evidently intended | confidence | as-written member | corrected member |
|---|---|---|---|---|---|---|
| popup.js:943 | the ZIP entry name is `truncateFilename(`${title} - ${page}.jpeg`, 90)`, which cuts the page number off for long titles | any title of 82 or more characters: every page gets the same name, so each stored page overwrites the previous one and the archive holds one image | one entry per page, with the page number kept in the name | high, not executed | Batches.LongTitleZipHoldsOneEntry | Batches.CorrectedZipKeepsEveryImage |
| popup.js:488-489 | the grid's columns and rows are computed with the nominal tile size 256, while tiles are placed using the actual size of tile 0 | a 512 x 256 page served in 128-pixel tiles: 2 x 1 tiles are drawn and pixel (256, 0) stays blank | a grid computed from the actual tile size, covering the raster | medium, not executed | Tiles.NominalGridLeavesGap | Tiles.CoveringGridCoversRaster |
| popup.js:119-125 | the cut keeps `maxLength - 7` base characters, then "..." and the extension, which exceeds `maxLength` when the extension is longer than 4 characters | a Presidential Library page name for a title of 94 or more characters: `${itemTitle}-${i}.jpeg` is cut to 101 characters against the limit of 100 | a result never longer than `maxLength` | medium, not executed | Filenames.PrLibPageNameOverruns | Filenames.TruncateFilenameWithin |
