/**
 * The content script (contentScript.js) that answers the popup with facts read from the page:
 * the document title made safe for file names, the page number and base URL taken from the
 * address, the total page count read from the pagination text, and the image URLs of a
 * museum-catalogue lot. The DOM is given as values: the title and address as strings, the
 * pagination element as an optional text, and each selector's query result as a function.
 */
module ContentScript {
  import opened Common
  import opened Text

  // ---------------------------------------------------------------------------
  // getTitle

  /** The separator between the document's own title and the site name: space, em dash, space. */
  const TitleSeparator: string := " — "

  /** The part of `s` before the first occurrence of `sep`; all of `s` when there is none. */
  function BeforeFirst(s: string, sep: string): (r: string)
    requires sep != []
    ensures |r| <= |s| && r == s[..|r|]
    ensures forall i :: 0 <= i < |r| ==> !OccursAt(s, sep, i)
    ensures |r| < |s| ==> OccursAt(s, sep, |r|)
    decreases |s|
  {
    if OccursAt(s, sep, 0) || s == [] then []
    else
      OccursAtTail(s, sep);
      var rest := BeforeFirst(s[1..], sep);
      assert s[..|rest| + 1] == [s[0]] + s[1..][..|rest|];
      [s[0]] + rest
  }

  /** An occurrence at position i + 1 of `s` is an occurrence at position i of `s[1..]`. */
  lemma OccursAtTail(s: string, sep: string)
    requires s != []
    ensures forall i: nat :: OccursAt(s, sep, i + 1) <==> OccursAt(s[1..], sep, i)
    ensures forall i: nat :: 1 <= i ==> (OccursAt(s, sep, i) <==> OccursAt(s[1..], sep, i - 1))
  {
    forall i: nat ensures OccursAt(s, sep, i + 1) <==> OccursAt(s[1..], sep, i) {
      if i + 1 + |sep| <= |s| {
        var a, b := s[i + 1..i + 1 + |sep|], s[1..][i..i + |sep|];
        assert |a| == |b|;
        assert forall k :: 0 <= k < |a| ==> a[k] == s[i + 1 + k] == b[k];
      }
    }
    forall i: nat | 1 <= i ensures OccursAt(s, sep, i) <==> OccursAt(s[1..], sep, i - 1) {
      assert OccursAt(s, sep, (i - 1) + 1) <==> OccursAt(s[1..], sep, i - 1);
    }
  }

  /** The characters the title may not contain in a file name: `\ / : * ? " < > |`. */
  predicate IsInvalidFilenameChar(c: char)
  {
    c == '\\' || c == '/' || c == ':' || c == '*' || c == '?' || c == '"' || c == '<' || c == '>' || c == '|'
  }

  /** `document.title.split(" — ")[0]?.trim() || document.title.trim()` */
  function RawTitle(documentTitle: string): string
  {
    var head := Trim(BeforeFirst(documentTitle, TitleSeparator));
    if head != [] then head else Trim(documentTitle)
  }

  /** `raw.replace(/[\\\/:*?"<>|]/g, '_')`: each invalid character becomes '_', one for one. */
  function ReplaceInvalidChars(raw: string): (r: string)
    ensures |r| == |raw|
    ensures forall i :: 0 <= i < |r| ==> !IsInvalidFilenameChar(r[i])
    ensures forall i :: 0 <= i < |r| ==> r[i] == (if IsInvalidFilenameChar(raw[i]) then '_' else raw[i])
  {
    seq(|raw|, i requires 0 <= i < |raw| => if IsInvalidFilenameChar(raw[i]) then '_' else raw[i])
  }

  /** `getTitle()`: the title before " — ", trimmed, made safe for a file name. */
  function GetTitle(documentTitle: string): (title: string)
    ensures |title| == |RawTitle(documentTitle)|
    ensures forall i :: 0 <= i < |title| ==> !IsInvalidFilenameChar(title[i])
  {
    ReplaceInvalidChars(RawTitle(documentTitle))
  }

  /** A title without the separator is used whole, trimmed. */
  lemma RawTitleWithoutSeparator(documentTitle: string)
    requires !Contains(documentTitle, TitleSeparator)
    ensures RawTitle(documentTitle) == Trim(documentTitle)
  {
    var head := BeforeFirst(documentTitle, TitleSeparator);
    assert !OccursAt(documentTitle, TitleSeparator, |head|);
    assert head == documentTitle;
  }

  /**
   * "Name — Site" yields the trimmed name when the name holds more than whitespace and does
   * not end in an em dash (a name ending in " —" makes the separator match two positions
   * earlier, inside the name).
   */
  lemma RawTitleBeforeSeparator(name: string, site: string)
    requires !Contains(name, TitleSeparator)
    requires Trim(name) != [] && name[|name| - 1] != TitleSeparator[1]
    ensures RawTitle(name + TitleSeparator + site) == Trim(name)
  {
    var t := name + TitleSeparator + site;
    var head := BeforeFirst(t, TitleSeparator);
    assert t[..|name|] == name;
    assert t[|name|..|name| + |TitleSeparator|] == TitleSeparator;
    assert OccursAt(t, TitleSeparator, |name|);
    forall i | 0 <= i < |name| ensures !OccursAt(t, TitleSeparator, i) {
      if i + |TitleSeparator| <= |name| {
        assert t[i..i + |TitleSeparator|] == name[i..i + |TitleSeparator|];
        assert !OccursAt(name, TitleSeparator, i);
      } else {
        SeparatorOverlap(t, name, i);
      }
    }
    assert |head| == |name|;
    assert head == name;
  }

  /** No occurrence of " — " starts in the last two characters of a name not ending in a dash. */
  lemma SeparatorOverlap(t: string, name: string, i: nat)
    requires |name| + |TitleSeparator| <= |t| && t[..|name|] == name
    requires t[|name|..|name| + |TitleSeparator|] == TitleSeparator
    requires name != [] && name[|name| - 1] != TitleSeparator[1]
    requires i < |name| < i + |TitleSeparator|
    ensures !OccursAt(t, TitleSeparator, i)
  {
    assert t[|name|] == TitleSeparator[0];
    assert t[|name| - 1] == name[|name| - 1];
  }

  // ---------------------------------------------------------------------------
  // getPageNumber, getTotalPages, getBaseUrl

  /** The answer used when a value cannot be read from the page. */
  const Unknown: string := "unknown"

  /**
   * `getPageNumber()`: the last `/`-segment of the address when it reads as a finite number,
   * else "unknown". Whether a segment reads as a number (`!isNaN(s) && isFinite(s)`) is the
   * parameter `isFiniteNumber`.
   */
  function GetPageNumber(href: string, isFiniteNumber: string -> bool): (page: string)
    ensures page == LastPart(href, '/') || page == Unknown
    ensures page == LastPart(href, '/') <==> isFiniteNumber(LastPart(href, '/')) || LastPart(href, '/') == Unknown
  {
    var segment := LastPart(href, '/');
    if isFiniteNumber(segment) then segment else Unknown
  }

  /**
   * `getTotalPages()`: "unknown" when the pagination element is missing; otherwise the text
   * after the first "/" up to the next one, trimmed, or "unknown" when the text has no "/".
   */
  function GetTotalPages(paginationText: Option<string>): (total: string)
    ensures paginationText.None? ==> total == Unknown
    ensures paginationText.Some? && '/' !in paginationText.value ==> total == Unknown
  {
    match paginationText
    case None => Unknown
    case Some(text) =>
      var parts := Split(text, '/');
      SinglePartIffNoSeparator(text, '/');
      if |parts| > 1 then Trim(parts[1]) else Unknown
  }

  /**
   * A pagination text "current / total", possibly followed by further "/"-segments, yields
   * the total, trimmed: the second part, whatever comes after it.
   */
  lemma TotalPagesOfPagination(current: string, total: string, rest: string)
    requires '/' !in current && '/' !in total
    requires rest == [] || rest[0] == '/'
    ensures GetTotalPages(Some(current + "/" + total + rest)) == Trim(total)
  {
    SecondPartOfSplit(current, total, rest);
  }

  /** The second `/`-part of "current/total" followed by nothing or by "/…" is `total`. */
  lemma SecondPartOfSplit(current: string, total: string, rest: string)
    requires '/' !in current && '/' !in total
    requires rest == [] || rest[0] == '/'
    ensures var parts := Split(current + "/" + total + rest, '/'); |parts| > 1 && parts[1] == total
  {
    var text := current + "/" + total + rest;
    SplitWithoutSeparator(current, '/');
    SplitWithoutSeparator(total, '/');
    if rest == [] {
      assert text == current + ['/'] + total;
      SplitAtSeparator(current, total, '/');
    } else {
      var tail := rest[1..];
      assert text == current + ['/'] + (total + ['/'] + tail);
      SplitAtSeparator(current, total + ['/'] + tail, '/');
      SplitAtSeparator(total, tail, '/');
    }
  }

  /** `getBaseUrl()`: the address with its last `/`-segment removed (`split('/')`, `pop()`, `join('/')`). */
  function GetBaseUrl(href: string): (base: string)
    ensures |base| <= |href|
  {
    var parts := Split(href, '/');
    JoinSplit(href, '/');
    if |parts| == 1 then []
    else
      JoinSnoc(parts[..|parts| - 1], parts[|parts| - 1], '/');
      assert parts[..|parts| - 1] + [parts[|parts| - 1]] == parts;
      Join(parts[..|parts| - 1], '/')
  }

  /** For an address holding "/", the base, "/" and the last segment give the address back. */
  lemma {:induction false} BaseUrlAndLastSegment(href: string)
    requires '/' in href
    ensures GetBaseUrl(href) + "/" + LastPart(href, '/') == href
  {
    var parts := Split(href, '/');
    SplitHasTwoParts(href, '/');
    JoinSplit(href, '/');
    JoinSnoc(parts[..|parts| - 1], parts[|parts| - 1], '/');
    assert parts[..|parts| - 1] + [parts[|parts| - 1]] == parts;
  }

  /**
   * The page addresses the popup and the background script build as `${baseUrl}/${page}`
   * give back their base: `getBaseUrl` inverts the construction.
   */
  lemma {:induction false} BaseUrlOfPageUrl(base: string, segment: string)
    requires '/' !in segment
    ensures GetBaseUrl(base + "/" + segment) == base
    ensures LastPart(base + "/" + segment, '/') == segment
  {
    var href := base + "/" + segment;
    assert href == base + ['/'] + segment;
    SplitAtSeparator(base, segment, '/');
    SplitWithoutSeparator(segment, '/');
    var parts := Split(href, '/');
    assert parts == Split(base, '/') + [segment];
    assert parts[..|parts| - 1] == Split(base, '/');
    JoinSplit(base, '/');
  }

  /** The page number of a page address `${baseUrl}/${n}` is n, when n reads as a number. */
  lemma PageNumberOfPageUrl(base: string, n: nat, isFiniteNumber: string -> bool)
    requires isFiniteNumber(NatToString(n))
    ensures GetPageNumber(base + "/" + NatToString(n), isFiniteNumber) == NatToString(n)
  {
    BaseUrlOfPageUrl(base, NatToString(n));
  }

  // ---------------------------------------------------------------------------
  // extractImageUrls

  /** The attributes of an `img` element the URL is read from; None when absent. */
  datatype ImageElement = ImageElement(ngSrc: Option<string>, src: Option<string>)

  /** The path every lot image URL of the catalogue's image service contains. */
  const ImagePathMarker: string := "/muzfo-imaginator/rest/images/"
  /** The origin prefixed to relative URLs. */
  const CatalogueOrigin: string := "https://goskatalog.ru"

  /** The four selectors, from the most specific to the most general. */
  const LotImageSelectors: seq<string> := [
    "tr td[ng-repeat=\"image in collectionItem.images\"] img[ng-src*=\"/muzfo-imaginator/rest/images/original/\"]",
    "img[ng-src*=\"/muzfo-imaginator/rest/images/\"]",
    "img[src*=\"/muzfo-imaginator/rest/images/\"]",
    ".collection-item img, .lot-details img, [id*=\"collection\"] img"
  ]

  datatype ExtractError = NoImageElements | NoImageUrls

  /**
   * The URL mapped from one element: `ng-src`, or `src` when `ng-src` is missing or empty;
   * a non-empty URL not starting with "http" gets the catalogue origin in front.
   */
  function ElementUrl(e: ImageElement): (url: Option<string>)
    ensures url.Some? && url.value != [] ==> StartsWith(url.value, "http")
    ensures url.None? <==> (e.ngSrc.None? || e.ngSrc.value == []) && e.src.None?
  {
    var raw := if e.ngSrc.Some? && e.ngSrc.value != [] then e.ngSrc else e.src;
    match raw
    case None => None
    case Some(u) =>
      if u != [] && !StartsWith(u, "http") then
        assert (CatalogueOrigin + u)[..4] == "http";
        Some(CatalogueOrigin + u)
      else Some(u)
  }

  /**
   * The attribute the URL is read from: `ng-src` when present and non-empty, else `src`.
   * A relative URL `u` gets the catalogue origin in front; an empty or absolute one is kept.
   */
  lemma ElementUrlOfAttribute(e: ImageElement, u: string)
    requires (e.ngSrc == Some(u) && u != []) || ((e.ngSrc.None? || e.ngSrc.value == []) && e.src == Some(u))
    ensures u != [] && !StartsWith(u, "http") ==> ElementUrl(e) == Some(CatalogueOrigin + u)
    ensures u == [] || StartsWith(u, "http") ==> ElementUrl(e) == Some(u)
  {
  }

  /** Mapping a mapped URL again changes nothing: the origin is put in front at most once. */
  lemma ElementUrlIdempotent(e: ImageElement)
    requires ElementUrl(e).Some?
    ensures ElementUrl(ImageElement(None, ElementUrl(e))) == ElementUrl(e)
    ensures ElementUrl(e).value != [] ==> ElementUrl(ImageElement(ElementUrl(e), None)) == ElementUrl(e)
  {
    var url := ElementUrl(e).value;
    ElementUrlOfAttribute(ImageElement(None, Some(url)), url);
    if url != [] {
      ElementUrlOfAttribute(ImageElement(Some(url), None), url);
    }
  }

  /** Whether the mapped URL survives the filter: present, non-empty and on the image path. */
  predicate KeptUrl(url: Option<string>)
  {
    url.Some? && url.value != [] && Contains(url.value, ImagePathMarker)
  }

  /** The map and filter of `extractImageUrls`, in element order. */
  function LotImageUrls(elements: seq<ImageElement>): (urls: seq<string>)
    ensures |urls| <= |elements|
    ensures forall k :: 0 <= k < |urls| ==> Contains(urls[k], ImagePathMarker) && StartsWith(urls[k], "http")
    ensures urls == [] <==> forall i :: 0 <= i < |elements| ==> !KeptUrl(ElementUrl(elements[i]))
  {
    if elements == [] then []
    else
      var rest := LotImageUrls(elements[1..]);
      assert forall i :: 1 <= i < |elements| ==> elements[i] == elements[1..][i - 1];
      var url := ElementUrl(elements[0]);
      if KeptUrl(url) then [url.value] + rest else rest
  }

  /** Filtering distributes over concatenation: the order of the elements is kept. */
  lemma {:induction false} LotImageUrlsConcat(a: seq<ImageElement>, b: seq<ImageElement>)
    ensures LotImageUrls(a + b) == LotImageUrls(a) + LotImageUrls(b)
    decreases |a|
  {
    if a != [] {
      var url := ElementUrl(a[0]);
      var head := if KeptUrl(url) then [url.value] else [];
      assert (a + b)[1..] == a[1..] + b;
      assert LotImageUrls(a + b) == head + LotImageUrls(a[1..] + b);
      assert LotImageUrls(a) == head + LotImageUrls(a[1..]);
      LotImageUrlsConcat(a[1..], b);
      ConcatAssociative(head, LotImageUrls(a[1..]), LotImageUrls(b));
    } else {
      assert a + b == b;
    }
  }

  /** The position of the first selector in `selectors` that yields elements; `|selectors|` when none does. */
  function FirstYieldIndex(query: string -> seq<ImageElement>, selectors: seq<string>): (k: nat)
    ensures k <= |selectors|
    ensures forall j :: 0 <= j < k ==> query(selectors[j]) == []
    ensures k < |selectors| ==> query(selectors[k]) != []
  {
    if selectors == [] || query(selectors[0]) != [] then 0
    else 1 + FirstYieldIndex(query, selectors[1..])
  }

  /** The elements of the first selector that yields any; none when none does. */
  function FirstYield(query: string -> seq<ImageElement>, selectors: seq<string>): seq<ImageElement>
  {
    var k := FirstYieldIndex(query, selectors);
    if k < |selectors| then query(selectors[k]) else []
  }

  /**
   * `extractImageUrls()`: asks each selector in turn (`waitForElements`, whose timeout
   * answers no elements) and keeps the first answer that has elements; throws when none
   * has, and throws when the mapped and filtered URLs are empty.
   */
  method ExtractImageUrls(query: string -> seq<ImageElement>) returns (r: Result<seq<string>, ExtractError>)
    ensures var elements := FirstYield(query, LotImageSelectors);
            r == if elements == [] then Err(NoImageElements)
                 else if LotImageUrls(elements) == [] then Err(NoImageUrls)
                 else Ok(LotImageUrls(elements))
  {
    var elements: seq<ImageElement> := [];
    var i := 0;
    while i < |LotImageSelectors|
      invariant 0 <= i <= |LotImageSelectors|
      invariant forall j :: 0 <= j < i ==> query(LotImageSelectors[j]) == []
      invariant elements == []
    {
      elements := query(LotImageSelectors[i]);
      if |elements| > 0 {
        break;
      }
      i := i + 1;
    }
    if |elements| == 0 {
      return Err(NoImageElements);
    }
    var urls := LotImageUrls(elements);
    if |urls| == 0 {
      return Err(NoImageUrls);
    }
    return Ok(urls);
  }
}
