/**
 * File names for downloads and archive entries in the popup (popup.js): `truncateFilename`,
 * the extension it keeps, and the entry names the range loops build from it.
 */
module Filenames {
  import opened Text

  const MaxFilenameLength: nat := 100
  const TruncateSuffix: string := "..."
  const TruncateKeepChars: nat := 4

  /** A file extension as the pattern `\.[^.]+$` matches it: a dot and at least one non-dot. */
  predicate IsExtension(e: string) {
    |e| >= 2 && e[0] == '.' && '.' !in e[1..]
  }

  /** The extension `filename.match(/\.[^.]+$/)` finds, or the empty string. */
  function Extension(filename: string): (ext: string)
    ensures EndsWith(filename, ext)
  {
    match LastIndexOf(filename, '.')
    case None => []
    case Some(i) => if i == |filename| - 1 then [] else filename[i..]
  }

  /** The extension found is a dot and non-dots; there is none exactly when the name has no dot or ends in one. */
  lemma ExtensionShape(filename: string)
    ensures var ext := Extension(filename);
            && (ext != [] ==> IsExtension(ext))
            && (ext == [] <==> '.' !in filename || filename[|filename| - 1] == '.')
  {
    match LastIndexOf(filename, '.')
    case None =>
    case Some(i) =>
      if i < |filename| - 1 {
        assert filename[i..][1..] == filename[i + 1..];
      }
  }

  /** Whatever precedes it, a name ending in an extension has that extension. */
  lemma ExtensionOfSuffix(x: string, e: string)
    requires IsExtension(e)
    ensures Extension(x + e) == e
  {
    var s := x + e;
    var r := LastIndexOf(s, '.');
    assert s[|x|] == '.';
    var i := r.value;
    assert i == |x|;
    assert s[i..] == e;
  }

  /** Number of leading characters a truncated name keeps: `maxLength - 7`, clamped at 0 as `substring` does. */
  function KeptBaseLength(maxLength: nat): nat
  {
    if maxLength < |TruncateSuffix| + TruncateKeepChars then 0
    else maxLength - (|TruncateSuffix| + TruncateKeepChars)
  }

  /**
   * `truncateFilename(filename, maxLength)`: a name that fits is returned as it is; otherwise
   * the base name (the name without its extension) is cut to `maxLength - 7` characters and
   * followed by "..." and the extension, unless the base name is already that short.
   */
  function TruncateFilename(filename: string, maxLength: nat): (r: string)
    ensures |filename| <= maxLength ==> r == filename
    ensures EndsWith(r, Extension(filename))
  {
    if |filename| <= maxLength then filename
    else
      var maxBaseLength: int := maxLength - (|TruncateSuffix| + TruncateKeepChars);
      var extension := Extension(filename);
      var baseName := filename[..|filename| - |extension|];
      if |baseName| > maxBaseLength then
        assert baseName[..KeptBaseLength(maxLength)] == filename[..KeptBaseLength(maxLength)];
        baseName[..KeptBaseLength(maxLength)] + TruncateSuffix + extension
      else filename
  }

  /** Whether `truncateFilename` cuts the name: it is too long and its base name exceeds `maxLength - 7`. */
  predicate IsCut(filename: string, maxLength: nat)
  {
    |filename| > maxLength
    && |filename| - |Extension(filename)| > maxLength - (|TruncateSuffix| + TruncateKeepChars)
  }

  /** The two outcomes of truncation: the name cut to its kept base, "..." and the extension, or the name unchanged. */
  lemma TruncatedForm(filename: string, maxLength: nat)
    ensures IsCut(filename, maxLength)
            ==> TruncateFilename(filename, maxLength)
                == filename[..KeptBaseLength(maxLength)] + TruncateSuffix + Extension(filename)
    ensures !IsCut(filename, maxLength) ==> TruncateFilename(filename, maxLength) == filename
  {
    var extension := Extension(filename);
    var baseName := filename[..|filename| - |extension|];
    if IsCut(filename, maxLength) {
      assert baseName[..KeptBaseLength(maxLength)] == filename[..KeptBaseLength(maxLength)];
    }
  }

  /** When truncation happens, the result has length `maxLength - 4 + |ext|` and ends in "..." plus the extension. */
  lemma TruncatedShape(filename: string, maxLength: nat)
    requires maxLength >= 7
    requires |filename| > maxLength && |filename| - |Extension(filename)| > maxLength - 7
    ensures var r := TruncateFilename(filename, maxLength);
            && |r| == maxLength - 4 + |Extension(filename)|
            && StartsWith(r, filename[..maxLength - 7])
            && EndsWith(r, TruncateSuffix + Extension(filename))
  {
    TruncatedForm(filename, maxLength);
    ThreePartShape(filename[..maxLength - 7], TruncateSuffix, Extension(filename));
  }

  lemma ThreePartShape(x: string, y: string, z: string)
    ensures |x + y + z| == |x| + |y| + |z|
    ensures StartsWith(x + y + z, x)
    ensures EndsWith(x + y + z, y + z)
  {
    var s := x + y + z;
    assert s[..|x|] == x;
    assert s[|s| - |y + z|..] == y + z;
  }

  /** Truncation keeps the extension: the result has the same extension as the input. */
  lemma TruncatePreservesExtension(filename: string, maxLength: nat)
    ensures Extension(TruncateFilename(filename, maxLength)) == Extension(filename)
  {
    TruncatedForm(filename, maxLength);
    if IsCut(filename, maxLength) {
      var r := TruncateFilename(filename, maxLength);
      var ext := Extension(filename);
      var head := filename[..KeptBaseLength(maxLength)] + TruncateSuffix;
      assert r == head + ext;
      ExtensionShape(filename);
      if ext == [] {
        assert r[|r| - 1] == '.';
        ExtensionShape(r);
      } else {
        ExtensionOfSuffix(head, ext);
      }
    }
  }

  /** Truncating an already truncated name changes nothing. */
  lemma TruncateIdempotent(filename: string, maxLength: nat)
    ensures TruncateFilename(TruncateFilename(filename, maxLength), maxLength)
            == TruncateFilename(filename, maxLength)
  {
    var r := TruncateFilename(filename, maxLength);
    TruncatedForm(filename, maxLength);
    if IsCut(filename, maxLength) {
      var k := KeptBaseLength(maxLength);
      var ext := Extension(filename);
      TruncatePreservesExtension(filename, maxLength);
      TruncatedForm(r, maxLength);
      assert r == filename[..k] + TruncateSuffix + ext;
      assert r[..k] == filename[..k];
    }
  }

  // ---------------------------------------------------------------------------
  // Names of archive entries and downloads built by the popup's range loops

  /** Entry name in the Yandex Archive ZIP: `truncateFilename(`${title} - ${page}.jpeg`, 90)`. */
  function YandexEntryName(title: string, page: nat): string
  {
    TruncateFilename(title + " - " + NatToString(page) + ".jpeg", 90)
  }

  /** Entry and file name for a Presidential Library page: `truncateFilename(`${itemTitle}-${i}.jpeg`)`. */
  function PrLibPageName(itemTitle: string, page: nat): string
  {
    TruncateFilename(itemTitle + "-" + NatToString(page) + ".jpeg", MaxFilenameLength)
  }

  lemma JpegIsExtension()
    ensures IsExtension(".jpeg")
  {
    assert ".jpeg"[1..] == "jpeg";
  }

  /**
   * As written, a title of 82 characters or more gives every page the same ZIP entry name
   * (the page number is cut off), so each page overwrites the previous entry.
   */
  lemma YandexEntryNamesCollide(title: string, p: nat, q: nat)
    requires |title| >= 82
    ensures YandexEntryName(title, p) == YandexEntryName(title, q)
  {
    LongTitleEntryName(title, p);
    LongTitleEntryName(title, q);
  }

  /**
   * For a title of 82 characters or more the entry name is the first 83 characters of the
   * title followed by a space, then "..." and ".jpeg": nothing of the page number is left.
   */
  lemma LongTitleEntryName(title: string, page: nat)
    requires |title| >= 82
    ensures YandexEntryName(title, page) == (title + " ")[..83] + TruncateSuffix + ".jpeg"
  {
    var f := title + " - " + NatToString(page) + ".jpeg";
    JpegIsExtension();
    ExtensionOfSuffix(title + " - " + NatToString(page), ".jpeg");
    TruncatedForm(f, 90);
    assert f[..83] == (title + " ")[..83];
  }

  /**
   * As written, a truncated name with an extension longer than four characters exceeds
   * `maxLength`: every truncated ".jpeg" page name of the Presidential Library is 101 long.
   */
  lemma PrLibPageNameOverruns(itemTitle: string, page: nat)
    requires |itemTitle| >= 94
    ensures |PrLibPageName(itemTitle, page)| == MaxFilenameLength + 1
  {
    var f := itemTitle + "-" + NatToString(page) + ".jpeg";
    JpegIsExtension();
    ExtensionOfSuffix(itemTitle + "-" + NatToString(page), ".jpeg");
    TruncatedShape(f, MaxFilenameLength);
  }

  // ---------------------------------------------------------------------------
  // Corrected naming

  /**
   * Truncation that never exceeds `maxLength`: the base name is cut so that "...", and the
   * extension fit; a name whose extension alone leaves no room is cut at `maxLength`.
   */
  function TruncateFilenameWithin(filename: string, maxLength: nat): (r: string)
    ensures |r| <= maxLength
    ensures |filename| <= maxLength ==> r == filename
    ensures |filename| > maxLength ==> |r| == maxLength
    ensures |Extension(filename)| + |TruncateSuffix| <= maxLength ==> EndsWith(r, Extension(filename))
    ensures |filename| > maxLength && |Extension(filename)| + |TruncateSuffix| <= maxLength
            ==> r == filename[..|r| - |TruncateSuffix| - |Extension(filename)|] + TruncateSuffix + Extension(filename)
    ensures |filename| > maxLength && |Extension(filename)| + |TruncateSuffix| > maxLength
            ==> r == filename[..|r|]
  {
    if |filename| <= maxLength then filename
    else
      var extension := Extension(filename);
      if |extension| + |TruncateSuffix| <= maxLength then
        filename[..maxLength - |TruncateSuffix| - |extension|] + TruncateSuffix + extension
      else filename[..maxLength]
  }

  /**
   * Where the extension has the four characters `truncateFilename` reserves for it (".jpg",
   * say), the corrected truncation gives the same name as the original one.
   */
  lemma WithinAgreesOnFourCharExtension(filename: string, maxLength: nat)
    requires maxLength >= |TruncateSuffix| + TruncateKeepChars
    requires |Extension(filename)| == TruncateKeepChars
    ensures TruncateFilenameWithin(filename, maxLength) == TruncateFilename(filename, maxLength)
  {
    TruncatedForm(filename, maxLength);
  }

  /** The corrected Presidential Library page name never exceeds the 100-character limit. */
  lemma CorrectedPrLibPageNameWithin(itemTitle: string, page: nat)
    ensures var f := itemTitle + "-" + NatToString(page) + ".jpeg";
            && |TruncateFilenameWithin(f, MaxFilenameLength)| <= MaxFilenameLength
            && EndsWith(TruncateFilenameWithin(f, MaxFilenameLength), ".jpeg")
  {
    var f := itemTitle + "-" + NatToString(page) + ".jpeg";
    JpegIsExtension();
    ExtensionOfSuffix(itemTitle + "-" + NatToString(page), ".jpeg");
  }

  /** The trailing run of decimal digits of a string. */
  function TrailingDigits(s: string): (ds: string)
    ensures |ds| <= |s| && ds == s[|s| - |ds|..] && AllDigits(ds)
    ensures |ds| < |s| ==> !IsDigit(s[|s| - |ds| - 1])
    decreases |s|
  {
    if s != [] && IsDigit(s[|s| - 1]) then TrailingDigits(s[..|s| - 1]) + [s[|s| - 1]] else []
  }

  lemma {:induction false} TrailingDigitsAfterNonDigit(x: string, ds: string)
    requires AllDigits(ds)
    requires x != [] && !IsDigit(x[|x| - 1])
    ensures TrailingDigits(x + ds) == ds
    decreases |ds|
  {
    var s := x + ds;
    if ds == [] {
      assert s == x;
    } else {
      assert s[..|s| - 1] == x + ds[..|ds| - 1];
      TrailingDigitsAfterNonDigit(x, ds[..|ds| - 1]);
    }
  }

  /**
   * Corrected entry name: the suffix " - <page>.jpeg" is always kept whole and only the title
   * is shortened (to end in "..."), so the name stays within `maxLength` whenever the suffix
   * leaves room for it.
   */
  function DistinctEntryName(title: string, page: nat, maxLength: nat): (r: string)
    ensures |" - " + NatToString(page) + ".jpeg"| + |TruncateSuffix| <= maxLength ==> |r| <= maxLength
    ensures EndsWith(r, " - " + NatToString(page) + ".jpeg")
  {
    var suffix := " - " + NatToString(page) + ".jpeg";
    ShortTitle(title, |suffix|, maxLength) + suffix
  }

  /** The title shortened to leave room for a suffix of `suffixLength` characters: cut and followed by "...". */
  function ShortTitle(title: string, suffixLength: nat, maxLength: nat): (t: string)
    ensures suffixLength + |TruncateSuffix| <= maxLength ==> |t| + suffixLength <= maxLength
  {
    if |title| + suffixLength <= maxLength then title
    else if suffixLength + |TruncateSuffix| <= maxLength then title[..Min(|title|, maxLength - suffixLength - |TruncateSuffix|)] + TruncateSuffix
    else TruncateSuffix
  }

  function Min(a: nat, b: nat): nat { if a <= b then a else b }

  /** The page number a corrected entry name carries: the digits just before ".jpeg". */
  function PageOfEntryName(name: string): nat
  {
    if |name| < 5 then 0 else DecimalValue(TrailingDigits(name[..|name| - 5]))
  }

  /** The corrected name gives its page number back. */
  lemma PageOfDistinctEntryName(title: string, page: nat, maxLength: nat)
    ensures PageOfEntryName(DistinctEntryName(title, page, maxLength)) == page
  {
    var digits := NatToString(page);
    var head := ShortTitle(title, |" - " + digits + ".jpeg"|, maxLength) + " - ";
    var name := head + digits + ".jpeg";
    assert DistinctEntryName(title, page, maxLength) == name;
    assert name[..|name| - 5] == head + digits;
    assert head[|head| - 1] == ' ';
    TrailingDigitsAfterNonDigit(head, digits);
    DecimalValueOfNatToString(page);
  }

  /** Corrected names of different pages differ, so no archive entry overwrites another. */
  lemma DistinctEntryNamesDiffer(title: string, p: nat, q: nat, maxLength: nat)
    requires p != q
    ensures DistinctEntryName(title, p, maxLength) != DistinctEntryName(title, q, maxLength)
  {
    PageOfDistinctEntryName(title, p, maxLength);
    PageOfDistinctEntryName(title, q, maxLength);
  }
}
