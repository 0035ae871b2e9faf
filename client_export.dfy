/**
 * The browser client of the export server: the lenient page-name sanitiser,
 * location inference, the page-list resolver, the query it sends, the download
 * filename it picks and the message it shows when an export fails.
 */
module ClientExport {
  import opened Wrappers
  import opened Text
  import opened Seqs
  import opened Js
  import opened PageIdentifier

  const API_ENDPOINT: string := "http://localhost:3000/api/generate-pdf"
  const REPORT_PREFIX: string := "hurwitz-report-"
  /** `hurwitz-report-{pages}.pdf` */
  const PDF_FILENAME_TEMPLATE: string := REPORT_PREFIX + "{pages}" + ".pdf"
  const PAGES_FOLDER: string := "/pages/"

  lemma {:induction false} IdentifierEndsWithLowerSuffix(s: string)
    requires IsPageIdentifier(s)
    ensures EndsWith(ToLowerAscii(s), HTML_SUFFIX)
  {
    IdentifierIsPlain(s);
    assert ToLowerAscii(s)[|s| - 5..] == ToLowerAscii(s[|s| - 5..]);
  }

  /**
   * Lenient policy: a value that is not a string, is blank, or whose trimmed form is
   * not a page identifier becomes the default page; otherwise the trimmed form is kept.
   */
  function SanitizePageName(v: Value): (r: string)
    ensures IsPageIdentifier(r)
    ensures v.Str? && IsPageIdentifier(Trim(v.s)) ==> r == Trim(v.s)
    ensures !(v.Str? && IsPageIdentifier(Trim(v.s))) ==> r == DEFAULT_PAGE
  {
    if !v.Str? || Trim(v.s) == "" then DEFAULT_PAGE
    else
      var trimmed := Trim(v.s);
      if !EndsWith(ToLowerAscii(trimmed), HTML_SUFFIX) then
        (if IsPageIdentifier(trimmed) then IdentifierEndsWithLowerSuffix(trimmed); DEFAULT_PAGE else DEFAULT_PAGE)
      else if !IsPageIdentifier(trimmed) then DEFAULT_PAGE
      else trimmed
  }

  /** Sanitising a sanitised name changes nothing. */
  lemma SanitizeIsIdempotent(v: Value)
    ensures SanitizePageName(Str(SanitizePageName(v))) == SanitizePageName(v)
  {
    IdentifierIsPlain(SanitizePageName(v));
  }

  /** The identifier test is case-sensitive: an upper-case suffix passes the `.html` test but still yields the default. */
  lemma UpperCaseSuffixIsDefaulted()
    ensures EndsWith(ToLowerAscii("Page1.HTML"), HTML_SUFFIX)
    ensures SanitizePageName(Str("Page1.HTML")) == DEFAULT_PAGE
  {
    assert NoWhitespace("Page1.HTML");
    assert ToLowerAscii("Page1.HTML")[5..] == HTML_SUFFIX;
  }

  /** The page the browser shows: the sanitised last path segment, for paths inside `/pages/` only. */
  function GetCurrentPageFromLocation(pathname: string): (r: string)
    ensures IsPageIdentifier(r)
    ensures !Contains(pathname, PAGES_FOLDER) ==> r == DEFAULT_PAGE
    ensures Contains(pathname, PAGES_FOLDER) ==> r == SanitizePageName(Str(LastSegment(pathname, '/')))
  {
    var lastSegment := LastSegment(pathname, '/');
    DefaultIsIdentifier();
    if !Contains(pathname, PAGES_FOLDER) then DEFAULT_PAGE else SanitizePageName(Str(lastSegment))
  }

  /** Viewing `<dir>/pages/<name>` for a page identifier `name` gives back `name`. */
  lemma {:induction false} CurrentPageInPagesFolder(dir: string, name: string)
    requires IsPageIdentifier(name)
    ensures GetCurrentPageFromLocation(dir + PAGES_FOLDER + name) == name
  {
    var path := dir + PAGES_FOLDER + name;
    assert path[|dir|..|dir| + 7] == PAGES_FOLDER;
    assert OccursAt(path, PAGES_FOLDER, |dir|);
    IdentifierIsPlain(name);
    assert path == (dir + "/pages") + ['/'] + name;
    LastSegmentAfter(dir + "/pages", '/', name);
  }

  /**
   * Any path inside `/pages/`, however deep, ending in `/<name>`: the trimmed `name` when that
   * is an identifier, `page1.html` otherwise.
   */
  lemma CurrentPageOfLastSegment(prefix: string, name: string)
    requires '/' !in name && Contains(prefix + "/" + name, PAGES_FOLDER)
    ensures IsPageIdentifier(Trim(name)) ==> GetCurrentPageFromLocation(prefix + "/" + name) == Trim(name)
    ensures !IsPageIdentifier(Trim(name)) ==> GetCurrentPageFromLocation(prefix + "/" + name) == DEFAULT_PAGE
  {
    assert prefix + "/" + name == prefix + ['/'] + name;
    LastSegmentAfter(prefix, '/', name);
  }

  /** A page in a sub-folder of `/pages/` is still found: `/x/pages/sub/page3.html` gives `page3.html`. */
  lemma {:induction false} CurrentPageInSubfolder(dir: string, sub: string, name: string)
    requires IsPageIdentifier(name)
    ensures GetCurrentPageFromLocation(dir + PAGES_FOLDER + sub + "/" + name) == name
  {
    var prefix := dir + PAGES_FOLDER + sub;
    assert prefix + "/" + name == dir + PAGES_FOLDER + sub + "/" + name;
    assert (prefix + "/" + name)[|dir|..|dir| + 7] == PAGES_FOLDER;
    assert OccursAt(prefix + "/" + name, PAGES_FOLDER, |dir|);
    IdentifierIsPlain(name);
    CurrentPageOfLastSegment(prefix, name);
  }

  function SanitizeEach(vs: seq<Value>): (r: seq<string>)
    ensures |r| == |vs| && forall k :: 0 <= k < |vs| ==> r[k] == SanitizePageName(vs[k])
  {
    seq(|vs|, k requires 0 <= k < |vs| => SanitizePageName(vs[k]))
  }

  /**
   * The pages to export: an array is sanitised element-wise and deduplicated; a non-blank
   * string becomes one sanitised name; anything else, or an empty array, falls back to the
   * page being viewed.
   */
  function ResolvePagesToExport(target: Value, pathname: string): (r: seq<string>)
    ensures |r| >= 1 && Distinct(r)
    ensures forall k :: 0 <= k < |r| ==> IsPageIdentifier(r[k])
  {
    match target
    case Array(elements) =>
      var sanitized := DropEmpty(SanitizeEach(elements));
      var unique := Dedup(sanitized);
      if |unique| > 0 then unique else [GetCurrentPageFromLocation(pathname)]
    case Str(s) =>
      if Trim(s) != "" then [SanitizePageName(target)] else [GetCurrentPageFromLocation(pathname)]
    case _ => [GetCurrentPageFromLocation(pathname)]
  }

  /**
   * For a non-empty array: every element contributes its sanitised name (invalid ones the
   * default page, none dropped), nothing else appears, and the order is that of first occurrence.
   */
  lemma {:induction false} ResolveArray(elements: seq<Value>, pathname: string)
    requires |elements| >= 1
    ensures var r := ResolvePagesToExport(Array(elements), pathname);
      && r == Dedup(SanitizeEach(elements))
      && (forall k :: 0 <= k < |elements| ==> SanitizePageName(elements[k]) in r)
      && (forall k :: 0 <= k < |r| ==> r[k] in SanitizeEach(elements))
      && (forall i, j :: 0 <= i < j < |r| ==>
            FirstIndex(SanitizeEach(elements), r[i]) < FirstIndex(SanitizeEach(elements), r[j]))
  {
    var sanitized := SanitizeEach(elements);
    DropEmptyOfNonEmpty(sanitized);
    assert sanitized[0] in Dedup(sanitized);
    DedupKeepsFirstOccurrenceOrder(sanitized);
  }

  /** An empty array, a blank string and a non-string all export the page being viewed. */
  lemma FallsBackToLocation(target: Value, pathname: string)
    requires target == Array([]) || (target.Str? && Trim(target.s) == "") || target.Undefined? || target.Object?
    ensures ResolvePagesToExport(target, pathname) == [GetCurrentPageFromLocation(pathname)]
  {
  }

  /** A non-blank string is one name and is not split on commas. */
  lemma StringTargetIsOneName(s: string, pathname: string)
    requires Trim(s) != ""
    ensures ResolvePagesToExport(Str(s), pathname) == [SanitizePageName(Str(s))]
  {
  }

  /** A comma-joined list passed as a string is one invalid name, so it becomes the default page. */
  lemma CommaListStringIsDefaulted(pathname: string)
    ensures ResolvePagesToExport(Str("page2.html,page3.html"), pathname) == [DEFAULT_PAGE]
  {
    var list := "page2.html,page3.html";
    assert NoWhitespace(list);
    assert Trim(list) == list;
    assert !IsNameChar(list[10]);
    assert !IsPageIdentifier(list);
  }

  /** The query parameter the export request carries. */
  datatype QueryParam = QueryParam(name: string, value: string)

  /** One page goes in `page`, any other number in `pages`, comma-joined. */
  function BuildEndpointForPages(pages: seq<string>): (q: QueryParam)
    ensures q.name == "page" <==> |pages| == 1
    ensures q.name == "page" || q.name == "pages"
    ensures |pages| == 1 ==> q.value == pages[0]
  {
    if |pages| == 1 then QueryParam("page", pages[0]) else QueryParam("pages", Join(pages, ","))
  }

  /** Splitting the parameter value on `,` recovers the list, for comma-free names. */
  lemma {:induction false} EndpointValueSplitsBack(pages: seq<string>)
    requires |pages| >= 1
    requires forall k :: 0 <= k < |pages| ==> ',' !in pages[k]
    ensures Split(BuildEndpointForPages(pages).value, ',') == pages
  {
    if |pages| == 1 {
      SplitWithoutSeparator(pages[0], ',');
    } else {
      SplitOfJoin(pages, ',');
    }
  }

  /** A character the capture `[^";]` admits. */
  predicate IsCaptureChar(c: char) {
    c != '"' && c != ';'
  }

  /** The longest run of capture characters starting at `i` (the greedy `[^";]+`). */
  function CaptureRun(s: string, i: nat): (r: string)
    requires i <= |s|
    decreases |s| - i
    ensures i + |r| <= |s| && r == s[i..i + |r|]
    ensures forall k :: 0 <= k < |r| ==> IsCaptureChar(r[k])
    ensures i + |r| == |s| || !IsCaptureChar(s[i + |r|])
  {
    if i < |s| && IsCaptureChar(s[i]) then [s[i]] + CaptureRun(s, i + 1) else ""
  }

  const FILENAME_KEY: string := "filename="

  /** The capture of `/filename="?([^";]+)"?/i` for a match starting at `i`, if one starts there. */
  function FilenameMatchAt(s: string, i: nat): (r: Option<string>)
    requires i <= |s|
    ensures r.Some? ==> |r.value| >= 1
  {
    if i + 9 <= |s| && ToLowerAscii(s[i..i + 9]) == FILENAME_KEY then
      var j := i + 9;
      if j + 1 < |s| && s[j] == '"' && IsCaptureChar(s[j + 1]) then Some(CaptureRun(s, j + 1))
      else if j < |s| && IsCaptureChar(s[j]) then Some(CaptureRun(s, j))
      else None
    else None
  }

  /** `String.prototype.match`: the capture of the leftmost match starting at or after `from`. */
  function FindFilename(s: string, from: nat): (r: Option<string>)
    requires from <= |s|
    decreases |s| - from
    ensures r.Some? ==> |r.value| >= 1 && forall k :: 0 <= k < |r.value| ==> IsCaptureChar(r.value[k])
    ensures r.None? ==> forall i :: from <= i <= |s| ==> FilenameMatchAt(s, i).None?
  {
    match FilenameMatchAt(s, from)
    case Some(name) => Some(name)
    case None => if from < |s| then FindFilename(s, from + 1) else None
  }

  /**
   * The download name: the `filename` of the `Content-Disposition` header when it has one,
   * otherwise the template filled with the names joined by `-`, `.html` removed.
   * The caller always passes at least one page (`pages[0]` is read).
   */
  function ResolveDownloadFilename(disposition: Option<string>, pages: seq<string>): (r: string)
    requires |pages| >= 1
    ensures FindFilename(disposition.GetOr(""), 0).Some? ==> r == FindFilename(disposition.GetOr(""), 0).value
  {
    var header := disposition.GetOr("");
    match FindFilename(header, 0)
    case Some(name) => name
    case None =>
      var pageSlug := Join(seq(|pages|, k requires 0 <= k < |pages| => ReplaceFirst(pages[k], HTML_SUFFIX, "")), "-");
      ReplaceFirst(ReplaceFirst(PDF_FILENAME_TEMPLATE, "{pages}", pageSlug), "{page}", ReplaceFirst(pages[0], HTML_SUFFIX, ""))
  }

  /** The `{pages}` placeholder is the first `{` of the template. */
  lemma PagesPlaceholderFilled(slug: string)
    ensures ReplaceFirst(PDF_FILENAME_TEMPLATE, "{pages}", slug) == REPORT_PREFIX + slug + ".pdf"
  {
    var t := PDF_FILENAME_TEMPLATE;
    assert |REPORT_PREFIX| == 15 && '{' !in REPORT_PREFIX;
    assert forall k :: 0 <= k < 15 ==> t[k] == REPORT_PREFIX[k];
    assert t[15..22] == "{pages}";
    ReplaceAt(t, "{pages}", slug, 15);
    assert t[..15] == REPORT_PREFIX && t[22..] == ".pdf";
  }

  /** A string without `{` holds no `{page}` placeholder, so replacing one leaves it as it is. */
  lemma NoPagePlaceholder(s: string, first: string)
    requires '{' !in s
    ensures ReplaceFirst(s, "{page}", first) == s
  {
    assert "{page}"[0] == '{';
    AbsentFirstChar(s, "{page}");
  }

  /** Filling the template with a brace-free slug: the second `replace` finds no `{page}` left. */
  lemma TemplateFilled(slug: string, first: string)
    requires '{' !in slug
    ensures ReplaceFirst(ReplaceFirst(PDF_FILENAME_TEMPLATE, "{pages}", slug), "{page}", first)
      == REPORT_PREFIX + slug + ".pdf"
  {
    PagesPlaceholderFilled(slug);
    var filled := REPORT_PREFIX + slug + ".pdf";
    assert '{' !in filled by {
      assert '{' !in REPORT_PREFIX && '{' !in ".pdf";
    }
    NoPagePlaceholder(filled, first);
  }


  /** The stems of page identifiers, joined by `-`, hold no brace. */
  lemma {:induction false} SlugHasNoBrace(pages: seq<string>)
    requires forall k :: 0 <= k < |pages| ==> IsPageIdentifier(pages[k])
    ensures '{' !in Join(Stems(pages), "-")
  {
    JoinedStemsAreNameChars(pages);
  }

  /** Without a header filename, page identifiers give `hurwitz-report-<stems joined by ->.pdf`. */
  lemma {:induction false} FallbackFilename(disposition: Option<string>, pages: seq<string>)
    requires |pages| >= 1
    requires forall k :: 0 <= k < |pages| ==> IsPageIdentifier(pages[k])
    requires FindFilename(disposition.GetOr(""), 0).None?
    ensures ResolveDownloadFilename(disposition, pages) == REPORT_PREFIX + Join(Stems(pages), "-") + ".pdf"
  {
    var stripped := seq(|pages|, k requires 0 <= k < |pages| => ReplaceFirst(pages[k], HTML_SUFFIX, ""));
    forall k | 0 <= k < |pages| ensures stripped[k] == Stem(pages[k]) {
      ReplaceSuffixGivesStem(pages[k]);
    }
    assert stripped == Stems(pages);
    SlugHasNoBrace(pages);
    TemplateFilled(Join(Stems(pages), "-"), ReplaceFirst(pages[0], HTML_SUFFIX, ""));
  }

  /** An error raised while exporting, by its `name` and `message`. */
  datatype JsError = JsError(name: string, message: string)

  const TIMEOUT_MESSAGE: string := "PDF generation timed out. The report may be too large.\n\nPlease try again or contact support."
  const CONNECT_MESSAGE: string := "Cannot connect to PDF Export Server.\n\nPlease ensure the server is running:\nnpm start"
  const SERVER_DOWN_MARKER: string := "PDF Export Server is not running"
  const FAILED_TO_FETCH: string := "Failed to fetch"
  /** The error the client throws when the health check fails. */
  const SERVER_DOWN_MESSAGE: string :=
    SERVER_DOWN_MARKER + ".\n\nPlease start the server by running:\nnpm install (first time only)\nnpm start\n\nThen try exporting again."

  /** The alert text for a failed export; the checks are made in this order. */
  function ErrorMessage(e: JsError): (r: string)
    ensures e.name == "AbortError" ==> r == TIMEOUT_MESSAGE
    ensures r == TIMEOUT_MESSAGE || r == CONNECT_MESSAGE || r == e.message || r == "Error: " + e.message
    ensures r == e.message && r != TIMEOUT_MESSAGE && r != CONNECT_MESSAGE ==> Contains(e.message, SERVER_DOWN_MARKER)
  {
    if e.name == "AbortError" then TIMEOUT_MESSAGE
    else if Contains(e.message, SERVER_DOWN_MARKER) then e.message
    else if Contains(e.message, FAILED_TO_FETCH) then CONNECT_MESSAGE
    else "Error: " + e.message
  }

  /** The health-check failure is shown word for word; a network failure of `fetch` gets the connect advice. */
  lemma ServerDownAndNetworkMessages()
    ensures ErrorMessage(JsError("Error", SERVER_DOWN_MESSAGE)) == SERVER_DOWN_MESSAGE
    ensures ErrorMessage(JsError("TypeError", FAILED_TO_FETCH)) == CONNECT_MESSAGE
  {
    assert SERVER_DOWN_MESSAGE[..|SERVER_DOWN_MARKER|] == SERVER_DOWN_MARKER;
    assert OccursAt(SERVER_DOWN_MESSAGE, SERVER_DOWN_MARKER, 0);
    assert OccursAt(FAILED_TO_FETCH, FAILED_TO_FETCH, 0);
  }

  /**
   * The two middle branches, for every error that is no timeout: a message holding the
   * health-check marker is shown as it is, even when it also holds `Failed to fetch`; one
   * holding only `Failed to fetch` gets the connect advice.
   */
  lemma MarkerAndFetchBranches(e: JsError)
    requires e.name != "AbortError"
    ensures Contains(e.message, SERVER_DOWN_MARKER) ==> ErrorMessage(e) == e.message
    ensures !Contains(e.message, SERVER_DOWN_MARKER) && Contains(e.message, FAILED_TO_FETCH) ==> ErrorMessage(e) == CONNECT_MESSAGE
  {
  }

  /** Any other error is prefixed with `Error: `. */
  lemma OtherErrorsArePrefixed(e: JsError)
    requires e.name != "AbortError"
    requires !Contains(e.message, SERVER_DOWN_MARKER) && !Contains(e.message, FAILED_TO_FETCH)
    ensures ErrorMessage(e) == "Error: " + e.message
  {
  }
}
