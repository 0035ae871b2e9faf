/**
 * The export server's request handling: the strict page-name sanitiser (after a
 * posix `basename`), the page-list normaliser, the download name and the
 * status decision of `GET /api/generate-pdf`. Rendering is a parameter.
 */
module Server {
  import opened Wrappers
  import opened Text
  import opened Seqs
  import opened Js
  import opened PageIdentifier

  const DOWNLOAD_PREFIX: string := "hurwitz-report-"
  const PDF_EXTENSION: string := ".pdf"

  /** The errors `sanitizePageName` throws. */
  datatype PageError =
    | NotHtml        // the basename does not end in `.html`, in any case
    | InvalidName    // it does, but it does not match the identifier pattern
    | PathNotString  // `path.basename` was handed something other than a string

  function ErrorText(e: PageError): string {
    match e
    case NotHtml => "Only .html files can be exported."
    case InvalidName => "Invalid page name. Use alphanumeric characters, dashes, and underscores only."
    case PathNotString => "The \"path\" argument must be of type string."
  }

  /** `p` without its trailing `/` characters. */
  function StripTrailingSlashes(p: string): (r: string)
    ensures |r| <= |p| && r == p[..|r|]
    ensures forall k :: |r| <= k < |p| ==> p[k] == '/'
    ensures r == [] || r[|r| - 1] != '/'
  {
    if |p| > 0 && p[|p| - 1] == '/' then StripTrailingSlashes(p[..|p| - 1]) else p
  }

  /** Node's posix `path.basename(p)`: the last segment once trailing `/` are dropped (`""` for `"/"`). */
  function Basename(p: string): (r: string)
    ensures '/' !in r
    ensures '/' !in p ==> r == p
  {
    var stripped := StripTrailingSlashes(p);
    if '/' in p then LastSegment(stripped, '/')
    else
      assert stripped == p;
      LastSegmentOfPlain(p, '/');
      LastSegment(stripped, '/')
  }

  /** Trailing `/` after a segment that does not end in one are all dropped. */
  lemma {:induction false} StripSlashesAfter(p: string, trail: string)
    requires p == [] || p[|p| - 1] != '/'
    requires forall k :: 0 <= k < |trail| ==> trail[k] == '/'
    ensures StripTrailingSlashes(p + trail) == p
    decreases |trail|
  {
    if |trail| == 0 {
      assert p + trail == p;
    } else {
      var init := trail[..|trail| - 1];
      assert (p + trail)[..|p + trail| - 1] == p + init;
      StripSlashesAfter(p, init);
    }
  }

  /** `path.basename` ignores trailing `/`: `dir/name///` has basename `name`. */
  lemma BasenameDropsTrailingSlashes(dir: string, name: string, trail: string)
    requires '/' !in name && name != ""
    requires forall k :: 0 <= k < |trail| ==> trail[k] == '/'
    ensures Basename(dir + "/" + name + trail) == name
  {
    var path := dir + "/" + name;
    assert path[|path| - 1] == name[|name| - 1];
    StripSlashesAfter(path, trail);
    assert '/' in dir + "/" + name + trail by {
      assert (dir + "/" + name + trail)[|dir|] == '/';
    }
    LastSegmentAfter(dir, '/', name);
    assert dir + "/" + name == dir + ['/'] + name;
  }

  /** The basename of `dir/name` is `name`, whatever `dir` holds. */
  lemma BasenameOfPath(dir: string, name: string)
    requires '/' !in name && name != ""
    ensures Basename(dir + "/" + name) == name
  {
    LastSegmentAfter(dir, '/', name);
  }

  /** The `.html` test, then the identifier test, on a basename. */
  function CheckCandidate(candidate: string): (r: Result<string, PageError>)
    ensures r.Success? ==> r.value == candidate && IsPageIdentifier(candidate)
  {
    if !EndsWith(ToLowerAscii(candidate), HTML_SUFFIX) then Failure(NotHtml)
    else if !IsPageIdentifier(candidate) then Failure(InvalidName)
    else Success(candidate)
  }

  /** Strict policy: the basename of the input (the default page for a falsy one), or an error. */
  function SanitizePageName(raw: Value): (r: Result<string, PageError>)
    ensures r.Success? ==> IsPageIdentifier(r.value) && '/' !in r.value
  {
    match raw
    case Undefined => CheckCandidate(Basename(DEFAULT_PAGE))
    case Str(s) => CheckCandidate(Basename(if s == "" then DEFAULT_PAGE else s))
    case _ => Failure(PathNotString)
  }

  /**
   * For a non-empty string: accepted, as its basename, exactly when that basename is an
   * identifier; rejected as "not .html" exactly when the basename lacks a `.html` suffix in
   * any case; rejected as an invalid name otherwise.
   */
  lemma {:induction false} SanitizeDecision(s: string)
    requires s != ""
    ensures SanitizePageName(Str(s)) == Success(Basename(s)) <==> IsPageIdentifier(Basename(s))
    ensures SanitizePageName(Str(s)) == Failure(NotHtml) <==> !EndsWith(ToLowerAscii(Basename(s)), HTML_SUFFIX)
    ensures SanitizePageName(Str(s)) == Failure(InvalidName) <==>
      EndsWith(ToLowerAscii(Basename(s)), HTML_SUFFIX) && !IsPageIdentifier(Basename(s))
  {
    var b := Basename(s);
    if IsPageIdentifier(b) {
      IdentifierIsPlain(b);
      assert ToLowerAscii(b)[|b| - 5..] == ToLowerAscii(b[|b| - 5..]);
    }
  }

  /** A missing or empty name is the default page. */
  lemma SanitizeDefaults()
    ensures SanitizePageName(Undefined) == Success(DEFAULT_PAGE)
    ensures SanitizePageName(Str("")) == Success(DEFAULT_PAGE)
  {
    DefaultIsIdentifier();
    IdentifierIsPlain(DEFAULT_PAGE);
    assert ToLowerAscii(DEFAULT_PAGE)[5..] == ToLowerAscii(DEFAULT_PAGE[5..]);
  }

  /** Every identifier passes unchanged. */
  lemma SanitizeKeepsIdentifiers(p: string)
    requires IsPageIdentifier(p)
    ensures SanitizePageName(Str(p)) == Success(p)
  {
    IdentifierIsPlain(p);
    SanitizeDecision(p);
  }

  /** Whatever directories precede it, a path is reduced to its last segment before it is checked. */
  lemma TraversalIsReducedToBasename(dir: string, name: string)
    requires IsPageIdentifier(name)
    ensures SanitizePageName(Str(dir + "/" + name)) == Success(name)
  {
    IdentifierIsPlain(name);
    BasenameOfPath(dir, name);
    SanitizeDecision(dir + "/" + name);
  }

  /** A path with trailing `/` after an identifier is accepted as that identifier. */
  lemma TrailingSlashesAreAccepted(dir: string, name: string, trail: string)
    requires IsPageIdentifier(name)
    requires forall k :: 0 <= k < |trail| ==> trail[k] == '/'
    ensures SanitizePageName(Str(dir + "/" + name + trail)) == Success(name)
  {
    IdentifierIsPlain(name);
    BasenameDropsTrailingSlashes(dir, name, trail);
    SanitizeDecision(dir + "/" + name + trail);
  }

  /** `String(raw)`. */
  function ParamString(raw: Value): string {
    match raw
    case Str(s) => s
    case Undefined => "undefined"
    case _ => OBJECT_STRING
  }

  function TrimEach(xs: seq<string>): seq<string>
  {
    seq(|xs|, k requires 0 <= k < |xs| => Trim(xs[k]))
  }

  /** The values that get sanitised: an array as it is, anything else split on `,`, trimmed, blanks dropped. */
  function PageValues(raw: Value): seq<Value> {
    if raw.Array? then raw.elements
    else Strs(DropEmpty(TrimEach(Split(ParamString(raw), ','))))
  }

  /** Every value sanitised, in order, or the first error `sanitizePageName` throws. */
  function SanitizeAll(vs: seq<Value>): Result<seq<string>, PageError> {
    MapUntilFailure(SanitizePageName, vs)
  }

  /** The sanitised values without repeats, in first-occurrence order, or the first error. */
  function UniqueSanitized(vs: seq<Value>): Result<seq<string>, PageError> {
    match SanitizeAll(vs)
    case Failure(e) => Failure(e)
    case Success(names) => Success(Dedup(names))
  }

  /** The page list made of sanitised values: their deduplication, the default page when none is left, or the first error. */
  function NormalizedValues(vs: seq<Value>): (r: Result<seq<string>, PageError>)
    ensures r.Success? ==> |r.value| >= 1 && Distinct(r.value)
    ensures r.Success? ==> forall k :: 0 <= k < |r.value| ==> IsPageIdentifier(r.value[k])
  {
    DefaultIsIdentifier();
    match UniqueSanitized(vs)
    case Failure(e) => Failure(e)
    case Success(unique) => if |unique| > 0 then Success(unique) else Success([DEFAULT_PAGE])
  }

  /** The page list of a parameter value: `['page1.html']` for a falsy one, otherwise the deduplicated sanitised values or the first error. */
  function NormalizedPages(raw: Value): (r: Result<seq<string>, PageError>)
    ensures r.Success? ==> |r.value| >= 1 && Distinct(r.value)
    ensures r.Success? ==> forall k :: 0 <= k < |r.value| ==> IsPageIdentifier(r.value[k])
    ensures !Truthy(raw) ==> r == Success([DEFAULT_PAGE])
  {
    DefaultIsIdentifier();
    if !Truthy(raw) then Success([DEFAULT_PAGE]) else NormalizedValues(PageValues(raw))
  }

  /** `normalizePageList`: a falsy value is the default page; otherwise its values are sanitised and deduplicated. */
  method NormalizePageList(raw: Value) returns (r: Result<seq<string>, PageError>)
    ensures r == NormalizedPages(raw)
  {
    if !Truthy(raw) {
      return Success([DEFAULT_PAGE]);
    }
    var values := PageValues(raw);
    var unique := SanitizeUnique(values);
    r := match unique
      case Failure(e) => Failure(e)
      case Success(sanitized) => if |sanitized| > 0 then Success(sanitized) else Success([DEFAULT_PAGE]);
  }

  /** The `for` loop of `normalizePageList`: sanitise each value, `push` it unless `includes` finds it, throw at the first rejection. */
  method SanitizeUnique(values: seq<Value>) returns (r: Result<seq<string>, PageError>)
    ensures r == UniqueSanitized(values)
  {
    var sanitized: seq<string> := [];
    var i := 0;
    while i < |values|
      invariant 0 <= i <= |values|
      invariant UniqueSanitized(values[..i]) == Success(sanitized)
    {
      var pageName := SanitizePageName(values[i]);
      if pageName.Failure? {
        NormalizeStopsAt(values, i);
        return Failure(pageName.error);
      }
      NormalizeStep(values, i, sanitized);
      if pageName.value !in sanitized {
        sanitized := sanitized + [pageName.value];
      }
      i := i + 1;
    }
    assert values[..i] == values;
    r := Success(sanitized);
  }

  /** The loop of `normalizePageList` throws at the first rejected value. */
  lemma NormalizeStopsAt(values: seq<Value>, i: nat)
    requires i < |values| && UniqueSanitized(values[..i]).Success? && SanitizePageName(values[i]).Failure?
    ensures UniqueSanitized(values) == Failure(SanitizePageName(values[i]).error)
  {
    MapUntilFailureStep(SanitizePageName, values, i);
    MapUntilFailureStaysFailed(SanitizePageName, values, i + 1);
  }

  /** One accepted value: pushed unless already included. */
  lemma NormalizeStep(values: seq<Value>, i: nat, sanitized: seq<string>)
    requires i < |values| && UniqueSanitized(values[..i]) == Success(sanitized) && SanitizePageName(values[i]).Success?
    ensures var name := SanitizePageName(values[i]).value;
      UniqueSanitized(values[..i + 1]) == Success(if name in sanitized then sanitized else sanitized + [name])
  {
    MapUntilFailureStep(SanitizePageName, values, i);
    var names := SanitizeAll(values[..i]).value;
    var name := SanitizePageName(values[i]).value;
    assert (names + [name])[..|names|] == names;
  }

  /**
   * The whole list fails when any value fails, with the error of the first failing value;
   * otherwise it is the sanitised values in first-occurrence order, without duplicates.
   */
  lemma {:induction false} NormalizeIsAllOrNothing(vs: seq<Value>)
    ensures NormalizedValues(vs).Failure? <==> exists k :: 0 <= k < |vs| && SanitizePageName(vs[k]).Failure?
    ensures NormalizedValues(vs).Failure? ==> exists k :: 0 <= k < |vs| && SanitizePageName(vs[k]) == Failure(NormalizedValues(vs).error) && forall j :: 0 <= j < k ==> SanitizePageName(vs[j]).Success?
    ensures NormalizedValues(vs).Success? && |vs| > 0 ==>
              var names := SanitizeAll(vs).value;
              && NormalizedValues(vs).value == Dedup(names)
              && forall i, j :: 0 <= i < j < |Dedup(names)| ==> FirstIndex(names, Dedup(names)[i]) < FirstIndex(names, Dedup(names)[j])
  {
    if SanitizeAll(vs).Failure? {
      MapUntilFailureFirstFailure(SanitizePageName, vs);
    } else if |vs| > 0 {
      var names := SanitizeAll(vs).value;
      assert names[0] in Dedup(names);
      DedupKeepsFirstOccurrenceOrder(names);
    }
  }

  /** When every value is accepted, the list is the accepted names without their repeats. */
  lemma NormalizeOfAccepted(vs: seq<Value>, names: seq<string>)
    requires |names| >= 1 && SanitizeAll(vs) == Success(names)
    ensures NormalizedValues(vs) == Success(Dedup(names))
  {
    assert names[0] in Dedup(names);
  }

  /** Identifiers are accepted as they are. */
  lemma {:induction false} SanitizeIdentifiers(ps: seq<string>)
    requires forall k :: 0 <= k < |ps| ==> IsPageIdentifier(ps[k])
    ensures SanitizeAll(Strs(ps)) == Success(ps)
  {
    forall k | 0 <= k < |ps| ensures SanitizePageName(Strs(ps)[k]) == Success(ps[k]) {
      SanitizeKeepsIdentifiers(ps[k]);
    }
    MapUntilFailureAllSucceed(SanitizePageName, Strs(ps), ps);
  }

  /** Joining identifiers with `,` and splitting the result again gives back the identifiers. */
  lemma {:induction false} PageValuesOfJoin(ps: seq<string>)
    requires |ps| >= 1
    requires forall k :: 0 <= k < |ps| ==> IsPageIdentifier(ps[k])
    ensures Truthy(Str(Join(ps, ",")))
    ensures PageValues(Str(Join(ps, ","))) == Strs(ps)
  {
    forall k | 0 <= k < |ps| ensures ',' !in ps[k] && Trim(ps[k]) == ps[k] && ps[k] != "" {
      IdentifierIsPlain(ps[k]);
    }
    var joined := Join(ps, ",");
    SplitOfJoin(ps, ',');
    assert Split(joined, ',') == ps;
    assert Truthy(Str(joined)) by {
      assert Split(joined, ',') != [""];
    }
    assert TrimEach(ps) == ps;
    DropEmptyOfNonEmpty(ps);
  }

  /** A comma-joined list of identifiers normalises to the list without its repeats. */
  lemma NormalizeOfJoin(ps: seq<string>)
    requires |ps| >= 1
    requires forall k :: 0 <= k < |ps| ==> IsPageIdentifier(ps[k])
    ensures NormalizedPages(Str(Join(ps, ","))) == Success(Dedup(ps))
  {
    PageValuesOfJoin(ps);
    SanitizeIdentifiers(ps);
    NormalizeOfAccepted(Strs(ps), ps);
  }

  /** The comma-joined form of distinct identifiers normalises back to the same list. */
  lemma NormalizeJoinRoundTrip(ps: seq<string>)
    requires |ps| >= 1 && Distinct(ps)
    requires forall k :: 0 <= k < |ps| ==> IsPageIdentifier(ps[k])
    ensures NormalizedPages(Str(Join(ps, ","))) == Success(ps)
  {
    NormalizeOfJoin(ps);
    DedupOfDistinct(ps);
  }

  /** A repeated name is kept once, at its first position. */
  lemma RepeatedNameIsKeptOnce(a: string, b: string)
    requires IsPageIdentifier(a) && IsPageIdentifier(b) && a != b
    ensures NormalizedPages(Str(Join([a, a, b], ","))) == Success([a, b])
  {
    NormalizeOfJoin([a, a, b]);
    DedupDropsRepeat(a, b);
  }

  lemma PageValuesWithoutComma(s: string)
    requires ',' !in s
    ensures PageValues(Str(s)) == Strs(DropEmpty(TrimEach([s])))
  {
    SplitWithoutSeparator(s, ',');
  }

  lemma OnePieceIsTrimmed(s: string)
    requires Trim(s) != ""
    ensures DropEmpty(TrimEach([s])) == [Trim(s)]
  {
    assert TrimEach([s]) == [Trim(s)];
    DropEmptyOfNonEmpty([Trim(s)]);
  }

  lemma PageValuesOfOnePiece(s: string)
    requires ',' !in s && Trim(s) != ""
    ensures PageValues(Str(s)) == Strs([Trim(s)])
  {
    PageValuesWithoutComma(s);
    OnePieceIsTrimmed(s);
  }

  /** A list given as one string is trimmed piece by piece. */
  lemma {:induction false} StringListIsTrimmed(s: string)
    requires ',' !in s && IsPageIdentifier(Trim(s))
    ensures NormalizedPages(Str(s)) == Success([Trim(s)])
  {
    assert Truthy(Str(s)) by {
      assert |Trim(s)| <= |s|;
    }
    PageValuesOfOnePiece(s);
    assert NormalizedPages(Str(s)) == NormalizedValues(Strs([Trim(s)]));
    SanitizeIdentifiers([Trim(s)]);
    NormalizeOfAccepted(Strs([Trim(s)]), [Trim(s)]);
    assert [Trim(s)][..0] == [];
  }

  /** An array element is taken as it is, so a padded name is rejected. */
  lemma {:induction false} ArrayElementIsNotTrimmed(s: string)
    requires |s| > 0 && '/' !in s && IsWhitespace(s[0])
    ensures NormalizedPages(Array([Str(s)])).Failure?
  {
    assert !IsPageIdentifier(s) by {
      assert |s| - 5 > 0 ==> !IsNameChar(s[0]);
    }
    SanitizeDecision(s);
    MapUntilFailureStep(SanitizePageName, [Str(s)], 0);
    assert [Str(s)][..1] == [Str(s)];
  }

  /** `path.parse(name).name` for each page, joined into the attachment name. */
  function DownloadName(pages: seq<string>): (r: string)
    requires forall k :: 0 <= k < |pages| ==> IsPageIdentifier(pages[k])
    ensures EndsWith(r, PDF_EXTENSION)
  {
    if |pages| == 1 then Stem(pages[0]) + PDF_EXTENSION
    else DOWNLOAD_PREFIX + Join(Stems(pages), "-") + PDF_EXTENSION
  }

  /** The fixed parts of a download name hold no quote or `;`. */
  lemma DownloadLiteralsArePlain()
    ensures '"' !in DOWNLOAD_PREFIX && ';' !in DOWNLOAD_PREFIX
    ensures '"' !in PDF_EXTENSION && ';' !in PDF_EXTENSION
  {
  }

  /** Name characters between two pieces free of quotes and `;` give a string free of them. */
  lemma PlainConcat(prefix: string, middle: string, suffix: string)
    requires '"' !in prefix && ';' !in prefix && '"' !in suffix && ';' !in suffix
    requires forall i :: 0 <= i < |middle| ==> IsNameChar(middle[i])
    ensures '"' !in prefix + middle + suffix && ';' !in prefix + middle + suffix
  {
    var r := prefix + middle + suffix;
    forall i | 0 <= i < |r| ensures r[i] != '"' && r[i] != ';' {
      if i < |prefix| {
        assert r[i] == prefix[i];
      } else if i < |prefix| + |middle| {
        assert r[i] == middle[i - |prefix|];
      } else {
        assert r[i] == suffix[i - |prefix| - |middle|];
      }
    }
  }

  /** One page `x.html` downloads as `x.pdf`; several as `hurwitz-report-<stems>.pdf`; no name holds a quote or `;`. */
  lemma {:induction false} DownloadNameShape(pages: seq<string>)
    requires forall k :: 0 <= k < |pages| ==> IsPageIdentifier(pages[k])
    ensures |pages| == 1 ==> DownloadName(pages) == pages[0][..|pages[0]| - 5] + PDF_EXTENSION
    ensures |pages| != 1 ==> DownloadName(pages) == DOWNLOAD_PREFIX + Join(Stems(pages), "-") + PDF_EXTENSION
    ensures '"' !in DownloadName(pages) && ';' !in DownloadName(pages)
  {
    DownloadLiteralsArePlain();
    if |pages| == 1 {
      var st := Stem(pages[0]);
      PlainConcat("", st, PDF_EXTENSION);
      assert "" + st + PDF_EXTENSION == DownloadName(pages);
    } else {
      JoinedStemsAreNameChars(pages);
      PlainConcat(DOWNLOAD_PREFIX, Join(Stems(pages), "-"), PDF_EXTENSION);
    }
  }

  /** A single page `x.html` downloads as `x.pdf`. */
  lemma SinglePageDownloadName(x: string)
    requires IsPageIdentifier(x + HTML_SUFFIX)
    ensures DownloadName([x + HTML_SUFFIX]) == x + PDF_EXTENSION
  {
    DownloadNameShape([x + HTML_SUFFIX]);
    assert (x + HTML_SUFFIX)[..|x|] == x;
  }

  /** The `Content-Disposition` header the server sends. */
  function ContentDisposition(downloadName: string): string {
    "attachment; filename=\"" + downloadName + "\""
  }

  /** The two query parameters the endpoint reads; `Undefined` when absent. */
  datatype Query = Query(pages: Value, page: Value)

  /** `pages` wins whenever it is present, even when empty. */
  function RequestedPages(q: Query): Result<seq<string>, PageError> {
    if !q.pages.Undefined? then NormalizedPages(q.pages) else NormalizedPages(q.page)
  }

  /** What the renderer (`generatePDF`) does with a page list: the PDF bytes, or the message of what it threw. */
  datatype RenderOutcome = Rendered(pdf: seq<bv8>) | RenderFailed(message: string)

  datatype Response =
    | PdfResponse(status: int, contentType: string, contentDisposition: string, contentLength: int, body: seq<bv8>)
    | JsonError(status: int, error: string, message: string)

  /** `GET /api/generate-pdf`: 400 for a rejected page parameter, 500 for a failed render, 200 with the PDF otherwise. */
  function HandleGeneratePdf(q: Query, render: seq<string> -> RenderOutcome): (resp: Response)
    ensures resp.status == 400 <==> RequestedPages(q).Failure?
    ensures resp.status == 500 <==> RequestedPages(q).Success? && render(RequestedPages(q).value).RenderFailed?
    ensures resp.status == 200 <==> RequestedPages(q).Success? && render(RequestedPages(q).value).Rendered?
    ensures resp.PdfResponse? <==> resp.status == 200
  {
    match RequestedPages(q)
    case Failure(e) => JsonError(400, "Invalid page parameter", ErrorText(e))
    case Success(pageNames) =>
      match render(pageNames)
      case RenderFailed(message) => JsonError(500, "Failed to generate PDF", message)
      case Rendered(pdf) =>
        var downloadName := DownloadName(pageNames);
        PdfResponse(200, "application/pdf", ContentDisposition(downloadName), |pdf|, pdf)
  }

  /** A rejected page parameter is answered without the renderer: any two renderers give the same 400 response. */
  lemma ValidationFailureNeverRenders(q: Query, render1: seq<string> -> RenderOutcome, render2: seq<string> -> RenderOutcome)
    requires RequestedPages(q).Failure?
    ensures HandleGeneratePdf(q, render1) == HandleGeneratePdf(q, render2)
    ensures HandleGeneratePdf(q, render1) == JsonError(400, "Invalid page parameter", ErrorText(RequestedPages(q).error))
  {
  }

  /** A successful response carries exactly what the renderer produced for the normalised list, under its download name. */
  lemma SuccessCarriesRenderedPdf(q: Query, render: seq<string> -> RenderOutcome)
    requires HandleGeneratePdf(q, render).PdfResponse?
    ensures var resp := HandleGeneratePdf(q, render);
      && render(RequestedPages(q).value) == Rendered(resp.body)
      && resp.contentLength == |resp.body|
      && resp.contentDisposition == ContentDisposition(DownloadName(RequestedPages(q).value))
  {
  }
}
