/**
 * How the browser client and the export server fit together: the query the client
 * sends is read back by the server as the same page list, and the attachment name the
 * server puts in `Content-Disposition` is the name the client saves the file under.
 */
module Interop {
  import opened Wrappers
  import opened Text
  import opened Seqs
  import opened Js
  import opened PageIdentifier
  import ClientExport
  import Server

  /** The server's view of the query string the client builds: the one parameter set, the other absent. */
  function QueryOf(param: ClientExport.QueryParam): (q: Server.Query)
    ensures param.name == "page" ==> q.pages.Undefined? && q.page == Str(param.value)
    ensures param.name != "page" ==> q.pages == Str(param.value) && q.page.Undefined?
  {
    if param.name == "page" then Server.Query(Undefined, Str(param.value))
    else Server.Query(Str(param.value), Undefined)
  }

  /** Any non-empty list of distinct page identifiers survives the trip through the query string unchanged. */
  lemma {:induction false} QueryRoundTrip(ps: seq<string>)
    requires |ps| >= 1 && Distinct(ps)
    requires forall k :: 0 <= k < |ps| ==> IsPageIdentifier(ps[k])
    ensures Server.RequestedPages(QueryOf(ClientExport.BuildEndpointForPages(ps))) == Success(ps)
  {
    if |ps| == 1 {
      assert Join(ps, ",") == ps[0];
    }
    Server.NormalizeJoinRoundTrip(ps);
  }

  /** Whatever the client was asked to export, the server renders exactly the list the client resolved. */
  lemma ServerReadsClientList(target: Value, pathname: string)
    ensures var ps := ClientExport.ResolvePagesToExport(target, pathname);
      Server.RequestedPages(QueryOf(ClientExport.BuildEndpointForPages(ps))) == Success(ps)
  {
    QueryRoundTrip(ClientExport.ResolvePagesToExport(target, pathname));
  }

  /** The leftmost match is the first position where one starts. */
  lemma {:induction false} FirstMatchIsFound(s: string, from: nat, at: nat)
    requires from <= at <= |s|
    requires forall i :: from <= i < at ==> ClientExport.FilenameMatchAt(s, i).None?
    requires ClientExport.FilenameMatchAt(s, at).Some?
    ensures ClientExport.FindFilename(s, from) == ClientExport.FilenameMatchAt(s, at)
    decreases at - from
  {
    if from < at {
      FirstMatchIsFound(s, from + 1, at);
    }
  }

  /** A run of capture characters closed by a quote is captured whole. */
  lemma {:induction false} CaptureUpToQuote(s: string, i: nat, name: string)
    requires i + |name| < |s| && s[i..i + |name|] == name && s[i + |name|] == '"'
    requires forall k :: 0 <= k < |name| ==> ClientExport.IsCaptureChar(name[k])
    ensures ClientExport.CaptureRun(s, i) == name
    decreases |name|
  {
    if |name| > 0 {
      assert s[i] == name[0];
      assert s[i + 1..i + 1 + |name[1..]|] == name[1..];
      CaptureUpToQuote(s, i + 1, name[1..]);
      assert [name[0]] + name[1..] == name;
    }
  }

  const ATTACHMENT: string := "attachment; "

  /** No match starts inside `attachment; `: none of its characters is an `f` in either case. */
  lemma NoMatchInAttachment(s: string)
    requires |s| >= 12 && s[..12] == ATTACHMENT
    ensures forall i :: 0 <= i < 12 ==> ClientExport.FilenameMatchAt(s, i).None?
  {
    forall i | 0 <= i < 12 ensures ClientExport.FilenameMatchAt(s, i).None? {
      assert s[i] == ATTACHMENT[i];
      if i + 9 <= |s| {
        assert ToLowerAscii(s[i..i + 9])[0] == LowerChar(s[i]);
      }
    }
  }

  /** The header's parts, by position. */
  lemma DispositionLayout(name: string)
    ensures var s := Server.ContentDisposition(name);
      && |s| == 23 + |name| && s[..12] == ATTACHMENT && s[12..21] == ClientExport.FILENAME_KEY
      && s[21] == '"' && s[22..22 + |name|] == name && s[22 + |name|] == '"'
  {
    var s := Server.ContentDisposition(name);
    assert s == ATTACHMENT + ClientExport.FILENAME_KEY + "\"" + name + "\"";
  }

  /** `filename="<name>"` after `attachment; ` is where the pattern first matches, and it captures `name`. */
  lemma {:induction false} DispositionNameIsFound(name: string)
    requires |name| >= 1
    requires forall k :: 0 <= k < |name| ==> ClientExport.IsCaptureChar(name[k])
    ensures ClientExport.FindFilename(Server.ContentDisposition(name), 0) == Some(name)
  {
    var s := Server.ContentDisposition(name);
    DispositionLayout(name);
    NoMatchInAttachment(s);
    assert ToLowerAscii(s[12..21]) == ClientExport.FILENAME_KEY;
    assert s[22] == name[0];
    CaptureUpToQuote(s, 22, name);
    FirstMatchIsFound(s, 0, 12);
  }

  /** The client saves the PDF under the name the server chose. */
  lemma DownloadNameRoundTrip(pages: seq<string>)
    requires forall k :: 0 <= k < |pages| ==> IsPageIdentifier(pages[k])
    requires |pages| >= 1
    ensures ClientExport.ResolveDownloadFilename(Some(Server.ContentDisposition(Server.DownloadName(pages))), pages)
      == Server.DownloadName(pages)
  {
    var name := Server.DownloadName(pages);
    Server.DownloadNameShape(pages);
    forall k | 0 <= k < |name| ensures ClientExport.IsCaptureChar(name[k]) {
      assert name[k] in name;
    }
    DispositionNameIsFound(name);
  }

  /**
   * When the browser hides `Content-Disposition` (a page served from another origin: the
   * server's `cors()` exposes no extra headers), the client's fallback name agrees with the
   * server's for several pages, and carries the `hurwitz-report-` prefix the server leaves
   * off for a single page.
   */
  lemma HiddenHeaderDownloadName(ps: seq<string>)
    requires |ps| >= 1
    requires forall k :: 0 <= k < |ps| ==> IsPageIdentifier(ps[k])
    ensures |ps| != 1 ==> ClientExport.ResolveDownloadFilename(None, ps) == Server.DownloadName(ps)
    ensures |ps| == 1 ==> ClientExport.ResolveDownloadFilename(None, ps) == ClientExport.REPORT_PREFIX + Server.DownloadName(ps)
    ensures |ps| == 1 ==> ClientExport.ResolveDownloadFilename(None, ps) != Server.DownloadName(ps)
  {
    if |ps| == 1 {
      HiddenHeaderOnePage(ps[0]);
      assert [ps[0]] == ps;
    } else {
      HiddenHeaderSeveralPages(ps);
    }
  }

  /** For one page the fallback is `hurwitz-report-<stem>.pdf`, the server's `<stem>.pdf` prefixed. */
  lemma HiddenHeaderOnePage(p: string)
    requires IsPageIdentifier(p)
    ensures ClientExport.ResolveDownloadFilename(None, [p]) == ClientExport.REPORT_PREFIX + Server.DownloadName([p])
  {
    var stem := Stem(p);
    assert Join(Stems([p]), "-") == stem by {
      assert Stems([p]) == [stem];
    }
    ClientExport.FallbackFilename(None, [p]);
    assert ClientExport.REPORT_PREFIX + stem + ".pdf" == ClientExport.REPORT_PREFIX + (stem + ".pdf");
  }

  /** For several pages the fallback and the server's name are both `hurwitz-report-<stems>.pdf`. */
  lemma HiddenHeaderSeveralPages(ps: seq<string>)
    requires |ps| >= 2
    requires forall k :: 0 <= k < |ps| ==> IsPageIdentifier(ps[k])
    ensures ClientExport.ResolveDownloadFilename(None, ps) == Server.DownloadName(ps)
  {
    ClientExport.FallbackFilename(None, ps);
  }

  /**
   * The whole exchange: the client resolves its pages and sends them; when the renderer
   * succeeds on that list, the server answers 200 and the client saves the PDF under the
   * server's download name for exactly the pages it asked for.
   */
  lemma ExportExchange(target: Value, pathname: string, render: seq<string> -> Server.RenderOutcome)
    requires render(ClientExport.ResolvePagesToExport(target, pathname)).Rendered?
    ensures var ps := ClientExport.ResolvePagesToExport(target, pathname);
      var resp := Server.HandleGeneratePdf(QueryOf(ClientExport.BuildEndpointForPages(ps)), render);
      && resp.PdfResponse? && resp.status == 200
      && resp.body == render(ps).pdf
      && ClientExport.ResolveDownloadFilename(Some(resp.contentDisposition), ps) == Server.DownloadName(ps)
  {
    var ps := ClientExport.ResolvePagesToExport(target, pathname);
    ServerReadsClientList(target, pathname);
    DownloadNameRoundTrip(ps);
  }
}
