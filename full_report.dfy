/**
 * The full-report button: the fixed list of the eighteen report pages, the override a
 * caller may pass instead, and the hand-off to the client exporter.
 */
module FullReport {
  import opened Wrappers
  import opened Text
  import opened Seqs
  import opened Js
  import opened PageIdentifier
  import opened LegacyPageList
  import ClientExport
  import Server

  /** `REPORT_PAGES`, in report order. */
  const REPORT_PAGES: seq<string> := [
    "page1.html", "page2.html", "page3.html", "page4.html", "page5.html", "page6.html",
    "page7.html", "page8.html", "page9.html", "page10.html", "page11.html", "page12.html",
    "page13.html", "page14.html", "page15.html", "page16.html", "page17.html", "page18.html"
  ]

  const EXPORTER_MISSING: string := "PDF exporter script is missing. Please ensure assets/js/pdf-export.js is loaded."

  /** `page1.html` up to `page{count}.html`. */
  function NumberedPages(count: nat): (r: seq<string>)
    ensures |r| == count
    ensures forall i :: 0 <= i < count ==> r[i] == PageFile(i + 1)
  {
    if count == 0 then [] else NumberedPages(count - 1) + [PageFile(count)]
  }

  /** Entry `i` of the list is `page{i+1}.html`. */
  lemma ReportPagesAreNumbered()
    ensures REPORT_PAGES == NumberedPages(18)
  {
    EntriesUpTo(18);
    assert REPORT_PAGES[..18] == REPORT_PAGES;
  }

  /** The first `k` entries of the literal are `page1.html` up to `page{k}.html`. */
  lemma {:induction false} EntriesUpTo(k: nat)
    requires k <= 18
    ensures REPORT_PAGES[..k] == NumberedPages(k)
  {
    if k > 0 {
      EntriesUpTo(k - 1);
      ReportEntry(k);
      NextEntry(k);
    }
  }

  /** Entry `k - 1` of the literal is `page{k}.html`, in four groups so that each proof stays small. */
  lemma ReportEntry(k: nat)
    requires 1 <= k <= 18
    ensures REPORT_PAGES[k - 1] == PageFile(k)
  {
    if k <= 6 {
      OneDigitEntries(k);
    } else if k <= 10 {
      EntriesSevenToTen(k);
    } else if k <= 14 {
      EntriesElevenToFourteen(k);
    } else {
      EntriesFifteenToEighteen(k);
    }
  }

  /** Entries 1 to 6, one case each. */
  lemma OneDigitEntries(k: nat)
    requires 1 <= k <= 6
    ensures REPORT_PAGES[k - 1] == PageFile(k)
  {
    if k == 1 {
      SmallPageFile(1);
    } else if k == 2 {
      SmallPageFile(2);
    } else if k == 3 {
      SmallPageFile(3);
    } else if k == 4 {
      SmallPageFile(4);
    } else if k == 5 {
      SmallPageFile(5);
    } else if k == 6 {
      SmallPageFile(6);
    }
  }

  /** Entries 7 to 10, one case each. */
  lemma EntriesSevenToTen(k: nat)
    requires 7 <= k <= 10
    ensures REPORT_PAGES[k - 1] == PageFile(k)
  {
    if k == 7 {
      SmallPageFile(7);
    } else if k == 8 {
      SmallPageFile(8);
    } else if k == 9 {
      SmallPageFile(9);
    } else if k == 10 {
      SmallPageFile(10);
    }
  }

  /** Entries 11 to 14, one case each. */
  lemma EntriesElevenToFourteen(k: nat)
    requires 11 <= k <= 14
    ensures REPORT_PAGES[k - 1] == PageFile(k)
  {
    if k == 11 {
      SmallPageFile(11);
    } else if k == 12 {
      SmallPageFile(12);
    } else if k == 13 {
      SmallPageFile(13);
    } else if k == 14 {
      SmallPageFile(14);
    }
  }

  /** Entries 15 to 18, one case each. */
  lemma EntriesFifteenToEighteen(k: nat)
    requires 15 <= k <= 18
    ensures REPORT_PAGES[k - 1] == PageFile(k)
  {
    if k == 15 {
      SmallPageFile(15);
    } else if k == 16 {
      SmallPageFile(16);
    } else if k == 17 {
      SmallPageFile(17);
    } else if k == 18 {
      SmallPageFile(18);
    }
  }

  /** The one-digit and two-digit page files spelled out. */
  lemma SmallPageFile(n: nat)
    requires 1 <= n < 100
    ensures n < 10 ==> PageFile(n) == PAGE_PREFIX + [DigitChar(n)] + HTML_SUFFIX
    ensures n >= 10 ==> PageFile(n) == PAGE_PREFIX + [DigitChar(n / 10), DigitChar(n % 10)] + HTML_SUFFIX
  {
    if n >= 10 {
      assert DecimalString(n) == [DigitChar(n / 10)] + [DigitChar(n % 10)];
    }
  }

  /** One more entry of the literal agrees with the numbered list. */
  lemma NextEntry(k: nat)
    requires 1 <= k <= 18
    requires REPORT_PAGES[..k - 1] == NumberedPages(k - 1)
    requires REPORT_PAGES[k - 1] == PageFile(k)
    ensures REPORT_PAGES[..k] == NumberedPages(k)
  {
    assert REPORT_PAGES[..k] == REPORT_PAGES[..k - 1] + [REPORT_PAGES[k - 1]];
  }

  /** Every `page{n}.html` matches the identifier pattern. */
  lemma PageFileIsIdentifier(n: nat)
    ensures IsPageIdentifier(PageFile(n))
  {
    var f := PageFile(n);
    PageFileParts(n);
    forall k | 0 <= k < |f| - 5 ensures IsNameChar(f[k]) {
      if k >= 4 {
        assert f[k] == DecimalString(n)[k - 4];
      } else {
        assert f[k] == PAGE_PREFIX[k];
      }
    }
  }

  /** The report pages are page identifiers, pairwise distinct. */
  lemma ReportPagesAreDistinctIdentifiers()
    ensures Distinct(REPORT_PAGES)
    ensures forall i :: 0 <= i < |REPORT_PAGES| ==> IsPageIdentifier(REPORT_PAGES[i])
  {
    ReportPagesAreNumbered();
    forall i | 0 <= i < |REPORT_PAGES| ensures IsPageIdentifier(REPORT_PAGES[i]) {
      PageFileIsIdentifier(i + 1);
    }
    forall i, j | 0 <= i < j < |REPORT_PAGES| ensures REPORT_PAGES[i] != REPORT_PAGES[j] {
      PageFilesDiffer(i + 1, j + 1);
    }
  }

  /** Each report page passes the client's lenient sanitiser and the server's strict one unchanged. */
  lemma ReportPagesPassBothSanitizers()
    ensures forall i :: 0 <= i < |REPORT_PAGES| ==> ClientExport.SanitizePageName(Str(REPORT_PAGES[i])) == REPORT_PAGES[i]
    ensures forall i :: 0 <= i < |REPORT_PAGES| ==> Server.SanitizePageName(Str(REPORT_PAGES[i])) == Success(REPORT_PAGES[i])
  {
    ReportPagesAreDistinctIdentifiers();
    forall i | 0 <= i < |REPORT_PAGES| ensures ClientExport.SanitizePageName(Str(REPORT_PAGES[i])) == REPORT_PAGES[i] {
      IdentifierIsPlain(REPORT_PAGES[i]);
    }
    forall i | 0 <= i < |REPORT_PAGES| ensures Server.SanitizePageName(Str(REPORT_PAGES[i])) == Success(REPORT_PAGES[i]) {
      Server.SanitizeKeepsIdentifiers(REPORT_PAGES[i]);
    }
  }

  /** `resolvePagesOverride`: a non-empty array override as it is, anything else the report pages. */
  function ResolvePagesOverride(pagesOverride: Value): (r: Value)
    ensures r.Array? && |r.elements| >= 1
    ensures pagesOverride.Array? && |pagesOverride.elements| >= 1 ==> r == pagesOverride
    ensures !(pagesOverride.Array? && |pagesOverride.elements| >= 1) ==> r == Array(Strs(REPORT_PAGES))
  {
    if pagesOverride.Array? && |pagesOverride.elements| > 0 then pagesOverride else Array(Strs(REPORT_PAGES))
  }

  /** What the button does: hand the pages to the exporter, or alert when the exporter script is absent. */
  datatype FullReportOutcome = Exported(pages: Value) | Alerted(message: string)

  /** `exportFullReport`; `exporterLoaded` is whether `window.exportToPDF` is a function. */
  function ExportFullReport(pagesOverride: Value, exporterLoaded: bool): (r: FullReportOutcome)
    ensures r.Exported? <==> exporterLoaded
    ensures r.Exported? ==> r.pages == ResolvePagesOverride(pagesOverride)
  {
    if exporterLoaded then Exported(ResolvePagesOverride(pagesOverride)) else Alerted(EXPORTER_MISSING)
  }

  /** An array of distinct identifiers is exported as it is. */
  lemma {:induction false} ClientKeepsDistinctIdentifiers(ps: seq<string>, pathname: string)
    requires |ps| >= 1 && Distinct(ps)
    requires forall i :: 0 <= i < |ps| ==> IsPageIdentifier(ps[i])
    ensures ClientExport.ResolvePagesToExport(Array(Strs(ps)), pathname) == ps
  {
    var elements := Strs(ps);
    forall i | 0 <= i < |ps| ensures ClientExport.SanitizeEach(elements)[i] == ps[i] {
      IdentifierIsPlain(ps[i]);
    }
    assert ClientExport.SanitizeEach(elements) == ps;
    ClientExport.ResolveArray(elements, pathname);
    DedupOfDistinct(ps);
  }

  /** Without an override the client exports exactly the eighteen report pages, in order, wherever it is viewed. */
  lemma DefaultReportIsExportedInOrder(pagesOverride: Value, pathname: string)
    requires !(pagesOverride.Array? && |pagesOverride.elements| >= 1)
    ensures ClientExport.ResolvePagesToExport(ResolvePagesOverride(pagesOverride), pathname) == REPORT_PAGES
  {
    ReportPagesAreDistinctIdentifiers();
    ClientKeepsDistinctIdentifiers(REPORT_PAGES, pathname);
  }

  /** The server, handed the report pages comma-joined, normalises them back to the same eighteen pages. */
  lemma ServerReadsReportPagesBack()
    ensures Server.NormalizedPages(Str(Join(REPORT_PAGES, ","))) == Success(REPORT_PAGES)
  {
    ReportPagesAreDistinctIdentifiers();
    Server.NormalizeJoinRoundTrip(REPORT_PAGES);
  }
}
