/**
 * The legacy client's page discovery (`getPageList`): page files named by the
 * document's links, each once, plus the current page, sorted by page number
 * with a stable sort.
 */
module LegacyPageList {
  import opened Wrappers
  import opened Text
  import opened Seqs
  import opened PageIdentifier

  const PAGE_PREFIX: string := "page"

  /** A page number from `parseInt`, or the `MAX_SAFE_INTEGER` placeholder of a current page that is no page file. */
  datatype PageNumber = Known(n: nat) | Unknown

  /** The order of `(a, b) => a.num - b.num`: numbers ascending, the placeholder after all of them. */
  predicate NumberLessEq(a: PageNumber, b: PageNumber) {
    b.Unknown? || (a.Known? && a.n <= b.n)
  }

  /** One element of the `pages` array: `{ file, num }`. */
  datatype Entry = Entry(file: string, num: PageNumber)

  /** `segment` matches `^page(\d+)\.html$` ignoring ASCII case; the number its digits denote. */
  function SegmentNumber(segment: string): Option<nat> {
    if |segment| >= 10 && ToLowerAscii(segment[..4]) == PAGE_PREFIX && ToLowerAscii(segment[|segment| - 5..]) == HTML_SUFFIX
       && AllDigits(segment[4..|segment| - 5])
    then Some(DigitsValue(segment[4..|segment| - 5]))
    else None
  }

  /**
   * `file.match(/(^|\/)page(\d+)\.html$/i)` and `parseInt(m[2], 10)`. The pattern is only applied
   * to a last `/` segment, which holds no `/`, so `(^|\/)` can only match at the start.
   */
  function PageNumberOf(file: string): Option<nat>
    requires '/' !in file
  {
    SegmentNumber(file)
  }

  /** The file name `page<n>.html`. */
  function PageFile(n: nat): string {
    PAGE_PREFIX + DecimalString(n) + HTML_SUFFIX
  }

  lemma PageFileParts(n: nat)
    ensures |PageFile(n)| >= 10 && PageFile(n)[..4] == PAGE_PREFIX && PageFile(n)[|PageFile(n)| - 5..] == HTML_SUFFIX
    ensures PageFile(n)[4..|PageFile(n)| - 5] == DecimalString(n)
  {
  }

  lemma PageFileHasNoSlash(n: nat)
    ensures '/' !in PageFile(n) && '#' !in PageFile(n)
  {
    var f := PageFile(n);
    PageFileParts(n);
    forall k | 0 <= k < |f| ensures f[k] != '/' && f[k] != '#' {
      if 4 <= k < |f| - 5 {
        assert f[k] == DecimalString(n)[k - 4];
      } else if k < 4 {
        assert f[k] == PAGE_PREFIX[k];
      } else {
        assert f[k] == HTML_SUFFIX[k - (|f| - 5)];
      }
    }
  }

  /** The pattern recognises `page<n>.html` and recovers `n`. */
  lemma PageNumberOfPageFile(n: nat)
    ensures '/' !in PageFile(n) && PageNumberOf(PageFile(n)) == Some(n)
  {
    var f := PageFile(n);
    PageFileHasNoSlash(n);
    PageFileParts(n);
    assert ToLowerAscii(f[..4]) == PAGE_PREFIX;
    assert ToLowerAscii(f[|f| - 5..]) == HTML_SUFFIX;
    DigitsOfDecimal(n);
  }

  /** Different page numbers name different files. */
  lemma PageFilesDiffer(a: nat, b: nat)
    requires a != b
    ensures PageFile(a) != PageFile(b)
  {
    PageNumberOfPageFile(a);
    PageNumberOfPageFile(b);
  }

  /** The number that sorts a file: its page number, or the placeholder. */
  function NumberOf(file: string): PageNumber
    requires '/' !in file
  {
    match PageNumberOf(file)
    case Some(n) => Known(n)
    case None => Unknown
  }

  /** `href.split('#')[0]`. */
  function BeforeFragment(href: string): string {
    Split(href, '#')[0]
  }

  /** The part before the first `#` is the longest `#`-free prefix, and a fragment is cut off there. */
  lemma BeforeFragmentIsPrefix(href: string)
    ensures var p := BeforeFragment(href);
      |p| <= |href| && p == href[..|p|] && '#' !in p && (|p| == |href| || href[|p|] == '#')
  {
    SplitFirstPiece(href, '#');
  }

  lemma BeforeFragmentDropsFragment(path: string, fragment: string)
    requires '#' !in path
    ensures BeforeFragment(path + "#" + fragment) == path
  {
    assert path + "#" + fragment == path + ['#'] + fragment;
    SplitAfterPiece(path, '#', fragment);
  }

  /** The hrefs after `.filter(Boolean).map(href => href.split('#')[0])`. */
  function Candidates(hrefs: seq<string>): seq<string> {
    var kept := DropEmpty(hrefs);
    seq(|kept|, k requires 0 <= k < |kept| => BeforeFragment(kept[k]))
  }

  /** `pages.map(p => p.file)`. */
  function Files(es: seq<Entry>): (r: seq<string>)
    ensures |r| == |es|
  {
    if |es| == 0 then [] else Files(es[..|es| - 1]) + [es[|es| - 1].file]
  }

  /** What the `for` loop has pushed after the candidates `hs`: each page file once, at its first occurrence. */
  function Collect(hs: seq<string>): seq<Entry> {
    if |hs| == 0 then []
    else
      var prev := Collect(hs[..|hs| - 1]);
      var file := LastSegment(hs[|hs| - 1], '/');
      var m := PageNumberOf(file);
      if file != "" && m.Some? && file !in Files(prev) then prev + [Entry(file, Known(m.value))] else prev
  }

  /** The last path segment of the location, `page1.html` when it is empty. */
  function CurrentFile(pathname: string): (r: string)
    ensures '/' !in r
  {
    var segment := LastSegment(pathname, '/');
    DefaultIsIdentifier();
    IdentifierIsPlain(DEFAULT_PAGE);
    if segment == "" then DEFAULT_PAGE else segment
  }

  /** The current page pushed unless already seen, with the placeholder number when it is no page file. */
  function WithCurrent(entries: seq<Entry>, current: string): seq<Entry>
    requires '/' !in current
  {
    if current in Files(entries) then entries
    else entries + [Entry(current, NumberOf(current))]
  }

  /** `e` placed after the last element whose number does not exceed its own. */
  function InsertByNum(s: seq<Entry>, e: Entry): seq<Entry> {
    if |s| == 0 then [e]
    else if NumberLessEq(s[|s| - 1].num, e.num) then s + [e]
    else InsertByNum(s[..|s| - 1], e) + [s[|s| - 1]]
  }

  /** `pages.sort((a, b) => a.num - b.num)`, a stable sort, as insertion sort. */
  function SortByNum(s: seq<Entry>): seq<Entry> {
    if |s| == 0 then [] else InsertByNum(SortByNum(s[..|s| - 1]), s[|s| - 1])
  }

  /** The entries `getPageList` sorts and returns the files of. */
  function PageEntries(hrefs: seq<string>, pathname: string): seq<Entry> {
    SortByNum(WithCurrent(Collect(Candidates(hrefs)), CurrentFile(pathname)))
  }

  function PageList(hrefs: seq<string>, pathname: string): seq<string> {
    Files(PageEntries(hrefs, pathname))
  }

  /** `file` is collected: non-empty and matching the page pattern. */
  predicate IsPageFile(file: string) {
    '/' !in file && file != "" && PageNumberOf(file).Some?
  }

  /** The last segments of the candidates that are page files, in order, repeats included. */
  function LinkedFiles(hs: seq<string>): seq<string> {
    if |hs| == 0 then []
    else
      var file := LastSegment(hs[|hs| - 1], '/');
      LinkedFiles(hs[..|hs| - 1]) + (if IsPageFile(file) then [file] else [])
  }

  /** Each entry carries the number of its own file. */
  predicate Numbered(es: seq<Entry>) {
    forall e :: e in es ==> '/' !in e.file && e.num == NumberOf(e.file)
  }

  /** Entries sorted by number. */
  predicate SortedByNum(es: seq<Entry>) {
    forall i, j :: 0 <= i < j < |es| ==> NumberLessEq(es[i].num, es[j].num)
  }

  /** The entries with number `n`, in order. */
  function FilterNum(es: seq<Entry>, n: PageNumber): seq<Entry> {
    if |es| == 0 then []
    else FilterNum(es[..|es| - 1], n) + (if es[|es| - 1].num == n then [es[|es| - 1]] else [])
  }

  lemma FilesAppend(es: seq<Entry>, e: Entry)
    ensures Files(es + [e]) == Files(es) + [e.file]
  {
    assert (es + [e])[..|es|] == es;
  }

  lemma {:induction false} FilesAt(es: seq<Entry>)
    ensures forall k :: 0 <= k < |es| ==> Files(es)[k] == es[k].file
  {
    if |es| > 0 {
      FilesAt(es[..|es| - 1]);
    }
  }

  /** Every collected entry carries the page number of its file. */
  lemma {:induction false} CollectNumbered(hs: seq<string>)
    ensures Numbered(Collect(hs))
    ensures forall e :: e in Collect(hs) ==> e.num.Known?
  {
    if |hs| > 0 {
      var prev := Collect(hs[..|hs| - 1]);
      CollectNumbered(hs[..|hs| - 1]);
      var file := LastSegment(hs[|hs| - 1], '/');
      var m := PageNumberOf(file);
      if file != "" && m.Some? && file !in Files(prev) {
        var e := Entry(file, Known(m.value));
        assert e.num == NumberOf(file);
      }
    }
  }

  lemma LinkedFilesSnoc(hs: seq<string>)
    requires |hs| > 0
    ensures var file := LastSegment(hs[|hs| - 1], '/');
      LinkedFiles(hs) == LinkedFiles(hs[..|hs| - 1]) + (if IsPageFile(file) then [file] else [])
  {
  }

  /** The loop keeps exactly the first occurrence of each page file the links name. */
  lemma {:induction false} CollectIsDedupOfLinks(hs: seq<string>)
    ensures Files(Collect(hs)) == Dedup(LinkedFiles(hs))
  {
    if |hs| > 0 {
      var init := hs[..|hs| - 1];
      CollectIsDedupOfLinks(init);
      var prev := Collect(init);
      var file := LastSegment(hs[|hs| - 1], '/');
      var links := LinkedFiles(init);
      LinkedFilesSnoc(hs);
      if IsPageFile(file) {
        assert LinkedFiles(hs) == links + [file];
        DedupSnoc(links, file);
        if file !in Files(prev) {
          var e := Entry(file, Known(PageNumberOf(file).value));
          assert Collect(hs) == prev + [e];
          FilesAppend(prev, e);
          assert Files(Collect(hs)) == Files(prev) + [file];
        } else {
          assert Collect(hs) == prev;
        }
      } else {
        assert LinkedFiles(hs) == links;
        assert Collect(hs) == prev;
      }
    }
  }

  /** A file is a linked page file exactly when some candidate's last segment is that page file. */
  lemma {:induction false} LinkedFilesSound(hs: seq<string>, f: string)
    requires f in LinkedFiles(hs)
    ensures IsPageFile(f) && exists h :: h in hs && LastSegment(h, '/') == f
  {
    var init := hs[..|hs| - 1];
    LinkedFilesSnoc(hs);
    if f in LinkedFiles(init) {
      LinkedFilesSound(init, f);
      var h :| h in init && LastSegment(h, '/') == f;
      assert h in hs;
    } else {
      assert hs[|hs| - 1] in hs;
    }
  }

  lemma {:induction false} LinkedFilesComplete(hs: seq<string>, h: string)
    requires h in hs && IsPageFile(LastSegment(h, '/'))
    ensures LastSegment(h, '/') in LinkedFiles(hs)
  {
    var init := hs[..|hs| - 1];
    LinkedFilesSnoc(hs);
    if h != hs[|hs| - 1] {
      assert h in init by {
        var j :| 0 <= j < |hs| && hs[j] == h;
        assert init[j] == h;
      }
      LinkedFilesComplete(init, h);
    }
  }

  /** A file is a linked page file exactly when it is a page file and the last segment of some candidate. */
  lemma LinkedFilesMembers(hs: seq<string>, f: string)
    ensures f in LinkedFiles(hs) <==> IsPageFile(f) && exists h :: h in hs && LastSegment(h, '/') == f
  {
    if f in LinkedFiles(hs) {
      LinkedFilesSound(hs, f);
    }
    if IsPageFile(f) && exists h :: h in hs && LastSegment(h, '/') == f {
      var h :| h in hs && LastSegment(h, '/') == f;
      LinkedFilesComplete(hs, h);
    }
  }

  lemma {:induction false} InsertByNumPermutes(s: seq<Entry>, e: Entry)
    ensures multiset(InsertByNum(s, e)) == multiset(s) + multiset{e}
  {
    if |s| > 0 && !NumberLessEq(s[|s| - 1].num, e.num) {
      InsertByNumPermutes(s[..|s| - 1], e);
      MultisetOfLast(s);
    }
  }

  lemma {:induction false} InsertByNumFiles(s: seq<Entry>, e: Entry)
    ensures multiset(Files(InsertByNum(s, e))) == multiset(Files(s)) + multiset{e.file}
  {
    if |s| == 0 {
      assert [e][..0] == [];
    } else if NumberLessEq(s[|s| - 1].num, e.num) {
      FilesAppend(s, e);
    } else {
      var init, last := s[..|s| - 1], s[|s| - 1];
      InsertByNumFiles(init, e);
      FilesAppend(InsertByNum(init, e), last);
    }
  }

  /** Every number in `s` and `e`'s number at most `b`: so is every number after the insertion. */
  lemma {:induction false} InsertByNumBounded(s: seq<Entry>, e: Entry, b: PageNumber)
    requires forall i :: 0 <= i < |s| ==> NumberLessEq(s[i].num, b)
    requires NumberLessEq(e.num, b)
    ensures forall i :: 0 <= i < |InsertByNum(s, e)| ==> NumberLessEq(InsertByNum(s, e)[i].num, b)
  {
    if |s| > 0 && !NumberLessEq(s[|s| - 1].num, e.num) {
      InsertByNumBounded(s[..|s| - 1], e, b);
    }
  }

  /** A sorted sequence stays sorted when an entry numbered at least all of it is appended. */
  lemma SortedSnoc(t: seq<Entry>, x: Entry)
    requires SortedByNum(t)
    requires forall i :: 0 <= i < |t| ==> NumberLessEq(t[i].num, x.num)
    ensures SortedByNum(t + [x])
  {
    forall i, j | 0 <= i < j < |t| + 1 ensures NumberLessEq((t + [x])[i].num, (t + [x])[j].num) {
      assert (t + [x])[i] == t[i];
    }
  }

  lemma {:induction false} InsertByNumSorted(s: seq<Entry>, e: Entry)
    requires SortedByNum(s)
    ensures SortedByNum(InsertByNum(s, e))
  {
    if |s| == 0 {
    } else if NumberLessEq(s[|s| - 1].num, e.num) {
      SortedSnoc(s, e);
    } else {
      var init, last := s[..|s| - 1], s[|s| - 1];
      InsertByNumSorted(init, e);
      assert forall i :: 0 <= i < |init| ==> NumberLessEq(init[i].num, last.num) by {
        forall i | 0 <= i < |init| ensures NumberLessEq(init[i].num, last.num) {
          assert init[i] == s[i];
        }
      }
      InsertByNumBounded(init, e, last.num);
      SortedSnoc(InsertByNum(init, e), last);
    }
  }

  lemma {:induction false} SortByNumSortsAndPermutes(s: seq<Entry>)
    ensures SortedByNum(SortByNum(s))
    ensures multiset(SortByNum(s)) == multiset(s)
    ensures multiset(Files(SortByNum(s))) == multiset(Files(s))
  {
    if |s| > 0 {
      var init, last := s[..|s| - 1], s[|s| - 1];
      SortByNumSortsAndPermutes(init);
      InsertByNumSorted(SortByNum(init), last);
      InsertByNumPermutes(SortByNum(init), last);
      InsertByNumFiles(SortByNum(init), last);
      MultisetOfLast(s);
    }
  }

  /** `[e]` when `e` has number `n`, else nothing. */
  function IfNumbered(e: Entry, n: PageNumber): seq<Entry> {
    if e.num == n then [e] else []
  }

  lemma FilterNumSnoc(s: seq<Entry>, e: Entry, n: PageNumber)
    ensures FilterNum(s + [e], n) == FilterNum(s, n) + IfNumbered(e, n)
  {
    assert (s + [e])[..|s|] == s;
  }

  lemma {:induction false} InsertByNumStable(s: seq<Entry>, e: Entry, n: PageNumber)
    ensures FilterNum(InsertByNum(s, e), n) == FilterNum(s, n) + IfNumbered(e, n)
  {
    if |s| == 0 {
      FilterNumSnoc([], e, n);
      assert [] + [e] == [e];
    } else if NumberLessEq(s[|s| - 1].num, e.num) {
      FilterNumSnoc(s, e, n);
    } else {
      var init, last := s[..|s| - 1], s[|s| - 1];
      InsertByNumStable(init, e, n);
      FilterNumSnoc(InsertByNum(init, e), last, n);
      assert last.num != e.num;
    }
  }

  /** The sort is stable: entries with equal numbers keep their relative order. */
  lemma {:induction false} SortByNumStable(s: seq<Entry>, n: PageNumber)
    ensures FilterNum(SortByNum(s), n) == FilterNum(s, n)
  {
    if |s| > 0 {
      var init, last := s[..|s| - 1], s[|s| - 1];
      SortByNumStable(init, n);
      InsertByNumStable(SortByNum(init), last, n);
    }
  }

  /** The unsorted list is the linked page files, deduplicated, then the current page unless linked. */
  lemma {:induction false} UnsortedPages(hrefs: seq<string>, pathname: string)
    ensures var current := CurrentFile(pathname);
      var linked := Dedup(LinkedFiles(Candidates(hrefs)));
      Files(WithCurrent(Collect(Candidates(hrefs)), current)) == if current in linked then linked else linked + [current]
    ensures Numbered(WithCurrent(Collect(Candidates(hrefs)), CurrentFile(pathname)))
  {
    var current := CurrentFile(pathname);
    var entries := Collect(Candidates(hrefs));
    CollectIsDedupOfLinks(Candidates(hrefs));
    CollectNumbered(Candidates(hrefs));
    if current !in Files(entries) {
      var e := Entry(current, NumberOf(current));
      FilesAppend(entries, e);
    }
  }

  /** The listed files: the current page and the linked page files, nothing else. */
  lemma PageListMembers(hrefs: seq<string>, pathname: string, f: string)
    ensures f in PageList(hrefs, pathname) <==> f == CurrentFile(pathname) || f in LinkedFiles(Candidates(hrefs))
  {
    var unsorted := WithCurrent(Collect(Candidates(hrefs)), CurrentFile(pathname));
    UnsortedPages(hrefs, pathname);
    SortByNumSortsAndPermutes(unsorted);
    assert f in PageList(hrefs, pathname) <==> f in multiset(Files(unsorted));
  }

  /** No file is listed twice. */
  lemma PageListDistinct(hrefs: seq<string>, pathname: string)
    ensures Distinct(PageList(hrefs, pathname))
  {
    var unsorted := WithCurrent(Collect(Candidates(hrefs)), CurrentFile(pathname));
    var linked := Dedup(LinkedFiles(Candidates(hrefs)));
    UnsortedPages(hrefs, pathname);
    if CurrentFile(pathname) !in linked {
      DistinctSnoc(linked, CurrentFile(pathname));
    }
    SortByNumSortsAndPermutes(unsorted);
    PermutationKeepsDistinct(Files(unsorted), PageList(hrefs, pathname));
  }

  /** The current page is listed exactly once, so the list is never empty. */
  lemma CurrentPageListedOnce(hrefs: seq<string>, pathname: string)
    ensures multiset(PageList(hrefs, pathname))[CurrentFile(pathname)] == 1
    ensures |PageList(hrefs, pathname)| >= 1
  {
    PageListMembers(hrefs, pathname, CurrentFile(pathname));
    PageListDistinct(hrefs, pathname);
    DistinctIffSingleOccurrences(PageList(hrefs, pathname));
  }

  lemma {:induction false} SortedFilesByNumber(es: seq<Entry>)
    requires Numbered(es) && SortedByNum(es)
    ensures forall k :: 0 <= k < |es| ==> '/' !in Files(es)[k]
    ensures forall i, j :: 0 <= i < j < |es| ==> NumberLessEq(NumberOf(Files(es)[i]), NumberOf(Files(es)[j]))
  {
    FilesAt(es);
    assert forall k :: 0 <= k < |es| ==> es[k] in es;
  }

  lemma SortKeepsNumbered(es: seq<Entry>)
    requires Numbered(es)
    ensures Numbered(SortByNum(es)) && SortedByNum(SortByNum(es))
  {
    SortByNumSortsAndPermutes(es);
    forall e | e in SortByNum(es) ensures e in es {
      assert e in multiset(SortByNum(es));
    }
  }

  /** The listed files, in order, with the number each one is sorted by. */
  lemma PageListSorted(hrefs: seq<string>, pathname: string)
    ensures var list := PageList(hrefs, pathname);
      (forall k :: 0 <= k < |list| ==> '/' !in list[k])
      && forall i, j :: 0 <= i < j < |list| ==> NumberLessEq(NumberOf(list[i]), NumberOf(list[j]))
  {
    var unsorted := WithCurrent(Collect(Candidates(hrefs)), CurrentFile(pathname));
    UnsortedPages(hrefs, pathname);
    SortKeepsNumbered(unsorted);
    SortedFilesByNumber(SortByNum(unsorted));
  }

  lemma PageFileIsNumbered(f: string)
    requires IsPageFile(f)
    ensures NumberOf(f).Known?
  {
  }

  /** Linked page files have page numbers; only the current page can sort as unknown. */
  lemma OnlyCurrentPageIsUnnumbered(hrefs: seq<string>, pathname: string, f: string)
    requires f in PageList(hrefs, pathname) && '/' !in f && NumberOf(f).Unknown?
    ensures f == CurrentFile(pathname)
  {
    PageListMembers(hrefs, pathname, f);
    var candidates := Candidates(hrefs);
    forall g | g in LinkedFiles(candidates) ensures '/' !in g && NumberOf(g).Known? {
      LinkedFilesSound(candidates, g);
      PageFileIsNumbered(g);
    }
  }

  /** A current page that is no `page<n>.html` file comes last. */
  lemma UnnumberedCurrentPageIsLast(hrefs: seq<string>, pathname: string)
    requires NumberOf(CurrentFile(pathname)).Unknown?
    ensures var list := PageList(hrefs, pathname); |list| >= 1 && list[|list| - 1] == CurrentFile(pathname)
  {
    var list := PageList(hrefs, pathname);
    var current := CurrentFile(pathname);
    CurrentPageListedOnce(hrefs, pathname);
    PageListMembers(hrefs, pathname, current);
    PageListSorted(hrefs, pathname);
    var i := FirstIndex(list, current);
    var last := list[|list| - 1];
    if i < |list| - 1 {
      assert NumberLessEq(NumberOf(list[i]), NumberOf(last));
    }
    OnlyCurrentPageIsUnnumbered(hrefs, pathname, last);
  }

  lemma CandidatesMembers(hrefs: seq<string>, c: string)
    ensures c in Candidates(hrefs) <==> exists h :: h in hrefs && h != "" && c == BeforeFragment(h)
  {
    var kept := DropEmpty(hrefs);
    if c in Candidates(hrefs) {
      var k :| 0 <= k < |kept| && Candidates(hrefs)[k] == c;
      assert kept[k] in kept;
    }
    if exists h :: h in hrefs && h != "" && c == BeforeFragment(h) {
      var h :| h in hrefs && h != "" && c == BeforeFragment(h);
      var k :| 0 <= k < |kept| && kept[k] == h;
      assert Candidates(hrefs)[k] == c;
    }
  }

  /** Listed are the current page and every page file that is the last segment of a link's path, and nothing else. */
  lemma PageListOfLinks(hrefs: seq<string>, pathname: string, f: string)
    ensures f in PageList(hrefs, pathname) <==>
              f == CurrentFile(pathname)
              || (IsPageFile(f) && exists h :: h in hrefs && h != "" && LastSegment(BeforeFragment(h), '/') == f)
  {
    PageListMembers(hrefs, pathname, f);
    LinkedFilesMembers(Candidates(hrefs), f);
    if exists c :: c in Candidates(hrefs) && LastSegment(c, '/') == f {
      var c :| c in Candidates(hrefs) && LastSegment(c, '/') == f;
      CandidatesMembers(hrefs, c);
    }
    if exists h :: h in hrefs && h != "" && LastSegment(BeforeFragment(h), '/') == f {
      var h :| h in hrefs && h != "" && LastSegment(BeforeFragment(h), '/') == f;
      CandidatesMembers(hrefs, BeforeFragment(h));
    }
  }

  /** Three distinct page files numbered `a < b < c`. */
  predicate ThreePageFiles(fa: string, fb: string, fc: string, a: nat, b: nat, c: nat) {
    && '/' !in fa && '/' !in fb && '/' !in fc && '#' !in fa && '#' !in fb && '#' !in fc
    && PageNumberOf(fa) == Some(a) && PageNumberOf(fb) == Some(b) && PageNumberOf(fc) == Some(c)
    && a < b < c
  }

  lemma ExampleCandidates(fa: string, fb: string, fc: string, a: nat, b: nat, c: nat)
    requires ThreePageFiles(fa, fb, fc, a, b, c)
    ensures Candidates([fc, fa, fb + "#top"]) == [fc, fa, fb]
  {
    var hrefs := [fc, fa, fb + "#top"];
    DropEmptyOfNonEmpty(hrefs);
    SplitWithoutSeparator(fc, '#');
    SplitWithoutSeparator(fa, '#');
    BeforeFragmentDropsFragment(fb, "top");
    assert fb + "#top" == fb + "#" + "top";
    var cs := Candidates(hrefs);
    assert |cs| == 3;
    assert cs[0] == BeforeFragment(hrefs[0]) == fc;
    assert cs[1] == BeforeFragment(hrefs[1]) == fa;
    assert cs[2] == BeforeFragment(hrefs[2]) == fb;
  }

  lemma CollectOneMore(hs: seq<string>, f: string, n: nat)
    requires '/' !in f && PageNumberOf(f) == Some(n) && f !in Files(Collect(hs))
    ensures Collect(hs + [f]) == Collect(hs) + [Entry(f, Known(n))]
    ensures Files(Collect(hs + [f])) == Files(Collect(hs)) + [f]
  {
    assert (hs + [f])[..|hs|] == hs;
    LastSegmentOfPlain(f, '/');
    FilesAppend(Collect(hs), Entry(f, Known(n)));
  }

  lemma ExampleCollect(fa: string, fb: string, fc: string, a: nat, b: nat, c: nat)
    requires ThreePageFiles(fa, fb, fc, a, b, c)
    ensures Collect([fc, fa, fb]) == [Entry(fc, Known(c)), Entry(fa, Known(a)), Entry(fb, Known(b))]
  {
    CollectOne(fc, c);
    CollectTwo(fa, fc, a, c);
    CollectThree(fa, fb, fc, a, b, c);
  }

  lemma CollectOne(fc: string, c: nat)
    requires '/' !in fc && PageNumberOf(fc) == Some(c)
    ensures Collect([fc]) == [Entry(fc, Known(c))] && Files(Collect([fc])) == [fc]
  {
    CollectOneMore([], fc, c);
    assert [] + [fc] == [fc];
  }

  lemma CollectTwo(fa: string, fc: string, a: nat, c: nat)
    requires '/' !in fa && '/' !in fc && PageNumberOf(fa) == Some(a) && PageNumberOf(fc) == Some(c) && a != c
    requires Collect([fc]) == [Entry(fc, Known(c))] && Files(Collect([fc])) == [fc]
    ensures Collect([fc, fa]) == [Entry(fc, Known(c)), Entry(fa, Known(a))] && Files(Collect([fc, fa])) == [fc, fa]
  {
    assert fa != fc by {
      assert PageNumberOf(fa) != PageNumberOf(fc);
    }
    assert fa !in [fc];
    CollectOneMore([fc], fa, a);
    DisplayAppend(fc, fa, fa);
  }

  lemma CollectThree(fa: string, fb: string, fc: string, a: nat, b: nat, c: nat)
    requires ThreePageFiles(fa, fb, fc, a, b, c)
    requires Collect([fc, fa]) == [Entry(fc, Known(c)), Entry(fa, Known(a))] && Files(Collect([fc, fa])) == [fc, fa]
    ensures Collect([fc, fa, fb]) == [Entry(fc, Known(c)), Entry(fa, Known(a)), Entry(fb, Known(b))]
  {
    assert fb != fc && fb != fa by {
      assert PageNumberOf(fb) != PageNumberOf(fc) && PageNumberOf(fb) != PageNumberOf(fa);
    }
    assert fb !in [fc, fa];
    CollectOneMore([fc, fa], fb, b);
    DisplayAppend(fc, fa, fb);
  }

  lemma ExampleSort(ea: Entry, eb: Entry, ec: Entry, a: nat, b: nat, c: nat)
    requires ea.num == Known(a) && eb.num == Known(b) && ec.num == Known(c) && a < b < c
    ensures SortByNum([ec, ea, eb]) == [ea, eb, ec]
  {
    var s := [ec, ea, eb];
    assert s[..2] == [ec, ea] && s[..2][..1] == [ec] && [ec][..0] == [];
    assert SortByNum([ec]) == InsertByNum([], ec) == [ec];
    assert InsertByNum([ec], ea) == InsertByNum([], ea) + [ec] == [ea, ec];
    assert SortByNum(s[..2]) == [ea, ec];
    assert [ea, ec][..1] == [ea];
    assert InsertByNum([ea], eb) == [ea, eb];
    assert InsertByNum([ea, ec], eb) == InsertByNum([ea], eb) + [ec];
  }

  lemma FilesOfThree(x: Entry, y: Entry, z: Entry)
    ensures Files([x, y, z]) == [x.file, y.file, z.file]
  {
    FilesAppend([], x);
    assert [] + [x] == [x];
    FilesAppend([x], y);
    DisplayAppend(x, y, z);
    FilesAppend([x, y], z);
    DisplayAppend(x.file, y.file, z.file);
  }

  lemma ExampleUnsorted(fa: string, fb: string, fc: string, a: nat, b: nat, c: nat)
    requires ThreePageFiles(fa, fb, fc, a, b, c)
    ensures WithCurrent(Collect(Candidates([fc, fa, fb + "#top"])), CurrentFile("/" + fa))
      == [Entry(fc, Known(c)), Entry(fa, Known(a)), Entry(fb, Known(b))]
  {
    var ea, eb, ec := Entry(fa, Known(a)), Entry(fb, Known(b)), Entry(fc, Known(c));
    ExampleCandidates(fa, fb, fc, a, b, c);
    ExampleCollect(fa, fb, fc, a, b, c);
    LastSegmentAfter("", '/', fa);
    assert "" + ['/'] + fa == "/" + fa;
    FilesOfThree(ec, ea, eb);
    assert fa in Files([ec, ea, eb]);
  }

  lemma ExampleOfPageFiles(fa: string, fb: string, fc: string, a: nat, b: nat, c: nat)
    requires ThreePageFiles(fa, fb, fc, a, b, c)
    ensures PageList([fc, fa, fb + "#top"], "/" + fa) == [fa, fb, fc]
  {
    var ea, eb, ec := Entry(fa, Known(a)), Entry(fb, Known(b)), Entry(fc, Known(c));
    ExampleUnsorted(fa, fb, fc, a, b, c);
    ExampleSort(ea, eb, ec, a, b, c);
    FilesOfThree(ea, eb, ec);
  }

  /** Links to pages `c`, `a` and `b#top` seen from page `a`, for `a < b < c`, list the pages in number order. */
  lemma ExamplePageList(a: nat, b: nat, c: nat)
    requires a < b < c
    ensures PageList([PageFile(c), PageFile(a), PageFile(b) + "#top"], "/" + PageFile(a)) == [PageFile(a), PageFile(b), PageFile(c)]
  {
    PageNumberOfPageFile(a);
    PageNumberOfPageFile(b);
    PageNumberOfPageFile(c);
    PageFileHasNoSlash(a);
    PageFileHasNoSlash(b);
    PageFileHasNoSlash(c);
    ExampleOfPageFiles(PageFile(a), PageFile(b), PageFile(c), a, b, c);
  }

  /** The `for (const href of hrefs)` loop: the entries pushed and the `seen` set beside them. */
  method CollectPages(candidates: seq<string>) returns (pages: seq<Entry>, seen: set<string>)
    ensures pages == Collect(candidates)
    ensures forall f :: f in seen <==> f in Files(pages)
  {
    pages, seen := [], {};
    for i := 0 to |candidates|
      invariant pages == Collect(candidates[..i])
      invariant forall f :: f in seen <==> f in Files(pages)
    {
      assert candidates[..i + 1][..i] == candidates[..i];
      assert candidates[..i + 1][i] == candidates[i];
      var file := LastSegment(candidates[i], '/');
      var m := PageNumberOf(file);
      if file != "" && m.Some? && file !in seen {
        FilesAppend(pages, Entry(file, Known(m.value)));
        seen := seen + {file};
        pages := pages + [Entry(file, Known(m.value))];
      }
    }
    assert candidates[..|candidates|] == candidates;
  }

  /** `getPageList`: the loop over the links, the current page, then the sort. */
  method GetPageList(hrefs: seq<string>, pathname: string) returns (list: seq<string>)
    ensures list == PageList(hrefs, pathname)
  {
    var pages, seen := CollectPages(Candidates(hrefs));
    var currentPath := LastSegment(pathname, '/');
    if currentPath == "" {
      currentPath := DEFAULT_PAGE;
    }
    if currentPath !in seen {
      var m := PageNumberOf(currentPath);
      pages := pages + [Entry(currentPath, if m.Some? then Known(m.value) else Unknown)];
    }
    pages := SortByNum(pages);
    list := Files(pages);
  }
}
