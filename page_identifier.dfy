/**
 * The page-name pattern both pipelines accept, `^[a-zA-Z0-9_-]+\.html$`
 * (case-sensitive, anchored at both ends), and the default page.
 */
module PageIdentifier {
  import opened Text

  const DEFAULT_PAGE: string := "page1.html"
  const HTML_SUFFIX: string := ".html"

  predicate IsNameChar(c: char) {
    ('a' <= c <= 'z') || ('A' <= c <= 'Z') || ('0' <= c <= '9') || c == '_' || c == '-'
  }

  /** `s` matches `^[a-zA-Z0-9_-]+\.html$`. */
  predicate IsPageIdentifier(s: string) {
    |s| > 5 && s[|s| - 5..] == HTML_SUFFIX && forall k :: 0 <= k < |s| - 5 ==> IsNameChar(s[k])
  }

  /** The name without its `.html` suffix. */
  function Stem(s: string): (r: string)
    requires IsPageIdentifier(s)
    ensures |r| >= 1 && r + HTML_SUFFIX == s
    ensures forall k :: 0 <= k < |r| ==> IsNameChar(r[k])
  {
    s[..|s| - 5]
  }

  /** The stems of a list of identifiers. */
  function Stems(pages: seq<string>): (r: seq<string>)
    requires forall k :: 0 <= k < |pages| ==> IsPageIdentifier(pages[k])
    ensures |r| == |pages| && forall k :: 0 <= k < |pages| ==> r[k] == Stem(pages[k])
  {
    seq(|pages|, k requires 0 <= k < |pages| => Stem(pages[k]))
  }

  /** Each character of a page identifier is a name character or the `.` of its suffix. */
  lemma IdentifierCharacters(s: string)
    requires IsPageIdentifier(s)
    ensures forall k :: 0 <= k < |s| ==> IsNameChar(s[k]) || s[k] == '.'
  {
    forall k | |s| - 5 <= k < |s| ensures IsNameChar(s[k]) || s[k] == '.' {
      assert s[k] == HTML_SUFFIX[k - (|s| - 5)];
    }
  }

  /** A page identifier holds no path separator, list separator, quote, whitespace or placeholder brace. */
  lemma {:induction false} IdentifierIsPlain(s: string)
    requires IsPageIdentifier(s)
    ensures '/' !in s && ',' !in s && '"' !in s && ';' !in s && '{' !in s && '#' !in s
    ensures NoWhitespace(s)
    ensures ToLowerAscii(s[|s| - 5..]) == HTML_SUFFIX
  {
    IdentifierCharacters(s);
  }

  /** Stems joined by `-` consist of name characters only. */
  lemma JoinedStemsAreNameChars(pages: seq<string>)
    requires forall k :: 0 <= k < |pages| ==> IsPageIdentifier(pages[k])
    ensures forall i :: 0 <= i < |Join(Stems(pages), "-")| ==> IsNameChar(Join(Stems(pages), "-")[i])
  {
    JoinPreserves(Stems(pages), "-", IsNameChar);
  }

  lemma DefaultIsIdentifier()
    ensures IsPageIdentifier(DEFAULT_PAGE)
  {
  }

  /** The only `.` of an identifier starts its suffix, so `replace('.html', '')` yields the stem. */
  lemma {:induction false} ReplaceSuffixGivesStem(s: string)
    requires IsPageIdentifier(s)
    ensures ReplaceFirst(s, HTML_SUFFIX, "") == Stem(s)
  {
    IdentifierCharacters(s);
    ReplaceAt(s, HTML_SUFFIX, "", |s| - 5);
  }
}
