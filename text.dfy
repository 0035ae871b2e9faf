/**
 * The JavaScript string operations the exporter relies on, over `seq<char>`:
 * `trim`, `split`, `join`, `includes`, `endsWith`, `replace` with a string
 * pattern, ASCII `toLowerCase`, and decimal rendering and parsing of numbers.
 */
module Text {
  import opened Wrappers

  /** The code points ECMAScript's `trim` removes: WhiteSpace (TAB, VT, FF, ZWNBSP and the Zs category) and LineTerminator. */
  predicate IsWhitespace(c: char) {
    c == '\t' || c == '\n' || c == '\U{0B}' || c == '\U{0C}' || c == '\r' || c == ' '
    || c == '\U{A0}' || c == '\U{1680}' || ('\U{2000}' <= c <= '\U{200A}')
    || c == '\U{2028}' || c == '\U{2029}' || c == '\U{202F}' || c == '\U{205F}'
    || c == '\U{3000}' || c == '\U{FEFF}'
  }

  predicate NoWhitespace(s: string) {
    forall k :: 0 <= k < |s| ==> !IsWhitespace(s[k])
  }

  /** `s` with its leading whitespace removed. */
  function TrimStart(s: string): (r: string)
    ensures |r| <= |s| && r == s[|s| - |r|..]
    ensures forall k :: 0 <= k < |s| - |r| ==> IsWhitespace(s[k])
    ensures r == [] || !IsWhitespace(r[0])
  {
    if |s| > 0 && IsWhitespace(s[0]) then TrimStart(s[1..]) else s
  }

  /** `s` with its trailing whitespace removed. */
  function TrimEnd(s: string): (r: string)
    ensures |r| <= |s| && r == s[..|r|]
    ensures forall k :: |r| <= k < |s| ==> IsWhitespace(s[k])
    ensures r == [] || !IsWhitespace(r[|r| - 1])
  {
    if |s| > 0 && IsWhitespace(s[|s| - 1]) then TrimEnd(s[..|s| - 1]) else s
  }

  /** `String.prototype.trim`. */
  function Trim(s: string): (r: string)
    ensures |r| <= |s|
    ensures r == [] || (!IsWhitespace(r[0]) && !IsWhitespace(r[|r| - 1]))
    ensures NoWhitespace(s) ==> r == s
  {
    var t := TrimStart(s);
    assert |t| > 0 ==> !IsWhitespace(s[|s| - |t|]);
    TrimEnd(t)
  }

  /** `trim` yields the empty string exactly for strings made of whitespace only. */
  lemma TrimIsEmptyIff(s: string)
    ensures Trim(s) == [] <==> forall k :: 0 <= k < |s| ==> IsWhitespace(s[k])
  {
    var t := TrimStart(s);
    if |t| > 0 {
      assert !IsWhitespace(s[|s| - |t|]);
    }
  }

  /** `s.split(sep)` for a one-character separator: the pieces between separators, always at least one. */
  function Split(s: string, sep: char): (r: seq<string>)
    ensures |r| >= 1
    ensures forall k :: 0 <= k < |r| ==> sep !in r[k]
  {
    if |s| == 0 then [""]
    else
      var rest := Split(s[1..], sep);
      if s[0] == sep then [""] + rest
      else [[s[0]] + rest[0]] + rest[1..]
  }

  /** `s.split(sep)[0]`: the longest prefix of `s` without `sep`. */
  lemma {:induction false} SplitFirstPiece(s: string, sep: char)
    ensures var first := Split(s, sep)[0];
      && |first| <= |s| && first == s[..|first|] && sep !in first
      && (|first| == |s| || s[|first|] == sep)
  {
    if |s| > 0 && s[0] != sep {
      SplitFirstPiece(s[1..], sep);
    }
  }

  /** `xs.join(sep)`. */
  function Join(xs: seq<string>, sep: string): string
  {
    if |xs| == 0 then ""
    else if |xs| == 1 then xs[0]
    else xs[0] + sep + Join(xs[1..], sep)
  }

  lemma {:induction false} SplitWithoutSeparator(s: string, sep: char)
    requires sep !in s
    ensures Split(s, sep) == [s]
  {
    if |s| > 0 {
      SplitWithoutSeparator(s[1..], sep);
      assert [s[0]] + s[1..] == s;
    }
  }

  lemma {:induction false} SplitAfterPiece(a: string, sep: char, rest: string)
    requires sep !in a
    ensures Split(a + [sep] + rest, sep) == [a] + Split(rest, sep)
  {
    var s := a + [sep] + rest;
    if |a| == 0 {
      assert s[0] == sep && s[1..] == rest;
    } else {
      assert s[0] == a[0] && s[1..] == a[1..] + [sep] + rest;
      SplitAfterPiece(a[1..], sep, rest);
      assert [a[0]] + a[1..] == a;
    }
  }

  /** Splitting a join of separator-free pieces gives the pieces back. */
  lemma {:induction false} SplitOfJoin(xs: seq<string>, sep: char)
    requires |xs| >= 1
    requires forall k :: 0 <= k < |xs| ==> sep !in xs[k]
    ensures Split(Join(xs, [sep]), sep) == xs
  {
    if |xs| == 1 {
      SplitWithoutSeparator(xs[0], sep);
    } else {
      SplitOfJoin(xs[1..], sep);
      SplitAfterPiece(xs[0], sep, Join(xs[1..], [sep]));
      assert [xs[0]] + xs[1..] == xs;
    }
  }

  /** A property of every character of the separator and of the pieces holds of every character of the join. */
  lemma {:induction false} JoinPreserves(xs: seq<string>, sep: string, p: char -> bool)
    requires forall i :: 0 <= i < |sep| ==> p(sep[i])
    requires forall k, i :: 0 <= k < |xs| && 0 <= i < |xs[k]| ==> p(xs[k][i])
    ensures forall i :: 0 <= i < |Join(xs, sep)| ==> p(Join(xs, sep)[i])
  {
    if |xs| > 1 {
      assert forall k, i :: 0 <= k < |xs[1..]| && 0 <= i < |xs[1..][k]| ==> xs[1..][k][i] == xs[k + 1][i];
      JoinPreserves(xs[1..], sep, p);
      var tail := Join(xs[1..], sep);
      var joined := Join(xs, sep);
      assert joined == xs[0] + sep + tail;
      forall i | 0 <= i < |joined| ensures p(joined[i]) {
        if i >= |xs[0]| + |sep| {
          assert joined[i] == tail[i - |xs[0]| - |sep|];
        }
      }
    }
  }

  /** The piece after the last `sep`: `s.split(sep).pop()`. */
  function LastSegment(s: string, sep: char): (r: string)
    ensures sep !in r
  {
    if |s| == 0 || s[|s| - 1] == sep then "" else LastSegment(s[..|s| - 1], sep) + [s[|s| - 1]]
  }

  /** The last segment is the suffix after the last separator, or all of `s` when it has none. */
  lemma {:induction false} LastSegmentIsSuffix(s: string, sep: char)
    ensures var r := LastSegment(s, sep);
      |r| <= |s| && r == s[|s| - |r|..] && (|r| == |s| || s[|s| - |r| - 1] == sep)
  {
    if |s| > 0 && s[|s| - 1] != sep {
      LastSegmentIsSuffix(s[..|s| - 1], sep);
    }
  }

  lemma {:induction false} LastSegmentAfter(dir: string, sep: char, name: string)
    requires sep !in name
    ensures LastSegment(dir + [sep] + name, sep) == name
  {
    var s := dir + [sep] + name;
    if |name| == 0 {
      assert s == dir + [sep];
      assert s[|s| - 1] == sep;
    } else {
      var init := name[..|name| - 1];
      var last := name[|name| - 1];
      assert s[|s| - 1] == last;
      assert last != sep;
      assert s[..|s| - 1] == dir + [sep] + init;
      LastSegmentAfter(dir, sep, init);
      assert init + [last] == name;
    }
  }

  /** A string without the separator is its own last segment. */
  lemma {:induction false} LastSegmentOfPlain(s: string, sep: char)
    requires sep !in s
    ensures LastSegment(s, sep) == s
  {
    if |s| > 0 {
      assert s[|s| - 1] in s;
      var init := s[..|s| - 1];
      assert forall c :: c in init ==> c in s;
      LastSegmentOfPlain(init, sep);
      assert init + [s[|s| - 1]] == s;
    }
  }

  /** `pat` occurs in `s` starting at index `i`. */
  predicate OccursAt(s: string, pat: string, i: int) {
    0 <= i && i + |pat| <= |s| && s[i..i + |pat|] == pat
  }

  /** `s.includes(sub)`. */
  predicate Contains(s: string, sub: string) {
    exists i :: 0 <= i <= |s| && OccursAt(s, sub, i)
  }

  /** A pattern whose first character `s` lacks does not occur in `s`. */
  lemma AbsentFirstChar(s: string, pat: string)
    requires |pat| >= 1 && pat[0] !in s
    ensures !Contains(s, pat)
  {
    forall i | 0 <= i <= |s| ensures !OccursAt(s, pat, i) {
      if i + |pat| <= |s| {
        assert s[i..i + |pat|][0] == s[i];
      }
    }
  }

  /** `s.endsWith(suffix)`. */
  predicate EndsWith(s: string, suffix: string) {
    |suffix| <= |s| && s[|s| - |suffix|..] == suffix
  }

  function LowerChar(c: char): char {
    if 'A' <= c <= 'Z' then (c as int + 32) as char else c
  }

  /** `toLowerCase` restricted to ASCII letters. */
  function ToLowerAscii(s: string): (r: string)
    ensures |r| == |s|
  {
    seq(|s|, i requires 0 <= i < |s| => LowerChar(s[i]))
  }

  /** The first index at or after `from` where `pat` occurs in `s` (`s.indexOf(pat, from)`). */
  function IndexOf(s: string, pat: string, from: nat): (r: Option<nat>)
    requires from <= |s|
    decreases |s| - from
    ensures r.Some? ==> from <= r.value && OccursAt(s, pat, r.value)
    ensures r.Some? ==> forall i :: from <= i < r.value ==> !OccursAt(s, pat, i)
    ensures r.None? ==> forall i :: from <= i ==> !OccursAt(s, pat, i)
  {
    if from + |pat| > |s| then None
    else if OccursAt(s, pat, from) then Some(from)
    else IndexOf(s, pat, from + 1)
  }

  /** `s.replace(pat, rep)` with a string pattern: only the first occurrence is replaced. */
  function ReplaceFirst(s: string, pat: string, rep: string): (r: string)
    ensures !Contains(s, pat) ==> r == s
  {
    match IndexOf(s, pat, 0)
    case None => s
    case Some(i) => s[..i] + rep + s[i + |pat|..]
  }

  /** When the first occurrence of `pat` is at `i` (no earlier character even starts it), `replace` splices there. */
  lemma ReplaceAt(s: string, pat: string, rep: string, i: nat)
    requires |pat| >= 1 && OccursAt(s, pat, i)
    requires forall k :: 0 <= k < i ==> s[k] != pat[0]
    ensures ReplaceFirst(s, pat, rep) == s[..i] + rep + s[i + |pat|..]
  {
    var r := IndexOf(s, pat, 0);
    assert OccursAt(s, pat, i);
    assert r.Some?;
    var j := r.value;
    assert OccursAt(s, pat, j);
    assert s[j] == pat[0] by {
      assert s[j..j + |pat|][0] == s[j];
    }
    assert j >= i;
    assert j <= i;
  }

  predicate IsDigit(c: char) {
    '0' <= c <= '9'
  }

  predicate AllDigits(s: string) {
    forall k :: 0 <= k < |s| ==> IsDigit(s[k])
  }

  /** The number a string of decimal digits denotes (`parseInt(ds, 10)` without its precision limit). */
  function DigitsValue(ds: string): nat
    requires AllDigits(ds)
  {
    if |ds| == 0 then 0
    else DigitsValue(ds[..|ds| - 1]) * 10 + (ds[|ds| - 1] as int - '0' as int)
  }

  function DigitChar(d: nat): (c: char)
    requires d < 10
    ensures IsDigit(c) && c as int - '0' as int == d
  {
    ('0' as int + d) as char
  }

  /** The decimal rendering of `n`, as `String(n)` gives it. */
  function DecimalString(n: nat): (r: string)
    ensures |r| >= 1 && AllDigits(r)
    ensures r[0] == '0' ==> n == 0
  {
    if n < 10 then [DigitChar(n)] else DecimalString(n / 10) + [DigitChar(n % 10)]
  }

  /** Parsing a rendered number gives the number back. */
  lemma {:induction false} DigitsOfDecimal(n: nat)
    ensures DigitsValue(DecimalString(n)) == n
  {
    if n >= 10 {
      DigitsOfDecimal(n / 10);
      var r := DecimalString(n);
      assert r[..|r| - 1] == DecimalString(n / 10);
    }
  }
}
