/**
 The string primitives the application borrows from Python: `str.strip()`,
 `str.split(sep)`, `str.replace(old, new)`, `startswith`/`endswith`, the
 decimal rendering of a number, and the ordering `<` on strings.
 */
module Text {
  import opened Optional

  /** Python's `str.isspace()` for one character: the characters `str.strip()` removes. */
  predicate IsSpace(c: char) {
    || c == ' '
    || ('\t' <= c <= '\r')
    || ('\U{1C}' <= c <= '\U{1F}')
    || c == '\U{85}' || c == '\U{A0}' || c == '\U{1680}'
    || ('\U{2000}' <= c <= '\U{200A}')
    || c == '\U{2028}' || c == '\U{2029}' || c == '\U{202F}' || c == '\U{205F}' || c == '\U{3000}'
  }

  predicate AllSpace(s: string) {
    forall k :: 0 <= k < |s| ==> IsSpace(s[k])
  }

  /** The regular-expression class `\w`, restricted to ASCII. */
  predicate IsWordChar(c: char) {
    ('a' <= c <= 'z') || ('A' <= c <= 'Z') || ('0' <= c <= '9') || c == '_'
  }

  predicate StartsWith(s: string, prefix: string) {
    |prefix| <= |s| && s[..|prefix|] == prefix
  }

  predicate EndsWith(s: string, suffix: string) {
    |suffix| <= |s| && s[|s| - |suffix|..] == suffix
  }

  // ---------------------------------------------------------------------------
  // str.strip()
  // ---------------------------------------------------------------------------

  /** Index of the first non-space character at or after `i`. */
  function SkipSpace(s: string, i: nat): (k: nat)
    requires i <= |s|
    ensures i <= k <= |s|
    ensures forall m :: i <= m < k ==> IsSpace(s[m])
    ensures k < |s| ==> !IsSpace(s[k])
    decreases |s| - i
  {
    if i < |s| && IsSpace(s[i]) then SkipSpace(s, i + 1) else i
  }

  /** Index just past the last non-space character of `s[lo..j]`, or `lo` when there is none. */
  function SkipSpaceBack(s: string, lo: nat, j: nat): (k: nat)
    requires lo <= j <= |s|
    ensures lo <= k <= j
    ensures forall m :: k <= m < j ==> IsSpace(s[m])
    ensures k > lo ==> !IsSpace(s[k - 1])
    decreases j
  {
    if j > lo && IsSpace(s[j - 1]) then SkipSpaceBack(s, lo, j - 1) else j
  }

  /** Python's `s.strip()`: the slice of `s` left after removing leading and trailing whitespace. */
  function Strip(s: string): (r: string)
    ensures exists a :: 0 <= a <= |s| - |r| && r == s[a..a + |r|] && AllSpace(s[..a]) && AllSpace(s[a + |r|..])
    ensures r != [] ==> !IsSpace(r[0]) && !IsSpace(r[|r| - 1])
    ensures r == [] <==> AllSpace(s)
  {
    var a := SkipSpace(s, 0);
    var b := SkipSpaceBack(s, a, |s|);
    var r := s[a..b];
    assert AllSpace(s[..a]);
    assert AllSpace(s[b..]);
    assert r == s[a..a + |r|];
    assert AllSpace(s) ==> a == |s|;
    assert a == b ==> AllSpace(s) by {
      if a == b {
        forall m | 0 <= m < |s| ensures IsSpace(s[m]) {
          assert m < a || b <= m;
        }
      }
    }
    r
  }

  // ---------------------------------------------------------------------------
  // Occurrences, str.split and str.replace
  // ---------------------------------------------------------------------------

  /** `d` occurs in `s` starting at index `k`. */
  predicate OccursAt(s: string, d: string, k: int) {
    0 <= k && k + |d| <= |s| && s[k..k + |d|] == d
  }

  /** `d` is a substring of `s` (Python's `d in s`). */
  predicate Contains(s: string, d: string) {
    exists k :: 0 <= k <= |s| && OccursAt(s, d, k)
  }

  /** The leftmost occurrence of `d` in `s` at or after `i` (Python's `s.find(d, i)`). */
  function FindFrom(s: string, d: string, i: nat): (r: Option<nat>)
    requires |d| > 0
    requires i <= |s|
    ensures r.Some? ==> i <= r.value && OccursAt(s, d, r.value)
    ensures r.Some? ==> forall k :: i <= k < r.value ==> !OccursAt(s, d, k)
    ensures r.None? ==> forall k :: i <= k ==> !OccursAt(s, d, k)
    decreases |s| - i
  {
    if OccursAt(s, d, i) then Some(i)
    else if i == |s| then None
    else FindFrom(s, d, i + 1)
  }

  /** An occurrence inside a prefix is an occurrence in the whole string, at the same index. */
  lemma OccursInPrefix(s: string, n: nat, d: string, k: int)
    requires n <= |s|
    ensures OccursAt(s[..n], d, k) ==> OccursAt(s, d, k)
  {
    if OccursAt(s[..n], d, k) {
      assert s[..n][k..k + |d|] == s[k..k + |d|];
    }
  }

  /** An occurrence inside a suffix is an occurrence in the whole string, shifted by the suffix's start. */
  lemma OccursInSuffix(s: string, n: nat, d: string, k: int)
    requires n <= |s|
    ensures OccursAt(s[n..], d, k) <==> k >= 0 && OccursAt(s, d, n + k)
  {
    if 0 <= k && n + k + |d| <= |s| {
      assert s[n..][k..k + |d|] == s[n + k..n + k + |d|];
    }
  }

  /** `pieces` glued together with `sep` between neighbours (Python's `sep.join(pieces)`). */
  function Join(pieces: seq<string>, sep: string): string
    decreases |pieces|
  {
    if |pieces| == 0 then ""
    else if |pieces| == 1 then pieces[0]
    else pieces[0] + sep + Join(pieces[1..], sep)
  }

  /**
   Python's `s.split(d)` for a non-empty separator: cut `s` at every
   occurrence of `d`, found left to right without overlap.
   */
  function Split(s: string, d: string): (pieces: seq<string>)
    requires |d| > 0
    ensures |pieces| >= 1
    ensures Join(pieces, d) == s
    ensures forall i :: 0 <= i < |pieces| ==> !Contains(pieces[i], d)
    ensures |pieces| == 1 <==> !Contains(s, d)
    ensures |pieces| > 1 ==> OccursAt(s, d, |pieces[0]|) && forall k :: 0 <= k < |pieces[0]| ==> !OccursAt(s, d, k)
    decreases |s|
  {
    match FindFrom(s, d, 0)
    case None =>
      assert forall k :: !OccursAt(s, d, k) by {
        forall k ensures !OccursAt(s, d, k) {
          assert OccursAt(s, d, k) ==> 0 <= k;
        }
      }
      [s]
    case Some(k) =>
      var rest := Split(s[k + |d|..], d);
      SplitCons(s, d, k, rest);
      [s[..k]] + rest
  }

  /** The first cut of `Split`: the text before the leftmost occurrence, then the pieces of what follows it. */
  lemma {:induction false} SplitCons(s: string, d: string, k: nat, rest: seq<string>)
    requires |d| > 0 && OccursAt(s, d, k)
    requires forall j :: 0 <= j < k ==> !OccursAt(s, d, j)
    requires |rest| >= 1 && Join(rest, d) == s[k + |d|..]
    requires forall i :: 0 <= i < |rest| ==> !Contains(rest[i], d)
    ensures var pieces := [s[..k]] + rest;
            && |pieces| > 1
            && |pieces[0]| == k
            && Join(pieces, d) == s
            && (forall i :: 0 <= i < |pieces| ==> !Contains(pieces[i], d))
            && Contains(s, d)
  {
    var head := s[..k];
    var pieces := [head] + rest;
    assert !Contains(head, d) by {
      forall j ensures !OccursAt(head, d, j) {
        OccursInPrefix(s, k, d, j);
      }
    }
    assert s == head + d + s[k + |d|..] by {
      assert s[k..k + |d|] == d;
    }
    assert OccursAt(s, d, k);
    JoinCons(head, rest, d);
    assert forall i :: 0 < i < |pieces| ==> pieces[i] == rest[i - 1];
  }

  /** Joining a first piece in front of at least one more puts one separator between them. */
  lemma JoinCons(head: string, rest: seq<string>, sep: string)
    requires |rest| >= 1
    ensures Join([head] + rest, sep) == head + sep + Join(rest, sep)
  {
    assert ([head] + rest)[1..] == rest;
  }

  /** Python's `s.replace(pattern, replacement)` for a non-empty `pattern`: every occurrence is replaced. */
  function ReplaceAll(s: string, pattern: string, replacement: string): (r: string)
    requires |pattern| > 0
    ensures !Contains(s, pattern) ==> r == s
    ensures replacement == pattern ==> r == s
  {
    Join(Split(s, pattern), replacement)
  }

  /**
   The later cuts of `Split`: after the first piece and the occurrence that
   ends it, the remaining pieces are the pieces of the rest of the string.
   */
  lemma {:induction false} SplitRest(s: string, d: string)
    requires |d| > 0
    ensures var pieces := Split(s, d);
            |pieces| > 1 ==>
              && pieces[0] == s[..|pieces[0]|]
              && pieces[1..] == Split(s[|pieces[0]| + |d|..], d)
  {
    match FindFrom(s, d, 0)
    case None =>
    case Some(k) =>
      var rest := Split(s[k + |d|..], d);
      assert Split(s, d) == [s[..k]] + rest;
      assert ([s[..k]] + rest)[1..] == rest;
  }

  /** Splitting a string that starts with `p + d`, where `p` holds no occurrence of `d`, cuts off exactly `p`. */
  lemma {:induction false} SplitAfterHead(p: string, d: string, q: string)
    requires |d| > 0
    requires forall k :: 0 <= k < |p| ==> !OccursAt(p + d + q, d, k)
    ensures Split(p + d + q, d) == [p] + Split(q, d)
  {
    var s := p + d + q;
    assert OccursAt(s, d, |p|) by {
      assert s[|p|..|p| + |d|] == d;
    }
    var f := FindFrom(s, d, 0);
    assert f == Some(|p|);
    assert s[..|p|] == p;
    assert s[|p| + |d|..] == q;
  }

  /** A string holding no occurrence of the separator is its own single piece. */
  lemma SplitWithout(s: string, d: string)
    requires |d| > 0
    requires !Contains(s, d)
    ensures Split(s, d) == [s]
  {
  }

  // ---------------------------------------------------------------------------
  // Decimal numerals
  // ---------------------------------------------------------------------------

  predicate IsDigit(c: char) {
    '0' <= c <= '9'
  }

  predicate AllDigits(s: string) {
    forall k :: 0 <= k < |s| ==> IsDigit(s[k])
  }

  function DigitChar(d: nat): (c: char)
    requires d < 10
    ensures IsDigit(c)
    ensures c as int - '0' as int == d
  {
    ('0' as int + d) as char
  }

  /** The decimal numeral of `n` (Python's `str(n)` for a non-negative integer). */
  function Decimal(n: nat): (r: string)
    ensures |r| >= 1
    ensures AllDigits(r)
    ensures r[0] == '0' ==> n == 0
    decreases n
  {
    if n < 10 then [DigitChar(n)] else Decimal(n / 10) + [DigitChar(n % 10)]
  }

  /** The value of a decimal numeral. */
  function ParseDecimal(s: string): nat
    requires AllDigits(s)
    decreases |s|
  {
    if s == [] then 0 else ParseDecimal(s[..|s| - 1]) * 10 + (s[|s| - 1] as int - '0' as int)
  }

  /** Reading back the numeral of `n` gives `n`. */
  lemma {:induction false} DecimalRoundTrip(n: nat)
    ensures ParseDecimal(Decimal(n)) == n
    decreases n
  {
    if n >= 10 {
      DecimalRoundTrip(n / 10);
      var r := Decimal(n);
      assert r[..|r| - 1] == Decimal(n / 10);
    }
  }

  /** Distinct numbers have distinct numerals. */
  lemma DecimalInjective(m: nat, n: nat)
    ensures Decimal(m) == Decimal(n) ==> m == n
  {
    DecimalRoundTrip(m);
    DecimalRoundTrip(n);
  }

  // ---------------------------------------------------------------------------
  // Python's ordering of strings
  // ---------------------------------------------------------------------------

  /** Python's `a < b` on strings: lexicographic by code point, a proper prefix being smaller. */
  predicate LexLess(a: string, b: string)
    decreases |a|
  {
    if |b| == 0 then false
    else if |a| == 0 then true
    else if a[0] != b[0] then a[0] < b[0]
    else LexLess(a[1..], b[1..])
  }

  lemma {:induction false} LexLessIrreflexive(a: string)
    ensures !LexLess(a, a)
    decreases |a|
  {
    if |a| > 0 {
      LexLessIrreflexive(a[1..]);
    }
  }

  lemma {:induction false} LexLessTransitive(a: string, b: string, c: string)
    requires LexLess(a, b) && LexLess(b, c)
    ensures LexLess(a, c)
    decreases |a|
  {
    if |a| > 0 && a[0] == b[0] && b[0] == c[0] {
      LexLessTransitive(a[1..], b[1..], c[1..]);
    }
  }

  /** Any two different strings are ordered one way or the other. */
  lemma {:induction false} LexLessTotal(a: string, b: string)
    requires a != b
    ensures LexLess(a, b) || LexLess(b, a)
    decreases |a|
  {
    if |a| > 0 && |b| > 0 && a[0] == b[0] {
      assert a == [a[0]] + a[1..] && b == [b[0]] + b[1..];
      LexLessTotal(a[1..], b[1..]);
    }
  }

  /** `<` on strings is asymmetric. */
  lemma LexLessAsymmetric(a: string, b: string)
    requires LexLess(a, b)
    ensures !LexLess(b, a)
  {
    if LexLess(b, a) {
      LexLessTransitive(a, b, a);
      LexLessIrreflexive(a);
    }
  }
}
