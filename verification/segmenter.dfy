/**
 The content segmenter (`process_message_content`): fenced code blocks are
 cut out of a message first, then inline `$...$` math is cut out of what is
 left, each fragment being stored under a fresh placeholder marker.

 The two regular expressions of the application are modelled by dedicated
 scanners. Each scanner has a declarative counterpart (`IsCodeMatch`,
 `IsLatexMatch`) describing what the pattern matches at a position, and the
 scanners are proved to find exactly the leftmost, non-overlapping matches.
 */
module Segmenter {
  import opened Optional
  import opened Text

  /** A stored code fragment: the stripped code and its language tag. */
  datatype CodeBlock = CodeBlock(code: string, language: string)

  /** The two-character delimiter wrapping every marker, and the word the renderer splits on. */
  const Delimiter := "__"
  const CodePrefix := "CODE_BLOCK_"
  const LatexPrefix := "LATEX_BLOCK_"
  /** The language assumed for a fence without a tag. */
  const DefaultLanguage := "python"

  /** The placeholder `__<prefix><n>__`; `n` stands for the application's object id. */
  function Marker(prefix: string, n: nat): string {
    Delimiter + prefix + Decimal(n) + Delimiter
  }

  /** The placeholder `__CODE_BLOCK_<n>__`. */
  function CodeMarker(n: nat): string {
    Marker(CodePrefix, n)
  }

  /** The placeholder `__LATEX_BLOCK_<n>__`. */
  function LatexMarker(n: nat): string {
    Marker(LatexPrefix, n)
  }

  /** Markers with one prefix built from different numbers differ. */
  lemma MarkerInjective(prefix: string, m: nat, n: nat)
    ensures Marker(prefix, m) == Marker(prefix, n) ==> m == n
  {
    var a, b := Marker(prefix, m), Marker(prefix, n);
    if a == b {
      assert Decimal(m) == a[2 + |prefix|..|a| - 2];
      assert Decimal(n) == b[2 + |prefix|..|b| - 2];
      DecimalInjective(m, n);
    }
  }

  /** No code marker is a math marker. */
  lemma CodeMarkerNotLatexMarker(m: nat, n: nat)
    ensures CodeMarker(m) != LatexMarker(n)
  {
    assert CodeMarker(m)[2] != LatexMarker(n)[2];
  }

  /** The markers handed out for `count` fragments numbered from `next`. */
  function Markers(prefix: string, next: nat, count: nat): set<string> {
    set k | next <= k < next + count :: Marker(prefix, k)
  }

  lemma MarkersStep(prefix: string, next: nat, count: nat)
    requires count > 0
    ensures Markers(prefix, next, count) == {Marker(prefix, next)} + Markers(prefix, next + 1, count - 1)
    ensures Marker(prefix, next) !in Markers(prefix, next + 1, count - 1)
  {
    if Marker(prefix, next) in Markers(prefix, next + 1, count - 1) {
      var k :| next + 1 <= k < next + count && Marker(prefix, k) == Marker(prefix, next);
      MarkerInjective(prefix, k, next);
    }
  }

  // ---------------------------------------------------------------------------
  // Fenced code: ```(\w+)?\n(.*?)```  with DOTALL
  // ---------------------------------------------------------------------------

  predicate FenceAt(s: string, k: int) {
    0 <= k && k + 3 <= |s| && s[k] == '`' && s[k + 1] == '`' && s[k + 2] == '`'
  }

  /**
   A code match: the opening fence starts at `start`, the tag runs up to the
   newline at `tagEnd`, the body runs from `tagEnd + 1` up to the closing
   fence at `bodyEnd`.
   */
  datatype CodeMatch = CodeMatch(start: nat, tagEnd: nat, bodyEnd: nat) {
    function End(): nat {
      bodyEnd + 3
    }
  }

  /**
   What the pattern matches at `m.start`: a fence, a possibly empty run of
   word characters ended by a newline, then the shortest body followed by a
   fence (no fence starts inside the body).
   */
  predicate IsCodeMatch(s: string, m: CodeMatch) {
    && CodeInBounds(s, m)
    && FenceAt(s, m.start)
    && (forall k :: m.start + 3 <= k < m.tagEnd ==> IsWordChar(s[k]))
    && s[m.tagEnd] == '\n'
    && (forall k :: m.tagEnd + 1 <= k < m.bodyEnd ==> !FenceAt(s, k))
    && FenceAt(s, m.bodyEnd)
  }

  /** The positions of `m` are ordered and lie inside `s`. */
  predicate CodeInBounds(s: string, m: CodeMatch) {
    && m.start + 3 <= m.tagEnd
    && m.tagEnd + 1 <= m.bodyEnd
    && m.bodyEnd + 3 <= |s|
  }

  /** The whole matched text (`match.group(0)`). */
  function CodeText(s: string, m: CodeMatch): (t: string)
    requires CodeInBounds(s, m)
    ensures |t| == m.End() - m.start
  {
    s[m.start..m.End()]
  }

  /** The language tag (`match.group(1)`), empty when absent. */
  function CodeTag(s: string, m: CodeMatch): string
    requires CodeInBounds(s, m)
  {
    s[m.start + 3..m.tagEnd]
  }

  /** The body (`match.group(2)`). */
  function CodeBody(s: string, m: CodeMatch): string
    requires CodeInBounds(s, m)
  {
    s[m.tagEnd + 1..m.bodyEnd]
  }

  /** `match.group(1) or "python"`. */
  function Language(tag: string): (lang: string)
    ensures tag == "" ==> lang == DefaultLanguage
    ensures tag != "" ==> lang == tag
  {
    if tag == "" then DefaultLanguage else tag
  }

  /** The stored fragment for a match: the stripped body and the language. */
  function CodeFragment(s: string, m: CodeMatch): CodeBlock
    requires CodeInBounds(s, m)
  {
    CodeBlock(Strip(CodeBody(s, m)), Language(CodeTag(s, m)))
  }

  /** End of the run of word characters starting at `j`. */
  function WordEnd(s: string, j: nat): (e: nat)
    requires j <= |s|
    ensures j <= e <= |s|
    ensures forall k :: j <= k < e ==> IsWordChar(s[k])
    ensures e < |s| ==> !IsWordChar(s[e])
    decreases |s| - j
  {
    if j < |s| && IsWordChar(s[j]) then WordEnd(s, j + 1) else j
  }

  /** The first fence at or after `j`. */
  function NextFence(s: string, j: nat): (r: Option<nat>)
    requires j <= |s|
    ensures r.Some? ==> j <= r.value && FenceAt(s, r.value)
    ensures r.Some? ==> forall k :: j <= k < r.value ==> !FenceAt(s, k)
    ensures r.None? ==> forall k :: j <= k ==> !FenceAt(s, k)
    decreases |s| - j
  {
    if FenceAt(s, j) then Some(j)
    else if j == |s| then None
    else NextFence(s, j + 1)
  }

  /** The match the pattern makes at position `i`, if any; it is the only one. */
  function CodeMatchAt(s: string, i: nat): (r: Option<CodeMatch>)
    requires i <= |s|
    ensures r.Some? ==> IsCodeMatch(s, r.value) && r.value.start == i
    ensures forall m :: IsCodeMatch(s, m) && m.start == i ==> r == Some(m)
  {
    if !FenceAt(s, i) then None
    else
      var t := WordEnd(s, i + 3);
      if t < |s| && s[t] == '\n' then
        match NextFence(s, t + 1)
        case Some(b) => Some(CodeMatch(i, t, b))
        case None => None
      else None
  }

  /**
   `re.finditer` for the code pattern from position `i`: the matches in
   order, without overlap, and every position where the pattern matches lies
   inside one of them.
   */
  function FindCodeMatches(s: string, i: nat): (ms: seq<CodeMatch>)
    requires i <= |s|
    ensures forall k :: 0 <= k < |ms| ==> IsCodeMatch(s, ms[k]) && i <= ms[k].start
    ensures forall k :: 0 < k < |ms| ==> ms[k - 1].End() <= ms[k].start
    decreases |s| - i
  {
    if i == |s| then []
    else
      match CodeMatchAt(s, i)
      case Some(m) => [m] + FindCodeMatches(s, m.End())
      case None => FindCodeMatches(s, i + 1)
  }

  /** Some match of `ms` spans position `p`. */
  predicate CodeCovered(ms: seq<CodeMatch>, p: nat) {
    exists k :: 0 <= k < |ms| && ms[k].start <= p < ms[k].End()
  }

  lemma CodeCoveredCons(m: CodeMatch, rest: seq<CodeMatch>, p: nat)
    requires (m.start <= p < m.End()) || CodeCovered(rest, p)
    ensures CodeCovered([m] + rest, p)
  {
    var ms := [m] + rest;
    if m.start <= p < m.End() {
      assert ms[0] == m;
    } else {
      var k :| 0 <= k < |rest| && rest[k].start <= p < rest[k].End();
      assert ms[k + 1] == rest[k];
    }
  }

  /** Every position where the pattern matches lies inside one of the matches found: none is skipped. */
  lemma {:induction false} FindCodeMatchesComplete(s: string, i: nat, x: CodeMatch)
    requires i <= |s|
    requires IsCodeMatch(s, x) && i <= x.start
    ensures CodeCovered(FindCodeMatches(s, i), x.start)
  {
    assert CodeMatchAt(s, x.start) == Some(x);
    CodeCoveredFrom(s, i, x.start);
  }

  /** The scan from `i` covers the start of a match the pattern makes at or after `i`. */
  lemma {:induction false} CodeCoveredFrom(s: string, i: nat, p: nat)
    requires i <= p < |s|
    requires CodeMatchAt(s, p).Some?
    ensures CodeCovered(FindCodeMatches(s, i), p)
    decreases |s| - i
  {
    var here := CodeMatchAt(s, i);
    if here.Some? {
      var m := here.value;
      if m.End() <= p {
        CodeCoveredFrom(s, m.End(), p);
      }
      CodeCoveredCons(m, FindCodeMatches(s, m.End()), p);
    } else {
      CodeCoveredFrom(s, i + 1, p);
    }
  }

  // ---------------------------------------------------------------------------
  // Inline math: \$(.*?)\$  ('.' does not match a newline)
  // ---------------------------------------------------------------------------

  /** A math match: the opening dollar at `start`, the closing dollar at `bodyEnd`. */
  datatype LatexMatch = LatexMatch(start: nat, bodyEnd: nat) {
    function End(): nat {
      bodyEnd + 1
    }
  }

  /** What the pattern matches at `m.start`: a dollar, the shortest newline-free body, a dollar. */
  predicate IsLatexMatch(s: string, m: LatexMatch) {
    && LatexInBounds(s, m)
    && s[m.start] == '$'
    && (forall k :: m.start < k < m.bodyEnd ==> s[k] != '$' && s[k] != '\n')
    && s[m.bodyEnd] == '$'
  }

  predicate LatexInBounds(s: string, m: LatexMatch) {
    m.start < m.bodyEnd < |s|
  }

  function LatexText(s: string, m: LatexMatch): (t: string)
    requires LatexInBounds(s, m)
    ensures |t| == m.End() - m.start
  {
    s[m.start..m.End()]
  }

  /** The body (`match.group(1)`), stored without stripping. */
  function LatexBody(s: string, m: LatexMatch): string
    requires LatexInBounds(s, m)
  {
    s[m.start + 1..m.bodyEnd]
  }

  /** The first dollar or newline at or after `j`. */
  function NextStop(s: string, j: nat): (r: Option<nat>)
    requires j <= |s|
    ensures r.Some? ==> j <= r.value < |s| && (s[r.value] == '$' || s[r.value] == '\n')
    ensures r.Some? ==> forall k :: j <= k < r.value ==> s[k] != '$' && s[k] != '\n'
    ensures r.None? ==> forall k :: j <= k < |s| ==> s[k] != '$' && s[k] != '\n'
    decreases |s| - j
  {
    if j == |s| then None
    else if s[j] == '$' || s[j] == '\n' then Some(j)
    else NextStop(s, j + 1)
  }

  /** The math match at position `i`, if any; it is the only one. */
  function LatexMatchAt(s: string, i: nat): (r: Option<LatexMatch>)
    requires i <= |s|
    ensures r.Some? ==> IsLatexMatch(s, r.value) && r.value.start == i
    ensures forall m :: IsLatexMatch(s, m) && m.start == i ==> r == Some(m)
  {
    if i < |s| && s[i] == '$' then
      match NextStop(s, i + 1)
      case Some(k) => if s[k] == '$' then Some(LatexMatch(i, k)) else None
      case None => None
    else None
  }

  /** `re.finditer` for the math pattern from position `i`. */
  function FindLatexMatches(s: string, i: nat): (ms: seq<LatexMatch>)
    requires i <= |s|
    ensures forall k :: 0 <= k < |ms| ==> IsLatexMatch(s, ms[k]) && i <= ms[k].start
    ensures forall k :: 0 < k < |ms| ==> ms[k - 1].End() <= ms[k].start
    decreases |s| - i
  {
    if i == |s| then []
    else
      match LatexMatchAt(s, i)
      case Some(m) => [m] + FindLatexMatches(s, m.End())
      case None => FindLatexMatches(s, i + 1)
  }

  /** Some match of `ms` spans position `p`. */
  predicate LatexCovered(ms: seq<LatexMatch>, p: nat) {
    exists k :: 0 <= k < |ms| && ms[k].start <= p < ms[k].End()
  }

  lemma LatexCoveredCons(m: LatexMatch, rest: seq<LatexMatch>, p: nat)
    requires (m.start <= p < m.End()) || LatexCovered(rest, p)
    ensures LatexCovered([m] + rest, p)
  {
    var ms := [m] + rest;
    if m.start <= p < m.End() {
      assert ms[0] == m;
    } else {
      var k :| 0 <= k < |rest| && rest[k].start <= p < rest[k].End();
      assert ms[k + 1] == rest[k];
    }
  }

  /** Every position where the pattern matches lies inside one of the matches found: none is skipped. */
  lemma {:induction false} FindLatexMatchesComplete(s: string, i: nat, x: LatexMatch)
    requires i <= |s|
    requires IsLatexMatch(s, x) && i <= x.start
    ensures LatexCovered(FindLatexMatches(s, i), x.start)
  {
    assert LatexMatchAt(s, x.start) == Some(x);
    LatexCoveredFrom(s, i, x.start);
  }

  /** The scan from `i` covers the start of a match the pattern makes at or after `i`. */
  lemma {:induction false} LatexCoveredFrom(s: string, i: nat, p: nat)
    requires i <= p < |s|
    requires LatexMatchAt(s, p).Some?
    ensures LatexCovered(FindLatexMatches(s, i), p)
    decreases |s| - i
  {
    var here := LatexMatchAt(s, i);
    if here.Some? {
      var m := here.value;
      if m.End() <= p {
        LatexCoveredFrom(s, m.End(), p);
      }
      LatexCoveredCons(m, FindLatexMatches(s, m.End()), p);
    } else {
      LatexCoveredFrom(s, i + 1, p);
    }
  }

  // ---------------------------------------------------------------------------
  // Substitution: every occurrence of each matched text becomes its marker
  // ---------------------------------------------------------------------------

  /**
   The text after replacing, pattern by pattern, every occurrence of
   `patterns[k]` by the marker numbered `next + k`. Later patterns act on the
   text already rewritten by earlier ones.
   */
  function ReplaceEach(text: string, patterns: seq<string>, prefix: string, next: nat): (r: string)
    requires forall k :: 0 <= k < |patterns| ==> |patterns[k]| > 0
    ensures (forall k :: 0 <= k < |patterns| ==> !Contains(text, patterns[k])) ==> r == text
    decreases |patterns|
  {
    if patterns == [] then text
    else
      var once := ReplaceAll(text, patterns[0], Marker(prefix, next));
      var r := ReplaceEach(once, patterns[1..], prefix, next + 1);
      r
  }

  /** A map after storing `values[k]` under the marker numbered `next + k`. */
  function StoreEach<V>(blocks: map<string, V>, values: seq<V>, prefix: string, next: nat): (r: map<string, V>)
    ensures r.Keys == blocks.Keys + Markers(prefix, next, |values|)
    ensures forall n :: next <= n < next + |values| ==> r[Marker(prefix, n)] == values[n - next]
    ensures forall key :: key in blocks && key !in Markers(prefix, next, |values|) ==> r[key] == blocks[key]
    decreases |values|
  {
    if values == [] then blocks
    else
      var b := blocks[Marker(prefix, next) := values[0]];
      var r := StoreEach(b, values[1..], prefix, next + 1);
      var here, later := Marker(prefix, next), Markers(prefix, next + 1, |values| - 1);
      MarkersStep(prefix, next, |values|);
      assert r.Keys == blocks.Keys + Markers(prefix, next, |values|) by {
        assert b.Keys == blocks.Keys + {here};
      }
      assert forall n :: next <= n < next + |values| ==> r[Marker(prefix, n)] == values[n - next] by {
        forall n | next <= n < next + |values| ensures r[Marker(prefix, n)] == values[n - next] {
          if n == next {
            assert here !in later;
          } else {
            assert values[1..][n - (next + 1)] == values[n - next];
          }
        }
      }
      assert forall key :: key in blocks && key !in Markers(prefix, next, |values|) ==> r[key] == blocks[key] by {
        forall key | key in blocks && key !in Markers(prefix, next, |values|) ensures r[key] == blocks[key] {
          assert key != here && key !in later;
        }
      }
      r
  }

  /** The matched texts of the code matches, in order. */
  function CodeTexts(source: string, ms: seq<CodeMatch>): (r: seq<string>)
    requires forall k :: 0 <= k < |ms| ==> CodeInBounds(source, ms[k])
    ensures |r| == |ms| && forall k :: 0 <= k < |ms| ==> r[k] == CodeText(source, ms[k]) && |r[k]| > 0
  {
    var r := seq(|ms|, k requires 0 <= k < |ms| => CodeText(source, ms[k]));
    assert forall k :: 0 <= k < |ms| ==> |r[k]| > 0 by {
      forall k | 0 <= k < |ms| ensures |r[k]| > 0 {
        assert r[k] == CodeText(source, ms[k]);
      }
    }
    r
  }

  /** The stored fragments of the code matches, in order. */
  function CodeFragments(source: string, ms: seq<CodeMatch>): (r: seq<CodeBlock>)
    requires forall k :: 0 <= k < |ms| ==> CodeInBounds(source, ms[k])
    ensures |r| == |ms| && forall k :: 0 <= k < |ms| ==> r[k] == CodeFragment(source, ms[k])
  {
    seq(|ms|, k requires 0 <= k < |ms| => CodeFragment(source, ms[k]))
  }

  function LatexTexts(source: string, ms: seq<LatexMatch>): (r: seq<string>)
    requires forall k :: 0 <= k < |ms| ==> LatexInBounds(source, ms[k])
    ensures |r| == |ms| && forall k :: 0 <= k < |ms| ==> r[k] == LatexText(source, ms[k]) && |r[k]| > 0
  {
    var r := seq(|ms|, k requires 0 <= k < |ms| => LatexText(source, ms[k]));
    assert forall k :: 0 <= k < |ms| ==> |r[k]| > 0 by {
      forall k | 0 <= k < |ms| ensures |r[k]| > 0 {
        assert r[k] == LatexText(source, ms[k]);
      }
    }
    r
  }

  function LatexBodies(source: string, ms: seq<LatexMatch>): (r: seq<string>)
    requires forall k :: 0 <= k < |ms| ==> LatexInBounds(source, ms[k])
    ensures |r| == |ms| && forall k :: 0 <= k < |ms| ==> r[k] == LatexBody(source, ms[k])
  {
    seq(|ms|, k requires 0 <= k < |ms| => LatexBody(source, ms[k]))
  }

  // ---------------------------------------------------------------------------
  // process_message_content
  // ---------------------------------------------------------------------------

  /** The processed text and both fragment maps, and the next unused marker number. */
  datatype Processed = Processed(
    text: string,
    codeBlocks: map<string, CodeBlock>,
    latexBlocks: map<string, string>,
    next: nat)

  /** The result of one pass: the rewritten text, the updated map, and how many markers were used. */
  datatype Pass<V> = Pass(text: string, blocks: map<string, V>, count: nat)

  /**
   The code pass: every code match of `content`, numbered from `next`, is
   replaced by its marker and stored, stripped, with its language.
   */
  function CodePass(content: string, codeBlocks: map<string, CodeBlock>, next: nat): (r: Pass<CodeBlock>)
    ensures var ms := FindCodeMatches(content, 0);
            && r.count == |ms|
            && r.blocks.Keys == codeBlocks.Keys + Markers(CodePrefix, next, |ms|)
            && (forall k :: 0 <= k < |ms| ==> r.blocks[CodeMarker(next + k)] == CodeFragment(content, ms[k]))
            && (forall key :: key in codeBlocks && key !in Markers(CodePrefix, next, |ms|) ==>
                  r.blocks[key] == codeBlocks[key])
            && (ms == [] ==> r.text == content)
  {
    var ms := FindCodeMatches(content, 0);
    var blocks := StoreEach(codeBlocks, CodeFragments(content, ms), CodePrefix, next);
    Pass(ReplaceEach(content, CodeTexts(content, ms), CodePrefix, next), blocks, |ms|)
  }

  /**
   The math pass: every math match of `text`, numbered from `next`, is
   replaced by its marker and its body stored as is.
   */
  function LatexPass(text: string, latexBlocks: map<string, string>, next: nat): (r: Pass<string>)
    ensures var ls := FindLatexMatches(text, 0);
            && r.count == |ls|
            && r.blocks.Keys == latexBlocks.Keys + Markers(LatexPrefix, next, |ls|)
            && (forall k :: 0 <= k < |ls| ==> r.blocks[LatexMarker(next + k)] == LatexBody(text, ls[k]))
            && (forall key :: key in latexBlocks && key !in Markers(LatexPrefix, next, |ls|) ==>
                  r.blocks[key] == latexBlocks[key])
            && (ls == [] ==> r.text == text)
  {
    var ls := FindLatexMatches(text, 0);
    var blocks := StoreEach(latexBlocks, LatexBodies(text, ls), LatexPrefix, next);
    Pass(ReplaceEach(text, LatexTexts(text, ls), LatexPrefix, next), blocks, |ls|)
  }

  /**
   `process_message_content`: the code pass on the message, then the math
   pass on the code-substituted text, numbering markers consecutively.
   */
  function ProcessContent(
    content: string,
    codeBlocks: map<string, CodeBlock>,
    latexBlocks: map<string, string>,
    next: nat)
    : (r: Processed)
    ensures var ms := FindCodeMatches(content, 0);
            && r.codeBlocks.Keys == codeBlocks.Keys + Markers(CodePrefix, next, |ms|)
            && (forall k :: 0 <= k < |ms| ==> r.codeBlocks[CodeMarker(next + k)] == CodeFragment(content, ms[k]))
            && (forall key :: key in codeBlocks && key !in Markers(CodePrefix, next, |ms|) ==>
                  r.codeBlocks[key] == codeBlocks[key])
    ensures var code := CodePass(content, codeBlocks, next);
            var ls := FindLatexMatches(code.text, 0);
            && r.next == next + code.count + |ls|
            && (code.count == 0 && ls == [] ==> r.text == content)
  {
    var code := CodePass(content, codeBlocks, next);
    var base := next + code.count;
    var latex := LatexPass(code.text, latexBlocks, base);
    Processed(latex.text, code.blocks, latex.blocks, base + latex.count)
  }

  /**
   The math markers of a processed message are numbered right after its code
   markers, and math entries stored under other keys are kept.
   */
  lemma {:induction false} ProcessContentMathKeys(
    content: string,
    codeBlocks: map<string, CodeBlock>,
    latexBlocks: map<string, string>,
    next: nat)
    ensures var r := ProcessContent(content, codeBlocks, latexBlocks, next);
            var code := CodePass(content, codeBlocks, next);
            var base := next + code.count;
            var ls := FindLatexMatches(code.text, 0);
            && r.latexBlocks.Keys == latexBlocks.Keys + Markers(LatexPrefix, base, |ls|)
            && (forall key :: key in latexBlocks && key !in Markers(LatexPrefix, base, |ls|) ==>
                  r.latexBlocks[key] == latexBlocks[key])
  {
  }

  /**
   The `k`-th math match of the code-substituted text is stored, unstripped,
   under the `k`-th math marker.
   */
  lemma {:induction false} ProcessContentMathEntry(
    content: string,
    codeBlocks: map<string, CodeBlock>,
    latexBlocks: map<string, string>,
    next: nat,
    k: nat)
    requires k < |FindLatexMatches(CodePass(content, codeBlocks, next).text, 0)|
    ensures var r := ProcessContent(content, codeBlocks, latexBlocks, next);
            var code := CodePass(content, codeBlocks, next);
            var base := next + code.count;
            var ls := FindLatexMatches(code.text, 0);
            LatexMarker(base + k) in r.latexBlocks && r.latexBlocks[LatexMarker(base + k)] == LatexBody(code.text, ls[k])
  {
  }
}
