/**
 Segmenting a message and rendering the result: for messages made of prose
 around one fenced code block or one inline formula, the renderer issues
 exactly the prose, the stripped code with its language, or the formula, in
 message order.

 The prose must not contain the delimiter `__` and must not start like a
 marker body; otherwise the renderer cuts it differently (see
 `MarkerLikeProseFails`), so no round trip is claimed for it.
 */
module RoundTrip {
  import opened Optional
  import opened Text
  import opened Segmenter
  import opened Renderer

  /** The character `c` does not occur in `s`. */
  predicate Lacks(s: string, c: char) {
    forall k :: 0 <= k < |s| ==> s[k] != c
  }

  /** A piece of text the renderer shows as one markdown call: no delimiter, not the body of a marker. */
  predicate Prose(p: string) {
    !Contains(p, Delimiter) && !IsCodePart(p) && !IsLatexPart(p)
  }

  /** Prose that can stand right before a marker: it does not end with the first half of a delimiter. */
  predicate ProseBeforeMarker(p: string) {
    Prose(p) && (p != [] ==> p[|p| - 1] != '_')
  }

  /** The instructions for a piece of prose: one markdown call, or none when it is empty. */
  function ProseOf(p: string): (r: seq<Instruction>)
    ensures p == [] ==> r == []
    ensures p != [] ==> r == [ShowMarkdown(p)]
  {
    if p == [] then [] else [ShowMarkdown(p)]
  }

  // ---------------------------------------------------------------------------
  // Rendering
  // ---------------------------------------------------------------------------

  /** Prose is rendered as itself. */
  lemma RenderProse(p: string, codeBlocks: map<string, CodeBlock>, latexBlocks: map<string, string>)
    requires Prose(p)
    ensures Render(p, codeBlocks, latexBlocks) == Rendered(ProseOf(p), None)
  {
    var parts := [p];
    assert parts[1..] == [];
    assert RenderParts(parts[1..], codeBlocks, latexBlocks) == Rendered([], None);
    if p != [] {
      assert RenderPart(p, codeBlocks, latexBlocks) == Emit(ShowMarkdown(p));
      assert [ShowMarkdown(p)] + [] == [ShowMarkdown(p)];
    }
  }

  /** The body of a marker holds no delimiter: the prefixes end with one underscore, followed by digits. */
  lemma MarkerBodyPlain(prefix: string, n: nat)
    requires prefix == CodePrefix || prefix == LatexPrefix
    ensures !Contains(prefix + Decimal(n), Delimiter)
    ensures prefix + Decimal(n) != [] && (prefix + Decimal(n))[|prefix + Decimal(n)| - 1] != '_'
  {
    var b := prefix + Decimal(n);
    var digits := Decimal(n);
    forall k | 0 <= k <= |b| ensures !OccursAt(b, Delimiter, k) {
      if k + 2 <= |b| {
        var pair := b[k..k + 2];
        assert pair[0] == b[k] && pair[1] == b[k + 1];
        if k + 1 >= |prefix| {
          assert b[k + 1] == digits[k + 1 - |prefix|];
        } else {
          assert pair == prefix[k..k + 2];
        }
      }
    }
    assert b[|b| - 1] == digits[|digits| - 1];
  }

  /** No occurrence of the delimiter begins inside `p` when `p` is followed by one. */
  lemma NoDelimiterInHead(p: string, rest: string)
    requires !Contains(p, Delimiter) && (p != [] ==> p[|p| - 1] != '_')
    ensures forall k :: 0 <= k < |p| ==> !OccursAt(p + Delimiter + rest, Delimiter, k)
  {
    var s := p + Delimiter + rest;
    forall k | 0 <= k < |p| ensures !OccursAt(s, Delimiter, k) {
      var pair := s[k..k + 2];
      assert pair[0] == p[k];
      if k + 1 < |p| {
        assert pair == p[k..k + 2];
        assert !OccursAt(p, Delimiter, k);
      }
    }
  }

  /** Text before the first delimiter, holding no delimiter itself, is cut off as the first piece. */
  lemma SplitAtFirstDelimiter(p: string, rest: string)
    requires !Contains(p, Delimiter) && (p != [] ==> p[|p| - 1] != '_')
    ensures Split(p + Delimiter + rest, Delimiter) == [p] + Split(rest, Delimiter)
  {
    NoDelimiterInHead(p, rest);
    SplitAfterHead(p, Delimiter, rest);
  }

  /** A marker is the delimiter, the marker body, and the delimiter again. */
  lemma MarkerShape(prefix: string, n: nat)
    ensures Marker(prefix, n) == Delimiter + (prefix + Decimal(n)) + Delimiter
  {
  }

  /** Regrouping prose, a marker and prose so that the first delimiter stands alone: `p + m + q == p + __ + (body + __ + q)`. */
  lemma Regroup(p: string, m: string, q: string, body: string)
    requires m == Delimiter + body + Delimiter
    ensures p + m + q == p + Delimiter + (body + Delimiter + q)
  {
  }

  /** Cutting prose, a marker and prose at the delimiter gives the prose, the marker body and the prose. */
  lemma SplitAroundMarker(p: string, prefix: string, n: nat, q: string)
    requires prefix == CodePrefix || prefix == LatexPrefix
    requires !Contains(p, Delimiter) && (p != [] ==> p[|p| - 1] != '_')
    requires !Contains(q, Delimiter)
    ensures Split(p + Marker(prefix, n) + q, Delimiter) == [p, prefix + Decimal(n), q]
  {
    MarkerBodyPlain(prefix, n);
    MarkerShape(prefix, n);
    SplitAroundWrapped(p, prefix + Decimal(n), Marker(prefix, n), q);
  }

  /** Cutting prose, a delimiter-wrapped body and prose at the delimiter gives the prose, the body and the prose. */
  lemma SplitAroundWrapped(p: string, body: string, m: string, q: string)
    requires m == Delimiter + body + Delimiter
    requires !Contains(p, Delimiter) && (p != [] ==> p[|p| - 1] != '_')
    requires !Contains(body, Delimiter) && (body != [] ==> body[|body| - 1] != '_')
    requires !Contains(q, Delimiter)
    ensures Split(p + m + q, Delimiter) == [p, body, q]
  {
    SplitThree(p, body, q);
    Regroup(p, m, q, body);
  }

  /** The cut of `p + __ + (body + __ + q)`, grouped as the first cut sees it, is `[p, body, q]`. */
  lemma SplitThree(p: string, body: string, q: string)
    requires !Contains(p, Delimiter) && (p != [] ==> p[|p| - 1] != '_')
    requires !Contains(body, Delimiter) && (body != [] ==> body[|body| - 1] != '_')
    requires !Contains(q, Delimiter)
    ensures Split(p + Delimiter + (body + Delimiter + q), Delimiter) == [p, body, q]
  {
    SplitAtFirstDelimiter(p, body + Delimiter + q);
    SplitAtFirstDelimiter(body, q);
    SplitWithout(q, Delimiter);
  }

  /** Rendering three pieces none of which fails issues their instructions in order. */
  lemma {:induction false} RenderThree(a: string, b: string, c: string, codeBlocks: map<string, CodeBlock>, latexBlocks: map<string, string>)
    requires !RenderPart(a, codeBlocks, latexBlocks).Missing?
    requires !RenderPart(b, codeBlocks, latexBlocks).Missing?
    requires !RenderPart(c, codeBlocks, latexBlocks).Missing?
    ensures RenderParts([a, b, c], codeBlocks, latexBlocks)
         == Rendered(StepShown(RenderPart(a, codeBlocks, latexBlocks))
                     + StepShown(RenderPart(b, codeBlocks, latexBlocks))
                     + StepShown(RenderPart(c, codeBlocks, latexBlocks)), None)
  {
    var rc := RenderParts([c], codeBlocks, latexBlocks);
    var rbc := RenderParts([b, c], codeBlocks, latexBlocks);
    RenderLast(c, codeBlocks, latexBlocks);
    assert [b] + [c] == [b, c];
    RenderFirst(b, [c], codeBlocks, latexBlocks);
    assert [a] + [b, c] == [a, b, c];
    RenderFirst(a, [b, c], codeBlocks, latexBlocks);
  }

  /** A single piece that does not fail contributes its instructions alone. */
  lemma {:induction false} RenderLast(c: string, codeBlocks: map<string, CodeBlock>, latexBlocks: map<string, string>)
    requires !RenderPart(c, codeBlocks, latexBlocks).Missing?
    ensures RenderParts([c], codeBlocks, latexBlocks) == Rendered(StepShown(RenderPart(c, codeBlocks, latexBlocks)), None)
  {
    RenderFirst(c, [], codeBlocks, latexBlocks);
    assert [c] + [] == [c];
  }

  /** A first piece that does not fail contributes its instructions ahead of the rest. */
  lemma {:induction false} RenderFirst(x: string, rest: seq<string>, codeBlocks: map<string, CodeBlock>, latexBlocks: map<string, string>)
    requires !RenderPart(x, codeBlocks, latexBlocks).Missing?
    ensures var r := RenderParts(rest, codeBlocks, latexBlocks);
            RenderParts([x] + rest, codeBlocks, latexBlocks)
              == Rendered(StepShown(RenderPart(x, codeBlocks, latexBlocks)) + r.shown, r.missing)
  {
    assert ([x] + rest)[1..] == rest;
    assert ([x] + rest)[0] == x;
  }

  /** A piece of prose shows itself. */
  lemma ProseStep(p: string, codeBlocks: map<string, CodeBlock>, latexBlocks: map<string, string>)
    requires Prose(p)
    ensures !RenderPart(p, codeBlocks, latexBlocks).Missing?
    ensures StepShown(RenderPart(p, codeBlocks, latexBlocks)) == ProseOf(p)
  {
  }

  /**
   Rendering prose, a marker present in its map, and prose issues the first
   prose, the stored fragment, and the second prose.
   */
  lemma RenderAroundMarker(
    p: string,
    prefix: string,
    n: nat,
    q: string,
    codeBlocks: map<string, CodeBlock>,
    latexBlocks: map<string, string>)
    requires prefix == CodePrefix || prefix == LatexPrefix
    requires ProseBeforeMarker(p) && Prose(q)
    requires prefix == CodePrefix ==> Marker(prefix, n) in codeBlocks
    requires prefix == LatexPrefix ==> Marker(prefix, n) in latexBlocks
    ensures var shown :=
              if prefix == CodePrefix
              then ShowCode(codeBlocks[Marker(prefix, n)].code, codeBlocks[Marker(prefix, n)].language)
              else ShowLatex(latexBlocks[Marker(prefix, n)]);
            Render(p + Marker(prefix, n) + q, codeBlocks, latexBlocks)
              == Rendered(ProseOf(p) + [shown] + ProseOf(q), None)
  {
    SplitAroundMarker(p, prefix, n, q);
    var body := prefix + Decimal(n);
    MarkerShape(prefix, n);
    assert KeyOf(body) == Marker(prefix, n);
    assert StartsWith(body, prefix);
    CodePartNotLatexPart(body);
    ProseStep(p, codeBlocks, latexBlocks);
    ProseStep(q, codeBlocks, latexBlocks);
    RenderThree(p, body, q, codeBlocks, latexBlocks);
  }

  /**
   The renderer's quirk: a piece of plain text that begins like a code-marker
   body is looked up as a marker, and when no fragment is stored under that
   key the lookup fails before anything is shown.
   */
  lemma MarkerLikeProseFails(p: string, codeBlocks: map<string, CodeBlock>, latexBlocks: map<string, string>)
    requires StartsWith(p, CodePrefix) && !Contains(p, Delimiter)
    requires KeyOf(p) !in codeBlocks
    ensures Render(p, codeBlocks, latexBlocks) == Rendered([], Some(KeyOf(p)))
  {
    SplitWithout(p, Delimiter);
    RenderPartDispatch(p, codeBlocks, latexBlocks);
    var parts := [p];
    assert parts[1..] == [];
  }

  /** For instance the bare text `CODE_BLOCK_<n>`, with nothing stored, fails on the marker numbered `n`. */
  lemma MarkerBodyProseFails(n: nat)
    ensures Render(CodePrefix + Decimal(n), map[], map[]) == Rendered([], Some(CodeMarker(n)))
  {
    var body := CodePrefix + Decimal(n);
    MarkerBodyPlain(CodePrefix, n);
    assert StartsWith(body, CodePrefix);
    assert KeyOf(body) == CodeMarker(n);
    MarkerLikeProseFails(body, map[], map[]);
  }

  // ---------------------------------------------------------------------------
  // Segmenting
  // ---------------------------------------------------------------------------

  /** Without a backtick in `[i, j)`, the code scan from `i` finds what the scan from `j` finds. */
  lemma {:induction false} SkipCodeScan(s: string, i: nat, j: nat)
    requires i <= j <= |s|
    requires forall k :: i <= k < j ==> s[k] != '`'
    ensures FindCodeMatches(s, i) == FindCodeMatches(s, j)
    decreases j - i
  {
    if i < j {
      assert !FenceAt(s, i);
      SkipCodeScan(s, i + 1, j);
    }
  }

  /** Without a dollar in `[i, j)`, the math scan from `i` finds what the scan from `j` finds. */
  lemma {:induction false} SkipLatexScan(s: string, i: nat, j: nat)
    requires i <= j <= |s|
    requires forall k :: i <= k < j ==> s[k] != '$'
    ensures FindLatexMatches(s, i) == FindLatexMatches(s, j)
    decreases j - i
  {
    if i < j {
      SkipLatexScan(s, i + 1, j);
    }
  }

  /** A message without a code match leaves the code pass with nothing to do. */
  lemma CodePassWithoutMatches(content: string, codeBlocks: map<string, CodeBlock>, next: nat)
    requires FindCodeMatches(content, 0) == []
    ensures CodePass(content, codeBlocks, next) == Pass(content, codeBlocks, 0)
  {
    var r := CodePass(content, codeBlocks, next);
    assert Markers(CodePrefix, next, 0) == {};
    assert r.blocks == codeBlocks;
  }

  /** A text without a math match leaves the math pass with nothing to do. */
  lemma LatexPassWithoutMatches(text: string, latexBlocks: map<string, string>, next: nat)
    requires FindLatexMatches(text, 0) == []
    ensures LatexPass(text, latexBlocks, next) == Pass(text, latexBlocks, 0)
  {
    var r := LatexPass(text, latexBlocks, next);
    assert Markers(LatexPrefix, next, 0) == {};
    assert r.blocks == latexBlocks;
  }

  /**
   A message with neither a backtick nor a dollar is left as it is, with both
   maps and the marker counter unchanged.
   */
  lemma SegmentPlain(content: string, codeBlocks: map<string, CodeBlock>, latexBlocks: map<string, string>, next: nat)
    requires Lacks(content, '`') && Lacks(content, '$')
    ensures ProcessContent(content, codeBlocks, latexBlocks, next) == Processed(content, codeBlocks, latexBlocks, next)
  {
    SkipCodeScan(content, 0, |content|);
    CodePassWithoutMatches(content, codeBlocks, next);
    SkipLatexScan(content, 0, |content|);
    LatexPassWithoutMatches(content, latexBlocks, next);
  }

  /** Plain prose is segmented into nothing and rendered as itself. */
  lemma PlainRoundTrip(content: string, codeBlocks: map<string, CodeBlock>, latexBlocks: map<string, string>, next: nat)
    requires Lacks(content, '`') && Lacks(content, '$') && Prose(content)
    ensures var r := ProcessContent(content, codeBlocks, latexBlocks, next);
            Render(r.text, r.codeBlocks, r.latexBlocks) == Rendered(ProseOf(content), None)
  {
    SegmentPlain(content, codeBlocks, latexBlocks, next);
    RenderProse(content, codeBlocks, latexBlocks);
  }

  /**
   Replacing a pattern whose first character occurs neither before nor after
   its one occurrence replaces that occurrence only.
   */
  lemma ReplaceOnly(p: string, f: string, q: string, m: string)
    requires |f| > 0 && Lacks(p, f[0]) && Lacks(q, f[0])
    ensures ReplaceAll(p + f + q, f, m) == p + m + q
  {
    var s := p + f + q;
    NoOccurrenceInHead(p, f, q);
    SplitAfterHead(p, f, q);
    NoOccurrenceWithout(q, f);
    SplitWithout(q, f);
    var pieces := [p, q];
    assert Split(s, f) == pieces;
    assert pieces[1..] == [q];
    assert Join(pieces, m) == p + m + q;
  }

  /** No occurrence of `f` starts inside a head that lacks the first character of `f`. */
  lemma NoOccurrenceInHead(p: string, f: string, rest: string)
    requires |f| > 0 && Lacks(p, f[0])
    ensures forall k :: 0 <= k < |p| ==> !OccursAt(p + f + rest, f, k)
  {
    var s := p + f + rest;
    forall k | 0 <= k < |p| ensures !OccursAt(s, f, k) {
      if k + |f| <= |s| {
        assert s[k..k + |f|][0] == s[k] == p[k];
      }
    }
  }

  /** A text lacking the first character of `f` holds no occurrence of `f`. */
  lemma NoOccurrenceWithout(q: string, f: string)
    requires |f| > 0 && Lacks(q, f[0])
    ensures !Contains(q, f)
  {
    forall k | 0 <= k <= |q| ensures !OccursAt(q, f, k) {
      if k + |f| <= |q| {
        assert q[k..k + |f|][0] == q[k];
      }
    }
  }

  /**
   Replacing a pattern that occurs twice in a row, and whose first character
   occurs nowhere else, replaces both copies.
   */
  lemma {:induction false} ReplaceTwice(p: string, f: string, q: string, m: string)
    requires |f| > 0 && Lacks(p, f[0]) && Lacks(q, f[0])
    ensures ReplaceAll(p + f + f + q, f, m) == p + m + m + q
  {
    var s := p + f + f + q;
    var tail := f + q;
    SplitTwice(p, f, q, tail, s);
    var pieces := [p, [], q];
    JoinTwice(p, q, m, pieces);
    assert ReplaceAll(s, f, m) == Join(Split(s, f), m);
  }

  /** The pieces of a text holding a pattern twice in a row, its first character nowhere else. */
  lemma {:induction false} SplitTwice(p: string, f: string, q: string, tail: string, s: string)
    requires |f| > 0 && Lacks(p, f[0]) && Lacks(q, f[0])
    requires tail == f + q && s == p + f + f + q
    ensures Split(s, f) == [p, [], q]
  {
    CutBeforePattern(p, f, tail, s);
    CutBeforePattern([], f, q, tail);
    NoOccurrenceWithout(q, f);
    SplitWithout(q, f);
    ChainCuts2(Split(s, f), Split(tail, f), Split(q, f), p, q);
  }

  /** A text made of a head without the pattern's first character, the pattern and a rest is cut after the head. */
  lemma CutBeforePattern(p: string, f: string, rest: string, whole: string)
    requires |f| > 0 && Lacks(p, f[0])
    requires whole == p + f + rest
    ensures Split(whole, f) == [p] + Split(rest, f)
  {
    NoOccurrenceInHead(p, f, rest);
    SplitAfterHead(p, f, rest);
  }

  /** Chaining three successive cuts (a head, an empty piece, a last piece) into the list `[p, [], q]`. */
  lemma ChainCuts2(x0: seq<string>, x1: seq<string>, x2: seq<string>, p: string, q: string)
    requires x0 == [p] + x1 && x1 == [[]] + x2 && x2 == [q]
    ensures x0 == [p, [], q]
  {
  }

  /** Joining the pieces of a pattern written twice in a row puts the replacement twice in a row. */
  lemma {:induction false} JoinTwice(p: string, q: string, m: string, pieces: seq<string>)
    requires pieces == [p, [], q]
    ensures Join(pieces, m) == p + m + m + q
  {
    JoinCons([], [q], m);
    assert [[]] + [q] == [[], q];
    JoinCons(p, [[], q], m);
    assert [p] + [[], q] == pieces;
    assert [] + m + q == m + q;
    assert p + m + (m + q) == p + m + m + q;
  }

  /** The characters of `p + f + q` are those of `p`, then `f`, then `q`. */
  lemma Middle(p: string, f: string, q: string)
    ensures var s := p + f + q;
            && |s| == |p| + |f| + |q|
            && (forall k :: 0 <= k < |p| ==> s[k] == p[k])
            && (forall k :: 0 <= k < |f| ==> s[|p| + k] == f[k])
            && (forall k :: 0 <= k < |q| ==> s[|p| + |f| + k] == q[k])
            && s[|p|..|p| + |f|] == f
  {
  }

  // ---------------------------------------------------------------------------
  // One fenced code block between two runs of prose
  // ---------------------------------------------------------------------------

  /** The fenced block as it appears in a message: a fence, the tag, a newline, the body, a fence. */
  function Fenced(tag: string, body: string): string {
    "```" + tag + "\n" + body + "```"
  }

  /** Where the parts of a fenced block sit. */
  lemma {:induction false} FencedShape(tag: string, body: string)
    ensures var f := Fenced(tag, body);
            && |f| == |tag| + |body| + 7
            && f[0] == '`' && f[1] == '`' && f[2] == '`'
            && f[3..3 + |tag|] == tag
            && f[3 + |tag|] == '\n'
            && f[4 + |tag|..4 + |tag| + |body|] == body
            && f[4 + |tag| + |body|] == '`' && f[5 + |tag| + |body|] == '`' && f[6 + |tag| + |body|] == '`'
  {
    var f := Fenced(tag, body);
    var t := "```" + tag;
    var u := t + "\n" + body;
    assert f == u + "```";
    assert f[..|u|] == u;
    assert u[..|t|] == t;
    assert f[3..3 + |tag|] == u[3..3 + |tag|] == t[3..] == tag;
    assert f[4 + |tag|..4 + |tag| + |body|] == u[4 + |tag|..] == body;
  }

  /** The match the code pattern makes on a fenced block starting at index `a`. */
  function FencedMatch(a: nat, tag: string, body: string): CodeMatch {
    CodeMatch(a, a + 3 + |tag|, a + 4 + |tag| + |body|)
  }

  /** A text that holds `f` at index `a` has the character `f[k]` at `a + k`. */
  lemma SliceChar(s: string, a: nat, f: string, k: nat)
    requires a + |f| <= |s| && s[a..a + |f|] == f
    requires k < |f|
    ensures s[a + k] == f[k]
  {
    assert s[a..a + |f|][k] == s[a + k];
  }

  /** A text that holds `f` at index `a` holds each slice of `f` at the matching place. */
  lemma SubSlice(s: string, a: nat, f: string, i: nat, j: nat)
    requires a + |f| <= |s| && s[a..a + |f|] == f
    requires i <= j <= |f|
    ensures s[a + i..a + j] == f[i..j]
  {
    forall k | 0 <= k < j - i ensures s[a + i..a + j][k] == f[i..j][k] {
      assert s[a..a + |f|][i + k] == s[a + i + k];
    }
  }

  /** Where the parts of a fenced block sit in a text that holds it at index `a`. */
  lemma {:induction false} FencedAt(s: string, a: nat, tag: string, body: string)
    requires a + |Fenced(tag, body)| <= |s| && s[a..a + |Fenced(tag, body)|] == Fenced(tag, body)
    ensures var m := FencedMatch(a, tag, body);
            && CodeInBounds(s, m)
            && m.End() == a + |Fenced(tag, body)|
            && FenceAt(s, m.start) && s[m.tagEnd] == '\n' && FenceAt(s, m.bodyEnd)
            && CodeText(s, m) == Fenced(tag, body)
            && CodeTag(s, m) == tag
            && CodeBody(s, m) == body
  {
    var f := Fenced(tag, body);
    FencedShape(tag, body);
    var t, b := 3 + |tag|, 4 + |tag| + |body|;
    SliceChar(s, a, f, 0);
    SliceChar(s, a, f, 1);
    SliceChar(s, a, f, 2);
    SliceChar(s, a, f, t);
    SliceChar(s, a, f, b);
    SliceChar(s, a, f, b + 1);
    SliceChar(s, a, f, b + 2);
    SubSlice(s, a, f, 3, t);
    SubSlice(s, a, f, t + 1, b);
  }

  /** A fenced block whose tag is a word and whose body holds no backtick is one code match. */
  lemma {:induction false} FencedIsCodeMatch(s: string, a: nat, tag: string, body: string)
    requires a + |Fenced(tag, body)| <= |s| && s[a..a + |Fenced(tag, body)|] == Fenced(tag, body)
    requires forall k :: 0 <= k < |tag| ==> IsWordChar(tag[k])
    requires Lacks(body, '`')
    ensures IsCodeMatch(s, FencedMatch(a, tag, body))
    ensures FencedMatch(a, tag, body).End() == a + |Fenced(tag, body)|
  {
    var m := FencedMatch(a, tag, body);
    FencedAt(s, a, tag, body);
    forall k | m.start + 3 <= k < m.tagEnd ensures IsWordChar(s[k]) {
      assert s[k] == CodeTag(s, m)[k - m.start - 3];
    }
    forall k | m.tagEnd + 1 <= k < m.bodyEnd ensures !FenceAt(s, k) {
      assert s[k] == CodeBody(s, m)[k - m.tagEnd - 1];
    }
  }

  /** A message of prose, one fenced block and prose yields exactly that one code match. */
  lemma FencedOnlyCodeMatch(p: string, tag: string, body: string, q: string)
    requires Lacks(p, '`') && Lacks(body, '`') && Lacks(q, '`')
    requires forall k :: 0 <= k < |tag| ==> IsWordChar(tag[k])
    ensures FindCodeMatches(p + Fenced(tag, body) + q, 0) == [FencedMatch(|p|, tag, body)]
  {
    var f := Fenced(tag, body);
    var s := p + f + q;
    var m := FencedMatch(|p|, tag, body);
    Middle(p, f, q);
    FencedIsCodeMatch(s, |p|, tag, body);
    SkipCodeScan(s, 0, |p|);
    assert CodeMatchAt(s, |p|) == Some(m);
    SkipCodeScan(s, m.End(), |s|);
  }

  /** A marker holds no character that is neither in its prefix, nor `_`, nor a digit. */
  lemma MarkerLacks(prefix: string, n: nat, c: char)
    requires Lacks(prefix, c) && c != '_' && !IsDigit(c)
    ensures Lacks(Marker(prefix, n), c)
  {
    MarkerShape(prefix, n);
    Middle(Delimiter, prefix + Decimal(n), Delimiter);
    Middle(prefix, Decimal(n), []);
  }

  /** Storing one value under the marker numbered `next`. */
  lemma StoreOne<V>(blocks: map<string, V>, value: V, prefix: string, next: nat)
    ensures StoreEach(blocks, [value], prefix, next) == blocks[Marker(prefix, next) := value]
  {
    var r := StoreEach(blocks, [value], prefix, next);
    assert Markers(prefix, next, 1) == {Marker(prefix, next)} by {
      MarkersStep(prefix, next, 1);
    }
    assert r[Marker(prefix, next + 0)] == value;
  }

  /**
   The code pass on prose, one fenced block and prose: the block is replaced
   by the marker numbered `next` and stored, stripped, with its language.
   */
  lemma CodePassFenced(p: string, tag: string, body: string, q: string, codeBlocks: map<string, CodeBlock>, next: nat)
    requires Lacks(p, '`') && Lacks(body, '`') && Lacks(q, '`')
    requires forall k :: 0 <= k < |tag| ==> IsWordChar(tag[k])
    ensures CodePass(p + Fenced(tag, body) + q, codeBlocks, next)
         == Pass(p + CodeMarker(next) + q, codeBlocks[CodeMarker(next) := CodeBlock(Strip(body), Language(tag))], 1)
  {
    var f := Fenced(tag, body);
    var s := p + f + q;
    var m := FencedMatch(|p|, tag, body);
    FencedOnlyCodeMatch(p, tag, body, q);
    Middle(p, f, q);
    FencedAt(s, |p|, tag, body);
    assert CodeTexts(s, [m]) == [f];
    assert CodeFragments(s, [m]) == [CodeBlock(Strip(body), Language(tag))];
    ReplaceOnly(p, f, q, CodeMarker(next));
    assert ReplaceEach(s, [f], CodePrefix, next) == p + CodeMarker(next) + q by {
      assert [f][1..] == [];
    }
    StoreOne(codeBlocks, CodeBlock(Strip(body), Language(tag)), CodePrefix, next);
  }

  /** A fence without a language tag is stored with the default language, `python`. */
  lemma UntaggedFenceIsPython(p: string, body: string, q: string, codeBlocks: map<string, CodeBlock>, next: nat)
    requires Lacks(p, '`') && Lacks(body, '`') && Lacks(q, '`')
    ensures var r := CodePass(p + Fenced("", body) + q, codeBlocks, next);
            && CodeMarker(next) in r.blocks
            && r.blocks[CodeMarker(next)] == CodeBlock(Strip(body), "python")
  {
    CodePassFenced(p, "", body, q, codeBlocks, next);
  }

  /** The code pass substitutes the matched texts and stores the fragments, numbering from `next`. */
  lemma CodePassUnfold(content: string, codeBlocks: map<string, CodeBlock>, next: nat)
    ensures var ms := FindCodeMatches(content, 0);
            CodePass(content, codeBlocks, next)
              == Pass(ReplaceEach(content, CodeTexts(content, ms), CodePrefix, next),
                      StoreEach(codeBlocks, CodeFragments(content, ms), CodePrefix, next),
                      |ms|)
  {
  }

  /** A text built around a marker lacks what its prose and the marker lack. */
  lemma MarkedLacks(p: string, prefix: string, n: nat, q: string, c: char)
    requires Lacks(p, c) && Lacks(q, c)
    requires Lacks(prefix, c) && c != '_' && !IsDigit(c)
    ensures Lacks(p + Marker(prefix, n) + q, c)
  {
    MarkerLacks(prefix, n, c);
    Middle(p, Marker(prefix, n), q);
  }

  /** `ProcessContent` is the code pass followed by the math pass on its text, numbered after the code markers. */
  lemma {:induction false} ProcessContentOfPasses(
    content: string,
    codeBlocks: map<string, CodeBlock>,
    latexBlocks: map<string, string>,
    next: nat)
    ensures var code := CodePass(content, codeBlocks, next);
            var latex := LatexPass(code.text, latexBlocks, next + code.count);
            ProcessContent(content, codeBlocks, latexBlocks, next)
              == Processed(latex.text, code.blocks, latex.blocks, next + code.count + latex.count)
  {
  }

  /** Prose around a marker, without a dollar, leaves the math pass with nothing to do. */
  lemma {:induction false} LatexPassAroundMarker(
    p: string,
    prefix: string,
    n: nat,
    q: string,
    latexBlocks: map<string, string>,
    next: nat)
    requires prefix == CodePrefix || prefix == LatexPrefix
    requires Lacks(p, '$') && Lacks(q, '$')
    ensures var text := p + Marker(prefix, n) + q;
            LatexPass(text, latexBlocks, next) == Pass(text, latexBlocks, 0)
  {
    var text := p + Marker(prefix, n) + q;
    assert Lacks(prefix, '$');
    MarkedLacks(p, prefix, n, q, '$');
    SkipLatexScan(text, 0, |text|);
    LatexPassWithoutMatches(text, latexBlocks, next);
  }

  /**
   Segmenting prose, one fenced code block and prose: the block is cut out
   under the next code marker and stored stripped with its language, and the
   math map is left alone.
   */
  lemma {:induction false} SegmentFenced(
    p: string,
    tag: string,
    body: string,
    q: string,
    codeBlocks: map<string, CodeBlock>,
    latexBlocks: map<string, string>,
    next: nat)
    requires Lacks(p, '`') && Lacks(body, '`') && Lacks(q, '`')
    requires Lacks(p, '$') && Lacks(q, '$')
    requires forall k :: 0 <= k < |tag| ==> IsWordChar(tag[k])
    ensures ProcessContent(p + Fenced(tag, body) + q, codeBlocks, latexBlocks, next)
         == Processed(p + CodeMarker(next) + q,
                      codeBlocks[CodeMarker(next) := CodeBlock(Strip(body), Language(tag))],
                      latexBlocks,
                      next + 1)
  {
    CodePassFenced(p, tag, body, q, codeBlocks, next);
    LatexPassAroundMarker(p, CodePrefix, next, q, latexBlocks, next + 1);
    ProcessContentOfPasses(p + Fenced(tag, body) + q, codeBlocks, latexBlocks, next);
  }

  /**
   A message of prose, one fenced code block and prose is rendered as the
   prose, the code with its language, and the prose again.
   */
  lemma CodeRoundTrip(
    p: string,
    tag: string,
    body: string,
    q: string,
    codeBlocks: map<string, CodeBlock>,
    latexBlocks: map<string, string>,
    next: nat)
    requires Lacks(p, '`') && Lacks(body, '`') && Lacks(q, '`')
    requires Lacks(p, '$') && Lacks(q, '$')
    requires forall k :: 0 <= k < |tag| ==> IsWordChar(tag[k])
    requires ProseBeforeMarker(p) && Prose(q)
    ensures var r := ProcessContent(p + Fenced(tag, body) + q, codeBlocks, latexBlocks, next);
            Render(r.text, r.codeBlocks, r.latexBlocks)
              == Rendered(ProseOf(p) + [ShowCode(Strip(body), Language(tag))] + ProseOf(q), None)
  {
    var block := CodeBlock(Strip(body), Language(tag));
    SegmentFenced(p, tag, body, q, codeBlocks, latexBlocks, next);
    RenderAroundMarker(p, CodePrefix, next, q, codeBlocks[CodeMarker(next) := block], latexBlocks);
  }

  // ---------------------------------------------------------------------------
  // The same fenced block twice: every copy goes to the first marker
  // ---------------------------------------------------------------------------

  /** The code scan at a fenced block finds that block, then goes on right after it. */
  lemma {:induction false} ScanAtFenced(s: string, a: nat, e: nat, tag: string, body: string)
    requires e == a + |Fenced(tag, body)| && e <= |s| && s[a..e] == Fenced(tag, body)
    requires Lacks(body, '`')
    requires forall k :: 0 <= k < |tag| ==> IsWordChar(tag[k])
    ensures FindCodeMatches(s, a) == [FencedMatch(a, tag, body)] + FindCodeMatches(s, e)
  {
    FencedIsCodeMatch(s, a, tag, body);
    assert CodeMatchAt(s, a) == Some(FencedMatch(a, tag, body));
  }

  /** The code scan skips a stretch without backticks. */
  lemma SkipCodeSlice(s: string, i: nat, j: nat)
    requires i <= j <= |s| && Lacks(s[i..j], '`')
    ensures FindCodeMatches(s, i) == FindCodeMatches(s, j)
  {
    forall k | i <= k < j ensures s[k] != '`' {
      assert s[k] == s[i..j][k - i];
    }
    SkipCodeScan(s, i, j);
  }

  /** The code scan finds nothing in a tail without backticks. */
  lemma NoCodeInTail(s: string, i: nat)
    requires i <= |s| && Lacks(s[i..], '`')
    ensures FindCodeMatches(s, i) == []
  {
    assert s[i..|s|] == s[i..];
    SkipCodeSlice(s, i, |s|);
  }

  /**
   A text holding the same fenced block twice in a row, from `a` to `b` and
   from `b` to `c`, with no backtick elsewhere, yields two code matches, one
   per copy.
   */
  lemma {:induction false} TwoFencedMatches(s: string, a: nat, b: nat, c: nat, tag: string, body: string)
    requires b == a + |Fenced(tag, body)| && c == b + |Fenced(tag, body)| && c <= |s|
    requires s[a..b] == Fenced(tag, body) && s[b..c] == Fenced(tag, body)
    requires Lacks(s[..a], '`') && Lacks(s[c..], '`')
    requires Lacks(body, '`')
    requires forall k :: 0 <= k < |tag| ==> IsWordChar(tag[k])
    ensures FindCodeMatches(s, 0) == [FencedMatch(a, tag, body), FencedMatch(b, tag, body)]
  {
    assert s[0..a] == s[..a];
    SkipCodeSlice(s, 0, a);
    ScanAtFenced(s, a, b, tag, body);
    ScanAtFenced(s, b, c, tag, body);
    NoCodeInTail(s, c);
    ChainTwo(FindCodeMatches(s, 0), FindCodeMatches(s, a), FindCodeMatches(s, b), FindCodeMatches(s, c), FencedMatch(a, tag, body), FencedMatch(b, tag, body));
  }

  /** Two scan steps that each find one match, then nothing: the scan finds exactly those two. */
  lemma ChainTwo<T>(x0: seq<T>, x1: seq<T>, x2: seq<T>, x3: seq<T>, m0: T, m1: T)
    requires x0 == x1 && x1 == [m0] + x2 && x2 == [m1] + x3 && x3 == []
    ensures x0 == [m0, m1]
  {
    assert [m1] + [] == [m1];
  }

  /** Where the parts of `p + f + f + q` sit. */
  lemma {:induction false} RepeatedSlices(p: string, f: string, q: string)
    ensures var s := p + f + f + q;
            && |s| == |p| + |f| + |f| + |q|
            && s[..|p|] == p
            && s[|p|..|p| + |f|] == f
            && s[|p| + |f|..|p| + |f| + |f|] == f
            && s[|p| + |f| + |f|..] == q
  {
    var u := p + f;
    var s := u + f + q;
    assert s[..|u|] == u;
    assert s[..|p|] == u[..|p|] == p;
    assert s[|p|..|p| + |f|] == u[|p|..] == f;
    assert s[|u|..|u| + |f|] == f;
    assert s[|u| + |f|..] == q;
  }

  /** A message of prose, the same fenced block twice and prose yields two code matches, one per copy. */
  lemma {:induction false} RepeatedFencedMatches(p: string, tag: string, body: string, q: string)
    requires Lacks(p, '`') && Lacks(body, '`') && Lacks(q, '`')
    requires forall k :: 0 <= k < |tag| ==> IsWordChar(tag[k])
    ensures var f := Fenced(tag, body);
            FindCodeMatches(p + f + f + q, 0) == [FencedMatch(|p|, tag, body), FencedMatch(|p| + |f|, tag, body)]
  {
    var f := Fenced(tag, body);
    var s := p + f + f + q;
    var a: nat := |p|;
    var b: nat := a + |f|;
    var c: nat := b + |f|;
    RepeatedSlices(p, f, q);
    assert s[..a] == p && s[a..b] == f && s[b..c] == f && s[c..] == q;
    TwoFencedMatches(s, a, b, c, tag, body);
  }

  /** Storing two values under the markers numbered `next` and `next + 1`. */
  lemma StoreTwo<V>(blocks: map<string, V>, a: V, b: V, prefix: string, next: nat)
    ensures StoreEach(blocks, [a, b], prefix, next) == blocks[Marker(prefix, next) := a][Marker(prefix, next + 1) := b]
  {
    var r := StoreEach(blocks, [a, b], prefix, next);
    MarkersStep(prefix, next, 2);
    MarkersStep(prefix, next + 1, 1);
    assert Markers(prefix, next + 2, 0) == {};
    assert r[Marker(prefix, next + 0)] == a;
    assert r[Marker(prefix, next + 1)] == b;
  }

  /** The text of prose, a code marker twice and prose lacks what its prose and the marker lack. */
  lemma TwiceMarkedLacks(p: string, n: nat, q: string, c: char)
    requires Lacks(p, c) && Lacks(q, c)
    requires Lacks(CodePrefix, c) && c != '_' && !IsDigit(c)
    ensures Lacks(CodeMarker(n) + q, c)
    ensures Lacks(p + CodeMarker(n) + CodeMarker(n) + q, c)
  {
    MarkedLacks([], CodePrefix, n, q, c);
    assert [] + CodeMarker(n) + q == CodeMarker(n) + q;
    MarkedLacks(p, CodePrefix, n, CodeMarker(n) + q, c);
    assert p + CodeMarker(n) + (CodeMarker(n) + q) == p + CodeMarker(n) + CodeMarker(n) + q;
  }

  /** The matched texts and stored fragments of a block held twice in a row at index `a`. */
  lemma {:induction false} TwoFencedTexts(s: string, a: nat, b: nat, c: nat, tag: string, body: string)
    requires b == a + |Fenced(tag, body)| && c == b + |Fenced(tag, body)| && c <= |s|
    requires s[a..b] == Fenced(tag, body) && s[b..c] == Fenced(tag, body)
    ensures var ms := [FencedMatch(a, tag, body), FencedMatch(b, tag, body)];
            && CodeInBounds(s, ms[0]) && CodeInBounds(s, ms[1])
            && CodeTexts(s, ms) == [Fenced(tag, body), Fenced(tag, body)]
            && CodeFragments(s, ms) == [CodeBlock(Strip(body), Language(tag)), CodeBlock(Strip(body), Language(tag))]
  {
    FencedAt(s, a, tag, body);
    FencedAt(s, b, tag, body);
  }

  /**
   Substituting the two matched texts of a repeated block: the first
   replacement turns both copies into the first marker, and the second finds
   nothing left to replace.
   */
  lemma {:induction false} ReplaceEachRepeated(p: string, f: string, q: string, next: nat)
    requires |f| > 0 && f[0] == '`' && Lacks(p, '`') && Lacks(q, '`')
    ensures ReplaceEach(p + f + f + q, [f, f], CodePrefix, next) == p + CodeMarker(next) + CodeMarker(next) + q
  {
    var s := p + f + f + q;
    var once := p + CodeMarker(next) + CodeMarker(next) + q;
    assert ReplaceEach(once, [f], CodePrefix, next + 1) == once by {
      TwiceMarkedLacks(p, next, q, '`');
      NoOccurrenceWithout(once, f);
      assert ReplaceAll(once, f, Marker(CodePrefix, next + 1)) == once;
      assert [f][1..] == [];
    }
    assert ReplaceAll(s, f, Marker(CodePrefix, next)) == once by {
      ReplaceTwice(p, f, q, CodeMarker(next));
    }
    assert [f, f][1..] == [f];
  }

  /**
   The replace-all quirk on the code pass: both copies of a repeated block
   become the first marker, since replacing the first match's text rewrites
   every copy of it; the second match is still stored, under the second
   marker, which the text never mentions.
   */
  lemma {:induction false} CodePassRepeated(p: string, tag: string, body: string, q: string, codeBlocks: map<string, CodeBlock>, next: nat)
    requires Lacks(p, '`') && Lacks(body, '`') && Lacks(q, '`')
    requires forall k :: 0 <= k < |tag| ==> IsWordChar(tag[k])
    ensures var f := Fenced(tag, body);
            var b := CodeBlock(Strip(body), Language(tag));
            CodePass(p + f + f + q, codeBlocks, next)
              == Pass(p + CodeMarker(next) + CodeMarker(next) + q, codeBlocks[CodeMarker(next) := b][CodeMarker(next + 1) := b], 2)
  {
    var f := Fenced(tag, body);
    var s := p + f + f + q;
    var blk := CodeBlock(Strip(body), Language(tag));
    var a: nat := |p|;
    var b: nat := a + |f|;
    var c: nat := b + |f|;
    var ms := [FencedMatch(a, tag, body), FencedMatch(b, tag, body)];
    RepeatedFencedMatches(p, tag, body, q);
    assert FindCodeMatches(s, 0) == ms;
    RepeatedSlices(p, f, q);
    assert s[a..b] == f && s[b..c] == f;
    TwoFencedTexts(s, a, b, c, tag, body);
    FencedShape(tag, body);
    ReplaceEachRepeated(p, f, q, next);
    StoreTwo(codeBlocks, blk, blk, CodePrefix, next);
    CodePassUnfold(s, codeBlocks, next);
  }

  /**
   Segmenting prose, the same fenced block twice and prose: the text holds the
   first marker twice, and the code map stores the block under both markers.
   */
  lemma {:induction false} SegmentRepeated(
    p: string,
    tag: string,
    body: string,
    q: string,
    codeBlocks: map<string, CodeBlock>,
    latexBlocks: map<string, string>,
    next: nat)
    requires Lacks(p, '`') && Lacks(body, '`') && Lacks(q, '`')
    requires Lacks(p, '$') && Lacks(q, '$')
    requires forall k :: 0 <= k < |tag| ==> IsWordChar(tag[k])
    ensures var f := Fenced(tag, body);
            var b := CodeBlock(Strip(body), Language(tag));
            ProcessContent(p + f + f + q, codeBlocks, latexBlocks, next)
              == Processed(p + CodeMarker(next) + CodeMarker(next) + q,
                           codeBlocks[CodeMarker(next) := b][CodeMarker(next + 1) := b],
                           latexBlocks,
                           next + 2)
  {
    var f := Fenced(tag, body);
    var s := p + f + f + q;
    var m := CodeMarker(next);
    var text := p + m + m + q;
    var blk := CodeBlock(Strip(body), Language(tag));
    var code := Pass(text, codeBlocks[m := blk][CodeMarker(next + 1) := blk], 2);
    LatexPassAroundTwoMarkers(p, next, q, latexBlocks, next + 2);
    CodePassRepeated(p, tag, body, q, codeBlocks, next);
    assert CodePass(s, codeBlocks, next) == code;
    ProcessContentOfPasses(s, codeBlocks, latexBlocks, next);
  }

  /** Prose around a code marker written twice, without a dollar, leaves the math pass with nothing to do. */
  lemma LatexPassAroundTwoMarkers(p: string, n: nat, q: string, latexBlocks: map<string, string>, next: nat)
    requires Lacks(p, '$') && Lacks(q, '$')
    ensures var text := p + CodeMarker(n) + CodeMarker(n) + q;
            LatexPass(text, latexBlocks, next) == Pass(text, latexBlocks, 0)
  {
    var m := CodeMarker(n);
    assert Lacks(CodePrefix, '$');
    TwiceMarkedLacks(p, n, q, '$');
    LatexPassAroundMarker(p, CodePrefix, n, m + q, latexBlocks, next);
    assert p + m + (m + q) == p + m + m + q;
  }

  /** Cutting prose, a marker twice and prose at the delimiter: the marker body appears twice, with an empty piece between. */
  lemma {:induction false} SplitAroundMarkerTwice(p: string, n: nat, q: string)
    requires !Contains(p, Delimiter) && (p != [] ==> p[|p| - 1] != '_')
    requires !Contains(q, Delimiter)
    ensures var body := CodePrefix + Decimal(n);
            Split(p + CodeMarker(n) + CodeMarker(n) + q, Delimiter) == [p, body, [], body, q]
  {
    var body := CodePrefix + Decimal(n);
    MarkerBodyPlain(CodePrefix, n);
    MarkerShape(CodePrefix, n);
    var r3 := body + Delimiter + q;
    var r2 := Delimiter + r3;
    var r1 := body + Delimiter + r2;
    var r0 := p + Delimiter + r1;
    TwoMarkersRegrouped(p, body, CodeMarker(n), q);
    assert [] + Delimiter + r3 == r2;
    CutAtFirstDelimiter(body, q, r3);
    CutAtFirstDelimiter([], r3, r2);
    CutAtFirstDelimiter(body, r2, r1);
    CutAtFirstDelimiter(p, r1, r0);
    SplitWithout(q, Delimiter);
    ChainCuts(Split(r0, Delimiter), Split(r1, Delimiter), Split(r2, Delimiter), Split(r3, Delimiter), Split(q, Delimiter), p, body, q);
  }

  /** `SplitAtFirstDelimiter` with the whole text named, so that callers can refer to it by name. */
  lemma CutAtFirstDelimiter(p: string, rest: string, whole: string)
    requires whole == p + Delimiter + rest
    requires !Contains(p, Delimiter) && (p != [] ==> p[|p| - 1] != '_')
    ensures Split(whole, Delimiter) == [p] + Split(rest, Delimiter)
  {
    SplitAtFirstDelimiter(p, rest);
  }

  /** Four cuts in a row, the marker body, an empty piece, the marker body again, then the last piece. */
  lemma ChainCuts(x0: seq<string>, x1: seq<string>, x2: seq<string>, x3: seq<string>, x4: seq<string>, p: string, body: string, q: string)
    requires x0 == [p] + x1 && x1 == [body] + x2 && x2 == [[]] + x3 && x3 == [body] + x4 && x4 == [q]
    ensures x0 == [p, body, [], body, q]
  {
  }

  /** Regrouping prose, a marker twice and prose so that each delimiter in turn stands first: the grouping the successive cuts see. */
  lemma TwoMarkersRegrouped(p: string, body: string, m: string, q: string)
    requires m == Delimiter + body + Delimiter
    ensures p + m + m + q == p + Delimiter + (body + Delimiter + (Delimiter + (body + Delimiter + q)))
  {
  }

  /** A non-failing first piece ahead of the rest, with the whole list named. */
  lemma RenderCons(x: string, rest: seq<string>, whole: seq<string>, codeBlocks: map<string, CodeBlock>, latexBlocks: map<string, string>)
    requires whole == [x] + rest
    requires !RenderPart(x, codeBlocks, latexBlocks).Missing?
    ensures var r := RenderParts(rest, codeBlocks, latexBlocks);
            RenderParts(whole, codeBlocks, latexBlocks)
              == Rendered(StepShown(RenderPart(x, codeBlocks, latexBlocks)) + r.shown, r.missing)
  {
    RenderFirst(x, rest, codeBlocks, latexBlocks);
  }

  /**
   Rendering prose, a code marker written twice and prose: the stored block is
   shown twice, between the two runs of prose.
   */
  lemma {:induction false} RenderTwiceMarked(
    p: string,
    n: nat,
    q: string,
    codeBlocks: map<string, CodeBlock>,
    latexBlocks: map<string, string>)
    requires ProseBeforeMarker(p) && Prose(q)
    requires CodeMarker(n) in codeBlocks
    ensures var b := codeBlocks[CodeMarker(n)];
            var shown := ShowCode(b.code, b.language);
            Render(p + CodeMarker(n) + CodeMarker(n) + q, codeBlocks, latexBlocks)
              == Rendered(ProseOf(p) + [shown, shown] + ProseOf(q), None)
  {
    var text := p + CodeMarker(n) + CodeMarker(n) + q;
    var body := CodePrefix + Decimal(n);
    var b := codeBlocks[CodeMarker(n)];
    var shown := ShowCode(b.code, b.language);
    SplitAroundMarkerTwice(p, n, q);
    assert Render(text, codeBlocks, latexBlocks) == RenderParts([p, body, [], body, q], codeBlocks, latexBlocks);
    MarkerShape(CodePrefix, n);
    assert KeyOf(body) == CodeMarker(n);
    assert StartsWith(body, CodePrefix);
    assert RenderPart(body, codeBlocks, latexBlocks) == Emit(shown);
    RenderPieceTwice(p, body, q, shown, codeBlocks, latexBlocks);
  }

  /** Prose, a piece shown as `shown`, an empty piece, the same piece again and prose. */
  lemma {:induction false} RenderPieceTwice(
    p: string,
    body: string,
    q: string,
    shown: Instruction,
    codeBlocks: map<string, CodeBlock>,
    latexBlocks: map<string, string>)
    requires Prose(p) && Prose(q)
    requires RenderPart(body, codeBlocks, latexBlocks) == Emit(shown)
    ensures RenderParts([p, body, [], body, q], codeBlocks, latexBlocks)
         == Rendered(ProseOf(p) + [shown, shown] + ProseOf(q), None)
  {
    assert RenderPart([], codeBlocks, latexBlocks) == Skip;
    ProseStep(p, codeBlocks, latexBlocks);
    ProseStep(q, codeBlocks, latexBlocks);
    var l4: seq<string> := [q];
    var l3 := [body] + l4;
    var l2 := [[]] + l3;
    var l1 := [body] + l2;
    var l0 := [p] + l1;
    assert l0 == [p, body, [], body, q];
    RenderLast(q, codeBlocks, latexBlocks);
    RenderCons(body, l4, l3, codeBlocks, latexBlocks);
    RenderCons([], l3, l2, codeBlocks, latexBlocks);
    RenderCons(body, l2, l1, codeBlocks, latexBlocks);
    RenderCons(p, l1, l0, codeBlocks, latexBlocks);
    Regroup2(ProseOf(p), shown, ProseOf(q));
  }

  /** Flattening the nested concatenation that rendering five pieces builds, the middle one empty: `a`, `x` twice, then `b`. */
  lemma Regroup2<T>(a: seq<T>, x: T, b: seq<T>)
    ensures a + ([x] + ([] + ([x] + b))) == a + [x, x] + b
  {
  }

  /**
   The repeated block is shown twice, both times through the first marker;
   the entry stored under the second marker is never looked up.
   */
  lemma {:induction false} RepeatedRoundTrip(
    p: string,
    tag: string,
    body: string,
    q: string,
    codeBlocks: map<string, CodeBlock>,
    latexBlocks: map<string, string>,
    next: nat)
    requires Lacks(p, '`') && Lacks(body, '`') && Lacks(q, '`')
    requires Lacks(p, '$') && Lacks(q, '$')
    requires forall k :: 0 <= k < |tag| ==> IsWordChar(tag[k])
    requires ProseBeforeMarker(p) && Prose(q)
    ensures var f := Fenced(tag, body);
            var r := ProcessContent(p + f + f + q, codeBlocks, latexBlocks, next);
            var shown := ShowCode(Strip(body), Language(tag));
            && CodeMarker(next + 1) in r.codeBlocks
            && CodePrefix + Decimal(next + 1) !in Split(r.text, Delimiter)
            && Render(r.text, r.codeBlocks, r.latexBlocks) == Rendered(ProseOf(p) + [shown, shown] + ProseOf(q), None)
  {
    var f := Fenced(tag, body);
    var b := CodeBlock(Strip(body), Language(tag));
    var blocks := codeBlocks[CodeMarker(next) := b][CodeMarker(next + 1) := b];
    assert CodeMarker(next) != CodeMarker(next + 1) by {
      MarkerInjective(CodePrefix, next, next + 1);
    }
    assert blocks[CodeMarker(next)] == b;
    SecondMarkerUnused(p, next, q);
    RenderTwiceMarked(p, next, q, blocks, latexBlocks);
    SegmentRepeated(p, tag, body, q, codeBlocks, latexBlocks, next);
  }

  /** The text of prose and a code marker written twice never mentions the following marker. */
  lemma SecondMarkerUnused(p: string, n: nat, q: string)
    requires ProseBeforeMarker(p) && Prose(q)
    ensures CodePrefix + Decimal(n + 1) !in Split(p + CodeMarker(n) + CodeMarker(n) + q, Delimiter)
  {
    var first, second := CodePrefix + Decimal(n), CodePrefix + Decimal(n + 1);
    assert first != second by {
      MarkerInjective(CodePrefix, n, n + 1);
      MarkerShape(CodePrefix, n);
      MarkerShape(CodePrefix, n + 1);
    }
    assert StartsWith(second, CodePrefix);
    SplitAroundMarkerTwice(p, n, q);
  }

  // ---------------------------------------------------------------------------
  // One inline formula between two runs of prose
  // ---------------------------------------------------------------------------

  /** An inline formula as it appears in a message: the body between two dollars. */
  function Dollared(body: string): string {
    "$" + body + "$"
  }

  /** Where the parts of a formula sit. */
  lemma DollaredShape(body: string)
    ensures var d := Dollared(body);
            && |d| == |body| + 2
            && d[0] == '$' && d[|body| + 1] == '$'
            && (forall k :: 0 <= k < |body| ==> d[1 + k] == body[k])
  {
  }

  /** The match the math pattern makes on a formula placed after `p`. */
  function DollaredMatch(p: string, body: string): LatexMatch {
    LatexMatch(|p|, |p| + 1 + |body|)
  }

  /** A formula whose body holds neither a dollar nor a newline is one math match. */
  lemma {:induction false} DollaredChars(p: string, body: string, q: string)
    ensures var s := p + Dollared(body) + q;
            && |s| == |p| + |body| + 2 + |q|
            && s[|p|] == '$' && s[|p| + 1 + |body|] == '$'
            && (forall k :: 0 <= k < |body| ==> s[|p| + 1 + k] == body[k])
            && s[|p|..|p| + |body| + 2] == Dollared(body)
  {
    Middle(p, Dollared(body), q);
    DollaredShape(body);
  }

  lemma {:induction false} DollaredIsLatexMatch(p: string, body: string, q: string)
    requires Lacks(body, '$') && Lacks(body, '\n')
    ensures var s := p + Dollared(body) + q;
            var m := DollaredMatch(p, body);
            && IsLatexMatch(s, m)
            && m.End() == |p| + |Dollared(body)|
            && LatexText(s, m) == Dollared(body)
            && LatexBody(s, m) == body
  {
    var s := p + Dollared(body) + q;
    var m := DollaredMatch(p, body);
    DollaredChars(p, body, q);
    forall k | m.start < k < m.bodyEnd ensures s[k] != '$' && s[k] != '\n' {
      var j := k - |p| - 1;
      assert s[|p| + 1 + j] == body[j];
    }
    assert LatexBody(s, m) == body;
  }

  /** A message of prose, one formula and prose yields exactly that one math match. */
  lemma DollaredOnlyLatexMatch(p: string, body: string, q: string)
    requires Lacks(p, '$') && Lacks(body, '$') && Lacks(q, '$') && Lacks(body, '\n')
    ensures FindLatexMatches(p + Dollared(body) + q, 0) == [DollaredMatch(p, body)]
  {
    var d := Dollared(body);
    var s := p + d + q;
    var m := DollaredMatch(p, body);
    Middle(p, d, q);
    DollaredIsLatexMatch(p, body, q);
    SkipLatexScan(s, 0, |p|);
    assert LatexMatchAt(s, |p|) == Some(m);
    SkipLatexScan(s, m.End(), |s|);
  }

  /** A message of prose, one formula and prose holds no backtick when none of its parts does. */
  lemma DollaredLacksBacktick(p: string, body: string, q: string)
    requires Lacks(p, '`') && Lacks(body, '`') && Lacks(q, '`')
    ensures Lacks(p + Dollared(body) + q, '`')
  {
    Middle(p, Dollared(body), q);
    DollaredShape(body);
  }

  /** The code pass has nothing to do on prose, one formula and prose without backticks. */
  lemma {:induction false} CodePassDollared(p: string, body: string, q: string, codeBlocks: map<string, CodeBlock>, next: nat)
    requires Lacks(p, '`') && Lacks(body, '`') && Lacks(q, '`')
    ensures var content := p + Dollared(body) + q;
            CodePass(content, codeBlocks, next) == Pass(content, codeBlocks, 0)
  {
    var content := p + Dollared(body) + q;
    DollaredLacksBacktick(p, body, q);
    SkipCodeScan(content, 0, |content|);
    CodePassWithoutMatches(content, codeBlocks, next);
  }

  /**
   The math pass on prose, one formula and prose: the formula is replaced by
   the marker numbered `next` and its body stored as is.
   */
  lemma LatexPassDollared(p: string, body: string, q: string, latexBlocks: map<string, string>, next: nat)
    requires Lacks(p, '$') && Lacks(body, '$') && Lacks(q, '$') && Lacks(body, '\n')
    ensures LatexPass(p + Dollared(body) + q, latexBlocks, next)
         == Pass(p + LatexMarker(next) + q, latexBlocks[LatexMarker(next) := body], 1)
  {
    var d := Dollared(body);
    var s := p + d + q;
    var m := DollaredMatch(p, body);
    DollaredOnlyLatexMatch(p, body, q);
    DollaredIsLatexMatch(p, body, q);
    assert LatexTexts(s, [m]) == [d];
    assert LatexBodies(s, [m]) == [body];
    ReplaceOnly(p, d, q, LatexMarker(next));
    assert ReplaceEach(s, [d], LatexPrefix, next) == p + LatexMarker(next) + q by {
      assert [d][1..] == [];
    }
    StoreOne(latexBlocks, body, LatexPrefix, next);
  }

  /**
   Segmenting prose, one formula and prose: the formula is cut out under the
   next math marker with its body stored unstripped, and the code map is left
   alone.
   */
  lemma {:induction false} SegmentDollared(
    p: string,
    body: string,
    q: string,
    codeBlocks: map<string, CodeBlock>,
    latexBlocks: map<string, string>,
    next: nat)
    requires Lacks(p, '`') && Lacks(body, '`') && Lacks(q, '`')
    requires Lacks(p, '$') && Lacks(body, '$') && Lacks(q, '$') && Lacks(body, '\n')
    ensures ProcessContent(p + Dollared(body) + q, codeBlocks, latexBlocks, next)
         == Processed(p + LatexMarker(next) + q, codeBlocks, latexBlocks[LatexMarker(next) := body], next + 1)
  {
    var content := p + Dollared(body) + q;
    CodePassDollared(p, body, q, codeBlocks, next);
    LatexPassDollared(p, body, q, latexBlocks, next);
    ProcessContentOfPasses(content, codeBlocks, latexBlocks, next);
  }

  /**
   A message of prose, one formula and prose is rendered as the prose, the
   formula, and the prose again.
   */
  lemma LatexRoundTrip(
    p: string,
    body: string,
    q: string,
    codeBlocks: map<string, CodeBlock>,
    latexBlocks: map<string, string>,
    next: nat)
    requires Lacks(p, '`') && Lacks(body, '`') && Lacks(q, '`')
    requires Lacks(p, '$') && Lacks(body, '$') && Lacks(q, '$') && Lacks(body, '\n')
    requires ProseBeforeMarker(p) && Prose(q)
    ensures var r := ProcessContent(p + Dollared(body) + q, codeBlocks, latexBlocks, next);
            Render(r.text, r.codeBlocks, r.latexBlocks) == Rendered(ProseOf(p) + [ShowLatex(body)] + ProseOf(q), None)
  {
    SegmentDollared(p, body, q, codeBlocks, latexBlocks, next);
    RenderAroundMarker(p, LatexPrefix, next, q, codeBlocks, latexBlocks[LatexMarker(next) := body]);
  }
}
