/**
 The renderer (`render_message`): the processed text is cut at every `__`
 and each piece becomes one display instruction, looked up in the fragment
 maps when it names a marker.

 Display is not modelled; the renderer returns the instructions it would
 issue. A piece that names a marker absent from its map makes the
 application raise `KeyError`; the model returns the instructions issued
 before that point together with the missing key.
 */
module Renderer {
  import opened Optional
  import opened Text
  import opened Segmenter

  /** One display call: `st.code`, `st.latex` or `st.markdown`. */
  datatype Instruction =
    | ShowCode(code: string, language: string)
    | ShowLatex(latex: string)
    | ShowMarkdown(text: string)

  /** What one piece asks for: an instruction, nothing (an empty piece), or a key that is not in its map. */
  datatype Step = Emit(instruction: Instruction) | Skip | Missing(key: string)

  /** The instructions issued, and the key whose lookup failed, if one did. */
  datatype Rendered = Rendered(shown: seq<Instruction>, missing: Option<string>)

  /** The map key a piece is looked up under: the piece wrapped in the delimiter again. */
  function KeyOf(part: string): string {
    Delimiter + part + Delimiter
  }

  predicate IsCodePart(part: string) {
    StartsWith(part, CodePrefix)
  }

  predicate IsLatexPart(part: string) {
    StartsWith(part, LatexPrefix)
  }

  /** No piece is both a code piece and a math piece. */
  lemma CodePartNotLatexPart(part: string)
    ensures !(IsCodePart(part) && IsLatexPart(part))
  {
    if IsCodePart(part) {
      assert part[0] == part[..|CodePrefix|][0] == 'C';
    }
  }

  /** The dispatch of one piece (the body of the loop in `render_message`). */
  function RenderPart(part: string, codeBlocks: map<string, CodeBlock>, latexBlocks: map<string, string>): (r: Step)
    ensures r.Skip? <==> part == []
    ensures r.Missing? ==> r.key == KeyOf(part) && (IsCodePart(part) || IsLatexPart(part))
  {
    if IsCodePart(part) then
      var key := KeyOf(part);
      if key in codeBlocks then Emit(ShowCode(codeBlocks[key].code, codeBlocks[key].language)) else Missing(key)
    else if IsLatexPart(part) then
      var key := KeyOf(part);
      if key in latexBlocks then Emit(ShowLatex(latexBlocks[key])) else Missing(key)
    else if part != [] then
      Emit(ShowMarkdown(part))
    else
      Skip
  }

  /**
   What one piece shows: a code piece shows the stored code with its
   language, a math piece shows the stored body, a non-empty other piece is
   shown as markdown, an empty piece shows nothing, and a marker piece whose
   key is absent from its map fails with that key.
   */
  lemma RenderPartDispatch(part: string, codeBlocks: map<string, CodeBlock>, latexBlocks: map<string, string>)
    ensures var s := RenderPart(part, codeBlocks, latexBlocks);
            && (s.Skip? <==> part == [])
            && (s.Missing? <==>
                  || (IsCodePart(part) && KeyOf(part) !in codeBlocks)
                  || (IsLatexPart(part) && KeyOf(part) !in latexBlocks))
            && (s.Missing? ==> s.key == KeyOf(part))
            && ((s.Emit? && s.instruction.ShowCode?) <==> IsCodePart(part) && KeyOf(part) in codeBlocks)
            && (s.Emit? && s.instruction.ShowCode? ==>
                  codeBlocks[KeyOf(part)] == CodeBlock(s.instruction.code, s.instruction.language))
            && ((s.Emit? && s.instruction.ShowLatex?) <==> IsLatexPart(part) && KeyOf(part) in latexBlocks)
            && (s.Emit? && s.instruction.ShowLatex? ==> latexBlocks[KeyOf(part)] == s.instruction.latex)
            && ((s.Emit? && s.instruction.ShowMarkdown?) <==> part != [] && !IsCodePart(part) && !IsLatexPart(part))
            && (s.Emit? && s.instruction.ShowMarkdown? ==> s.instruction.text == part)
  {
    CodePartNotLatexPart(part);
  }

  /** The instructions a step issues. */
  function StepShown(step: Step): seq<Instruction> {
    if step.Emit? then [step.instruction] else []
  }

  /** One step ahead of the rendering of the rest: a failure stops, anything else is prepended. */
  function Then(step: Step, rest: Rendered): Rendered {
    if step.Missing? then Rendered([], Some(step.key))
    else Rendered(StepShown(step) + rest.shown, rest.missing)
  }

  /** The number of non-empty pieces. */
  function NonEmptyCount(parts: seq<string>): (n: nat)
    ensures n <= |parts|
  {
    if parts == [] then 0
    else (if parts[0] == [] then 0 else 1) + NonEmptyCount(parts[1..])
  }

  /** Some piece of `parts` names a marker missing from its map. */
  predicate AnyMissing(parts: seq<string>, codeBlocks: map<string, CodeBlock>, latexBlocks: map<string, string>) {
    exists i :: 0 <= i < |parts| && RenderPart(parts[i], codeBlocks, latexBlocks).Missing?
  }

  /** The pieces dispatched in order, stopping at the first piece whose key is missing. */
  function RenderParts(parts: seq<string>, codeBlocks: map<string, CodeBlock>, latexBlocks: map<string, string>): (r: Rendered)
    ensures |r.shown| <= |parts|
    decreases |parts|
  {
    if parts == [] then Rendered([], None)
    else
      Then(RenderPart(parts[0], codeBlocks, latexBlocks), RenderParts(parts[1..], codeBlocks, latexBlocks))
  }

  lemma AnyMissingCons(parts: seq<string>, codeBlocks: map<string, CodeBlock>, latexBlocks: map<string, string>)
    requires parts != []
    ensures AnyMissing(parts, codeBlocks, latexBlocks) <==>
              RenderPart(parts[0], codeBlocks, latexBlocks).Missing? || AnyMissing(parts[1..], codeBlocks, latexBlocks)
  {
    if AnyMissing(parts[1..], codeBlocks, latexBlocks) {
      var i :| 0 <= i < |parts[1..]| && RenderPart(parts[1..][i], codeBlocks, latexBlocks).Missing?;
      assert parts[i + 1] == parts[1..][i];
    }
    if AnyMissing(parts, codeBlocks, latexBlocks) && !RenderPart(parts[0], codeBlocks, latexBlocks).Missing? {
      var i :| 0 <= i < |parts| && RenderPart(parts[i], codeBlocks, latexBlocks).Missing?;
      assert parts[1..][i - 1] == parts[i];
    }
  }

  /**
   Rendering fails exactly when some piece names a missing key, and then it
   reports the key of the first such piece.
   */
  lemma {:induction false} RenderPartsMissing(parts: seq<string>, codeBlocks: map<string, CodeBlock>, latexBlocks: map<string, string>)
    ensures var r := RenderParts(parts, codeBlocks, latexBlocks);
            r.missing.None? <==> !AnyMissing(parts, codeBlocks, latexBlocks)
    ensures var r := RenderParts(parts, codeBlocks, latexBlocks);
            r.missing.Some? ==>
              exists i :: 0 <= i < |parts|
                && RenderPart(parts[i], codeBlocks, latexBlocks) == Missing(r.missing.value)
                && !AnyMissing(parts[..i], codeBlocks, latexBlocks)
    decreases |parts|
  {
    if parts != [] {
      var r := RenderParts(parts, codeBlocks, latexBlocks);
      var rest := RenderParts(parts[1..], codeBlocks, latexBlocks);
      RenderPartsMissing(parts[1..], codeBlocks, latexBlocks);
      AnyMissingCons(parts, codeBlocks, latexBlocks);
      if r.missing.Some? {
        if RenderPart(parts[0], codeBlocks, latexBlocks).Missing? {
          assert parts[..0] == [];
        } else {
          var i :| 0 <= i < |parts[1..]|
            && RenderPart(parts[1..][i], codeBlocks, latexBlocks) == Missing(rest.missing.value)
            && !AnyMissing(parts[1..][..i], codeBlocks, latexBlocks);
          assert parts[i + 1] == parts[1..][i];
          var before := parts[..i + 1];
          assert !AnyMissing(before, codeBlocks, latexBlocks) by {
            forall j | 0 <= j < |before|
              ensures !RenderPart(before[j], codeBlocks, latexBlocks).Missing?
            {
              if j > 0 {
                assert before[j] == parts[1..][..i][j - 1];
              }
            }
          }
        }
      }
    }
  }

  /** When every key resolves, exactly one instruction is issued per non-empty piece. */
  lemma {:induction false} RenderPartsCount(parts: seq<string>, codeBlocks: map<string, CodeBlock>, latexBlocks: map<string, string>)
    ensures var r := RenderParts(parts, codeBlocks, latexBlocks);
            r.missing.None? ==> |r.shown| == NonEmptyCount(parts)
    decreases |parts|
  {
    if parts != [] {
      RenderPartsCount(parts[1..], codeBlocks, latexBlocks);
    }
  }

  /**
   Rendering is compositional: when the first pieces resolve, rendering a
   concatenation issues their instructions followed by those of the rest.
   */
  lemma {:induction false} RenderPartsAppend(
    a: seq<string>,
    b: seq<string>,
    codeBlocks: map<string, CodeBlock>,
    latexBlocks: map<string, string>)
    requires RenderParts(a, codeBlocks, latexBlocks).missing.None?
    ensures RenderParts(a + b, codeBlocks, latexBlocks)
         == Rendered(RenderParts(a, codeBlocks, latexBlocks).shown + RenderParts(b, codeBlocks, latexBlocks).shown,
                     RenderParts(b, codeBlocks, latexBlocks).missing)
    decreases |a|
  {
    if a == [] {
      assert a + b == b;
    } else {
      assert (a + b)[1..] == a[1..] + b;
      assert (a + b)[0] == a[0];
      RenderPartsAppend(a[1..], b, codeBlocks, latexBlocks);
      ThenAppend(RenderPart(a[0], codeBlocks, latexBlocks), RenderParts(a[1..], codeBlocks, latexBlocks), RenderParts(b, codeBlocks, latexBlocks));
    }
  }

  lemma ThenAppend(step: Step, ra: Rendered, rb: Rendered)
    requires Then(step, ra).missing.None?
    ensures Then(step, Rendered(ra.shown + rb.shown, rb.missing)) == Rendered(Then(step, ra).shown + rb.shown, rb.missing)
  {
    if !step.Missing? {
      assert StepShown(step) + (ra.shown + rb.shown) == (StepShown(step) + ra.shown) + rb.shown;
    }
  }

  /** `render_message`: cut the text at every delimiter and dispatch the pieces in order. */
  function Render(content: string, codeBlocks: map<string, CodeBlock>, latexBlocks: map<string, string>): (r: Rendered)
    ensures !Contains(content, Delimiter) ==> r == RenderParts([content], codeBlocks, latexBlocks)
    ensures r.missing.None? ==> |r.shown| <= |Split(content, Delimiter)|
  {
    assert !Contains(content, Delimiter) ==> Split(content, Delimiter) == [content] by {
      if !Contains(content, Delimiter) {
        SplitWithout(content, Delimiter);
      }
    }
    RenderParts(Split(content, Delimiter), codeBlocks, latexBlocks)
  }
}
