/** The two document models the service translates between: the range of a
    parsed legacy (HWPF) document, read-only, and the XWPF document being
    built, which the conversion loop mutates through `createParagraph`,
    `createRun` and the property setters. */
module Documents {
  import opened Wrappers
  import opened JavaLang

  // ---------------------------------------------------------------------------
  // Source side: what `doc.getRange()` exposes

  /** One `CharacterRun`: the getters the service reads. */
  datatype SourceRun = SourceRun(
    text: string,            // text()
    bold: bool,              // isBold()
    italic: bool,            // isItalic()
    underlineCode: int32,    // getUnderlineCode()
    halfPointSize: int32,    // getFontSize(), in half-points
    fontName: string,        // getFontName()
    color: int32             // getColor(), -1 when no colour is given
  )

  /** One `Paragraph` of the range, with its character runs in order. */
  datatype SourceParagraph = SourceParagraph(
    justification: int32,    // getJustification()
    spacingBefore: int32,    // getSpacingBefore()
    spacingAfter: int32,     // getSpacingAfter()
    runs: seq<SourceRun>     // getCharacterRun(0 .. numCharacterRuns() - 1)
  )

  // ---------------------------------------------------------------------------
  // Target side: the XWPF document model

  /** `ParagraphAlignment`, restricted to the values the service sets. */
  datatype Alignment = Left | Center | Right | Both

  /** `UnderlinePatterns`, restricted to the values the service sets. Unlike
      the other properties there is no "never set" state: XWPF reads an unset
      underline as NONE, and the service sets the underline of every run it
      creates, so the difference never shows in its output. */
  datatype Underline = NoUnderline | Single

  /** An `XWPFRun`. A property never set reads as the XWPF default: no text,
      not bold, not italic, no underline, and no size, font or colour. */
  datatype TargetRun = TargetRun(
    text: string,
    bold: bool,
    italic: bool,
    underline: Underline,
    fontSize: Option<int32>,
    fontFamily: Option<string>,
    color: Option<string>
  )

  /** An `XWPFParagraph`; `None` stands for a property never set. */
  datatype TargetParagraph = TargetParagraph(
    alignment: Option<Alignment>,
    spacingBefore: Option<int32>,
    spacingAfter: Option<int32>,
    runs: seq<TargetRun>
  )

  /** What `createRun()` appends. */
  const FreshRun := TargetRun("", false, false, NoUnderline, None, None, None)

  /** What `createParagraph()` appends. */
  const FreshParagraph := TargetParagraph(None, None, None, [])

  /** `ps` with run `r` of paragraph `p` replaced by `run`. */
  function WithRun(ps: seq<TargetParagraph>, p: nat, r: nat, run: TargetRun): (qs: seq<TargetParagraph>)
    requires p < |ps| && r < |ps[p].runs|
    ensures |qs| == |ps| && |qs[p].runs| == |ps[p].runs|
  {
    ps[p := ps[p].(runs := ps[p].runs[r := run])]
  }

  /** `ps` with the runs `rs` added at the end of paragraph `p`. */
  function AppendedRuns(ps: seq<TargetParagraph>, p: nat, rs: seq<TargetRun>): (qs: seq<TargetParagraph>)
    requires p < |ps|
    ensures |qs| == |ps| && |qs[p].runs| == |ps[p].runs| + |rs|
  {
    ps[p := ps[p].(runs := ps[p].runs + rs)]
  }

  /** Setting a property of the run just added at the end of paragraph `p` is
      the same as having added the updated run in the first place. */
  lemma UpdateAddedRun(ps: seq<TargetParagraph>, p: nat, run: TargetRun, run': TargetRun)
    requires p < |ps|
    ensures AppendedRuns(ps, p, [run])[p].runs[|ps[p].runs|] == run
    ensures WithRun(AppendedRuns(ps, p, [run]), p, |ps[p].runs|, run') == AppendedRuns(ps, p, [run'])
  {
    assert (ps[p].runs + [run])[|ps[p].runs| := run'] == ps[p].runs + [run'];
  }

  /** Adding runs to the last paragraph of a body. */
  lemma AppendedRunsAtEnd(ps: seq<TargetParagraph>, last: TargetParagraph, rs: seq<TargetRun>)
    ensures AppendedRuns(ps + [last], |ps|, rs) == ps + [last.(runs := last.runs + rs)]
  {
  }

  /** `XWPFDocument`: the paragraphs of its body, in order. Paragraphs and runs
      are addressed by their position, the handle `createParagraph` and
      `createRun` hand back. */
  class TargetDocument {
    var paragraphs: seq<TargetParagraph>

    /** `new XWPFDocument()`: an empty body. */
    constructor ()
      ensures paragraphs == []
    {
      paragraphs := [];
    }

    /** `createParagraph()`: appends an empty paragraph at the end of the body. */
    method CreateParagraph() returns (p: nat)
      modifies this
      ensures p == |old(paragraphs)|
      ensures paragraphs == old(paragraphs) + [FreshParagraph]
    {
      p := |paragraphs|;
      paragraphs := paragraphs + [FreshParagraph];
    }

    /** `setAlignment(a)` on paragraph `p`. */
    method SetAlignment(p: nat, a: Alignment)
      requires p < |paragraphs|
      modifies this
      ensures paragraphs == old(paragraphs)[p := old(paragraphs)[p].(alignment := Some(a))]
    {
      paragraphs := paragraphs[p := paragraphs[p].(alignment := Some(a))];
    }

    /** `setSpacingBefore(v)` on paragraph `p`. */
    method SetSpacingBefore(p: nat, v: int32)
      requires p < |paragraphs|
      modifies this
      ensures paragraphs == old(paragraphs)[p := old(paragraphs)[p].(spacingBefore := Some(v))]
    {
      paragraphs := paragraphs[p := paragraphs[p].(spacingBefore := Some(v))];
    }

    /** `setSpacingAfter(v)` on paragraph `p`. */
    method SetSpacingAfter(p: nat, v: int32)
      requires p < |paragraphs|
      modifies this
      ensures paragraphs == old(paragraphs)[p := old(paragraphs)[p].(spacingAfter := Some(v))]
    {
      paragraphs := paragraphs[p := paragraphs[p].(spacingAfter := Some(v))];
    }

    /** `createRun()` on paragraph `p`: appends an empty run to that paragraph only. */
    method CreateRun(p: nat) returns (r: nat)
      requires p < |paragraphs|
      modifies this
      ensures r == |old(paragraphs)[p].runs|
      ensures paragraphs == old(paragraphs)[p := old(paragraphs)[p].(runs := old(paragraphs)[p].runs + [FreshRun])]
    {
      r := |paragraphs[p].runs|;
      paragraphs := paragraphs[p := paragraphs[p].(runs := paragraphs[p].runs + [FreshRun])];
    }

    /** `setText(t)` on run `r` of paragraph `p`: XWPF adds a new text element
      after any the run already holds, so the run's text grows by `t`. */
    method SetText(p: nat, r: nat, t: string)
      requires p < |paragraphs| && r < |paragraphs[p].runs|
      modifies this
      ensures paragraphs == WithRun(old(paragraphs), p, r,
        old(paragraphs)[p].runs[r].(text := old(paragraphs)[p].runs[r].text + t))
    {
      var run := paragraphs[p].runs[r];
      paragraphs := WithRun(paragraphs, p, r, run.(text := run.text + t));
    }

    /** `setBold(b)` on run `r` of paragraph `p`. */
    method SetBold(p: nat, r: nat, b: bool)
      requires p < |paragraphs| && r < |paragraphs[p].runs|
      modifies this
      ensures paragraphs == WithRun(old(paragraphs), p, r, old(paragraphs)[p].runs[r].(bold := b))
    {
      paragraphs := WithRun(paragraphs, p, r, paragraphs[p].runs[r].(bold := b));
    }

    /** `setItalic(b)` on run `r` of paragraph `p`. */
    method SetItalic(p: nat, r: nat, b: bool)
      requires p < |paragraphs| && r < |paragraphs[p].runs|
      modifies this
      ensures paragraphs == WithRun(old(paragraphs), p, r, old(paragraphs)[p].runs[r].(italic := b))
    {
      paragraphs := WithRun(paragraphs, p, r, paragraphs[p].runs[r].(italic := b));
    }

    /** `setUnderline(u)` on run `r` of paragraph `p`. */
    method SetUnderline(p: nat, r: nat, u: Underline)
      requires p < |paragraphs| && r < |paragraphs[p].runs|
      modifies this
      ensures paragraphs == WithRun(old(paragraphs), p, r, old(paragraphs)[p].runs[r].(underline := u))
    {
      paragraphs := WithRun(paragraphs, p, r, paragraphs[p].runs[r].(underline := u));
    }

    /** `setFontSize(points)` on run `r` of paragraph `p`. */
    method SetFontSize(p: nat, r: nat, points: int32)
      requires p < |paragraphs| && r < |paragraphs[p].runs|
      modifies this
      ensures paragraphs == WithRun(old(paragraphs), p, r, old(paragraphs)[p].runs[r].(fontSize := Some(points)))
    {
      paragraphs := WithRun(paragraphs, p, r, paragraphs[p].runs[r].(fontSize := Some(points)));
    }

    /** `setFontFamily(f)` on run `r` of paragraph `p`. */
    method SetFontFamily(p: nat, r: nat, f: string)
      requires p < |paragraphs| && r < |paragraphs[p].runs|
      modifies this
      ensures paragraphs == WithRun(old(paragraphs), p, r, old(paragraphs)[p].runs[r].(fontFamily := Some(f)))
    {
      paragraphs := WithRun(paragraphs, p, r, paragraphs[p].runs[r].(fontFamily := Some(f)));
    }

    /** `setColor(hex)` on run `r` of paragraph `p`. */
    method SetColor(p: nat, r: nat, hex: string)
      requires p < |paragraphs| && r < |paragraphs[p].runs|
      modifies this
      ensures paragraphs == WithRun(old(paragraphs), p, r, old(paragraphs)[p].runs[r].(color := Some(hex)))
    {
      paragraphs := WithRun(paragraphs, p, r, paragraphs[p].runs[r].(color := Some(hex)));
    }
  }
}
