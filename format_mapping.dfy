/** How one legacy paragraph and its character runs become XWPF paragraphs and
    runs: the alignment switch, the underline, size and colour expressions, the
    blank-run filter, and the whole range mapped in order. These functions are
    the specification the conversion loop is proved against. */
module FormatMapping {
  import opened Wrappers
  import opened JavaLang
  import opened Documents

  /** `convertAlignment`: codes 1 to 4 name left, centre, right and justified;
      every other code falls back to left. */
  function ConvertAlignment(justification: int32): (a: Alignment)
    ensures a == Center <==> justification == 2
    ensures a == Right <==> justification == 3
    ensures a == Both <==> justification == 4
    ensures a == Left <==> !(2 <= justification <= 4)
  {
    match justification
    case 1 => Left
    case 2 => Center
    case 3 => Right
    case 4 => Both
    case _ => Left
  }

  /** Any non-zero legacy underline code becomes a single underline. */
  function UnderlineOf(code: int32): (u: Underline)
    ensures u == Single <==> code != 0
  {
    if code != 0 then Single else NoUnderline
  }

  /** The colour written on a run: none for -1, otherwise `%06X` of the value,
      which reads back as the colour's unsigned 32-bit value and is zero-padded
      to six digits and no further. */
  function ColorOf(color: int32): (hex: Option<string>)
    ensures hex == None <==> color == -1
    ensures hex.Some? ==> 6 <= |hex.value| <= 8
    ensures hex.Some? ==> |hex.value| == 6 || hex.value[0] != '0'
    ensures hex.Some? ==>
      && (forall i :: 0 <= i < |hex.value| ==> IsUpperHexDigit(hex.value[i]))
      && HexValue(hex.value) == Unsigned32(color)
  {
    FormatHex06RoundTrip(color);
    if color != -1 then Some(FormatHex06(color)) else None
  }

  /** `text.trim().length() > 0`: whether a source run produces a target run. */
  predicate KeepsRun(run: SourceRun) {
    !IsBlank(run.text)
  }

  /** The target run written for a kept source run: text, bold, italic and font
      copied; underline, size and colour converted. */
  function TargetRunOf(run: SourceRun): (t: TargetRun)
    ensures t.text == run.text && t.bold == run.bold && t.italic == run.italic
    ensures t.fontFamily == Some(run.fontName)
    ensures t.underline == Single <==> run.underlineCode != 0
    ensures t.fontSize.Some?
    ensures run.halfPointSize >= 0 ==> 0 <= run.halfPointSize as int - 2 * t.fontSize.value as int <= 1
    ensures run.halfPointSize < 0 ==> -1 <= run.halfPointSize as int - 2 * t.fontSize.value as int <= 0
    ensures t.color == ColorOf(run.color)
    ensures t.color == None <==> run.color == -1
    ensures t.color.Some? ==>
      && (forall i :: 0 <= i < |t.color.value| ==> IsUpperHexDigit(t.color.value[i]))
      && HexValue(t.color.value) == Unsigned32(run.color)
      && 6 <= |t.color.value| <= 8
      && (|t.color.value| == 6 || t.color.value[0] != '0')
  {
    TargetRun(
      text := run.text,
      bold := run.bold,
      italic := run.italic,
      underline := UnderlineOf(run.underlineCode),
      fontSize := Some(HalfTruncated(run.halfPointSize)),
      fontFamily := Some(run.fontName),
      color := ColorOf(run.color))
  }

  /** What one source run contributes: its target run if it is kept, else nothing. */
  function Emitted(run: SourceRun): (ts: seq<TargetRun>)
    ensures |ts| <= 1
  {
    if KeepsRun(run) then [TargetRunOf(run)] else []
  }

  /** The target runs of a paragraph: one per kept source run, in source order. */
  function TargetRunsOf(runs: seq<SourceRun>): (ts: seq<TargetRun>)
    ensures |ts| <= |runs|
  {
    if runs == [] then []
    else TargetRunsOf(runs[..|runs| - 1]) + Emitted(runs[|runs| - 1])
  }

  /** The paragraph properties set before any run is added. */
  function ParagraphShell(p: SourceParagraph): (t: TargetParagraph)
    ensures t.runs == []
  {
    TargetParagraph(
      alignment := Some(ConvertAlignment(p.justification)),
      spacingBefore := Some(p.spacingBefore),
      spacingAfter := Some(p.spacingAfter),
      runs := [])
  }

  /** The target paragraph for one source paragraph. */
  function TargetParagraphOf(p: SourceParagraph): (t: TargetParagraph)
    ensures t.alignment == Some(ConvertAlignment(p.justification))
    ensures t.spacingBefore == Some(p.spacingBefore) && t.spacingAfter == Some(p.spacingAfter)
    ensures |t.runs| <= |p.runs|
  {
    ParagraphShell(p).(runs := TargetRunsOf(p.runs))
  }

  /** The target body for a source range: one paragraph per source paragraph. */
  function TargetParagraphsOf(ps: seq<SourceParagraph>): (ts: seq<TargetParagraph>)
    ensures |ts| == |ps|
  {
    if ps == [] then []
    else TargetParagraphsOf(ps[..|ps| - 1]) + [TargetParagraphOf(ps[|ps| - 1])]
  }

  // ---------------------------------------------------------------------------
  // Lemmas

  /** The alignment switch on each of its arms, and a code outside them. */
  lemma AlignmentTable()
    ensures ConvertAlignment(0) == Left && ConvertAlignment(1) == Left
    ensures ConvertAlignment(2) == Center && ConvertAlignment(3) == Right
    ensures ConvertAlignment(4) == Both && ConvertAlignment(5) == Left
    ensures ConvertAlignment(-1) == Left
  {
  }

  /** Font sizes are halved with truncation: 24 and 25 half-points are both 12 points. */
  lemma FontSizeExamples()
    ensures HalfTruncated(24) == 12 && HalfTruncated(25) == 12
    ensures HalfTruncated(-25) == -12
  {
  }

  /** A pure green colour is written as "00FF00"; -1 writes nothing. */
  lemma ColorExamples()
    ensures ColorOf(0x00FF00) == Some("00FF00")
    ensures ColorOf(-1) == None
  {
    assert HexDigits(0xF) == "F";
    assert HexDigits(0xFF) == "FF";
    assert HexDigits(0xFF0) == "FF0";
    assert HexDigits(0xFF00) == "FF00";
    assert Zeros(2) == "00" by {
      assert Zeros(1) == "0";
    }
    assert Unsigned32(0x00FF00) == 0xFF00;
    assert FormatHex06(0x00FF00) == Zeros(2) + "FF00" == "00FF00";
    assert ColorOf(0x00FF00) == Some(FormatHex06(0x00FF00));
  }

  /** Runs are mapped one at a time: mapping two stretches of runs gives the
      two stretches of target runs one after the other. */
  lemma {:induction false} TargetRunsOfAppend(a: seq<SourceRun>, b: seq<SourceRun>)
    ensures TargetRunsOf(a + b) == TargetRunsOf(a) + TargetRunsOf(b)
    decreases |b|
  {
    if b == [] {
      assert a + b == a;
    } else {
      var b', last := b[..|b| - 1], b[|b| - 1];
      assert b == b' + [last];
      assert a + b == (a + b') + [last];
      TargetRunsOfSnoc(a + b', last);
      TargetRunsOfSnoc(b', last);
      TargetRunsOfAppend(a, b');
      var x, y, z := TargetRunsOf(a), TargetRunsOf(b'), Emitted(last);
      assert x + y + z == x + (y + z);
    }
  }

  /** Mapping one more run of a paragraph appends what that run emits. */
  lemma TargetRunsOfPrefix(runs: seq<SourceRun>, j: nat)
    requires j < |runs|
    ensures TargetRunsOf(runs[..j + 1]) == TargetRunsOf(runs[..j]) + Emitted(runs[j])
  {
    assert runs[..j + 1][..j] == runs[..j];
  }

  /** Appending one source run appends what that run emits. */
  lemma TargetRunsOfSnoc(runs: seq<SourceRun>, run: SourceRun)
    ensures TargetRunsOf(runs + [run]) == TargetRunsOf(runs) + Emitted(run)
  {
    assert (runs + [run])[..|runs|] == runs;
  }

  /** A single run adds no target run when its trimmed text is empty, and
      exactly its own converted run otherwise. */
  lemma TargetRunsOfSingle(run: SourceRun)
    ensures TargetRunsOf([run]) == if KeepsRun(run) then [TargetRunOf(run)] else []
  {
    assert [run][..0] == [];
  }

  /** Blank runs may be inserted anywhere without changing the output. */
  lemma BlankRunAddsNothing(a: seq<SourceRun>, run: SourceRun, b: seq<SourceRun>)
    requires !KeepsRun(run)
    ensures TargetRunsOf(a + [run] + b) == TargetRunsOf(a + b)
  {
    TargetRunsOfAppend(a + [run], b);
    TargetRunsOfAppend(a, [run]);
    TargetRunsOfSingle(run);
    TargetRunsOfAppend(a, b);
  }

  /** The number of source runs whose trimmed text is not empty. */
  function KeptCount(runs: seq<SourceRun>): nat {
    if runs == [] then 0
    else KeptCount(runs[..|runs| - 1]) + (if KeepsRun(runs[|runs| - 1]) then 1 else 0)
  }

  /** Each kept run gives exactly one target run and each blank run none. */
  lemma {:induction false} TargetRunsOfCount(runs: seq<SourceRun>)
    ensures |TargetRunsOf(runs)| == KeptCount(runs)
  {
    if runs != [] {
      TargetRunsOfCount(runs[..|runs| - 1]);
    }
  }

  /** Paragraphs map one to one and in order: the i-th target paragraph is
      the mapping of the i-th source paragraph. */
  lemma {:induction false} TargetParagraphsOfAt(ps: seq<SourceParagraph>, i: nat)
    requires i < |ps|
    ensures TargetParagraphsOf(ps)[i] == TargetParagraphOf(ps[i])
    ensures TargetParagraphsOf(ps)[i].alignment == Some(ConvertAlignment(ps[i].justification))
    ensures TargetParagraphsOf(ps)[i].spacingBefore == Some(ps[i].spacingBefore)
    ensures TargetParagraphsOf(ps)[i].spacingAfter == Some(ps[i].spacingAfter)
    ensures TargetParagraphsOf(ps)[i].runs == TargetRunsOf(ps[i].runs)
  {
    if i < |ps| - 1 {
      TargetParagraphsOfAt(ps[..|ps| - 1], i);
    }
  }

  /** A range made of two stretches maps to the two stretches' bodies in turn. */
  lemma {:induction false} TargetParagraphsOfAppend(a: seq<SourceParagraph>, b: seq<SourceParagraph>)
    ensures TargetParagraphsOf(a + b) == TargetParagraphsOf(a) + TargetParagraphsOf(b)
    decreases |b|
  {
    if b == [] {
      assert a + b == a;
    } else {
      var b', last := b[..|b| - 1], b[|b| - 1];
      assert b == b' + [last];
      assert a + b == (a + b') + [last];
      TargetParagraphsOfSnoc(a + b', last);
      TargetParagraphsOfSnoc(b', last);
      TargetParagraphsOfAppend(a, b');
      var x, y, z := TargetParagraphsOf(a), TargetParagraphsOf(b'), [TargetParagraphOf(last)];
      assert x + y + z == x + (y + z);
    }
  }

  /** Mapping one more paragraph of a range appends its target paragraph. */
  lemma TargetParagraphsOfPrefix(ps: seq<SourceParagraph>, i: nat)
    requires i < |ps|
    ensures TargetParagraphsOf(ps[..i + 1]) == TargetParagraphsOf(ps[..i]) + [TargetParagraphOf(ps[i])]
  {
    assert ps[..i + 1][..i] == ps[..i];
  }

  /** Appending one source paragraph appends its target paragraph. */
  lemma TargetParagraphsOfSnoc(ps: seq<SourceParagraph>, p: SourceParagraph)
    ensures TargetParagraphsOf(ps + [p]) == TargetParagraphsOf(ps) + [TargetParagraphOf(p)]
  {
    assert (ps + [p])[..|ps|] == ps;
  }

  /** One centred paragraph holding the bold run "Hello" at 24 half-points with
      no colour becomes one centred paragraph with one bold 12-point run "Hello"
      and no colour. */
  lemma HelloScenario()
    ensures
      var run := SourceRun("Hello", true, false, 0, 24, "Arial", -1);
      var out := TargetParagraphsOf([SourceParagraph(2, 0, 0, [run])]);
      && |out| == 1
      && out[0].alignment == Some(Center)
      && out[0].runs == [TargetRun("Hello", true, false, NoUnderline, Some(12), Some("Arial"), None)]
  {
    var run := SourceRun("Hello", true, false, 0, 24, "Arial", -1);
    assert KeepsRun(run);
    TargetRunsOfSingle(run);
  }
}
