/** `DocConverterService.convertDocToDocx`: validate the base64 payload, decode
    it, parse it as a legacy document, copy every paragraph and run into a new
    XWPF document, serialise and re-encode it, and re-raise decoding and
    processing failures with fixed message prefixes. The base64 codec, the HWPF
    parser and the XWPF writer are library code and are passed in. */
module DocConverterService {
  import opened Wrappers
  import opened JavaLang
  import opened JavaRegex
  import opened Documents
  import opened FormatMapping

  newtype byte = b: int | 0 <= b < 0x100

  /** The exceptions that reach `convertDocToDocx`, by the catch clause that
      applies to them; `Unchecked` is any other runtime exception, which no
      clause catches. A Java message may be `null`. */
  datatype JavaException =
    | IllegalArgument(message: Option<string>)
    | IOFailure(message: Option<string>)
    | Unchecked(message: Option<string>)

  /** The library code the service calls and this model does not look into. */
  datatype Collaborators = Collaborators(
    /** `Base64.getDecoder().decode`, which throws an IllegalArgumentException. */
    decode: string -> Result<seq<byte>, Option<string>>,
    /** `new HWPFDocument(stream).getRange()`: the paragraphs, or the exception thrown. */
    parse: seq<byte> -> Result<seq<SourceParagraph>, JavaException>,
    /** `docx.write(stream)` of the finished body. */
    write: seq<TargetParagraph> -> Result<seq<byte>, JavaException>,
    /** `Base64.getEncoder().encodeToString`. */
    encode: seq<byte> -> string
  )

  const NullOrEmptyMessage := "Base64 input cannot be null or empty"
  const InvalidFormatMessage := "Invalid base64 format"
  const DecodePrefix := "Failed to decode base64 content: "
  const ProcessPrefix := "Failed to process document: "

  /** What string concatenation makes of `e.getMessage()`: `null` prints as "null". */
  function MessageText(m: Option<string>): string {
    match m
    case None => "null"
    case Some(s) => s
  }

  // ---------------------------------------------------------------------------
  // Payload validation

  /** The validation prefix exactly as written: the whitespace is only removed
      when `payload.matches(".*\\s+.*")` holds. A payload is accepted exactly
      when it is present, not blank, of base64 shape once its whitespace is
      gone, and either the guard fires or there is no whitespace to remove. */
  function ValidatePayloadAsWritten(base64Doc: Option<string>): (r: Result<string, JavaException>)
    ensures r.Ok? <==>
      && base64Doc.Some? && !IsBlank(base64Doc.value)
      && Base64Shaped(StripSpaces(base64Doc.value))
      && (MatchesSpaceRun(base64Doc.value) || !HasRegexSpace(base64Doc.value))
    ensures r.Ok? ==> r.value == StripSpaces(base64Doc.value)
    ensures r == Err(IllegalArgument(Some(NullOrEmptyMessage))) <==> base64Doc.None? || IsBlank(base64Doc.value)
    ensures r.Err? && !(base64Doc.None? || IsBlank(base64Doc.value)) ==>
      r == Err(IllegalArgument(Some(InvalidFormatMessage)))
    ensures r.Ok? ==> MatchesBase64Pattern(r.value) && |r.value| > 0
    ensures r.Err? ==> r.error.IllegalArgument?
  {
    if base64Doc.None? || IsBlank(base64Doc.value) then
      Err(IllegalArgument(Some(NullOrEmptyMessage)))
    else
      var payload := if MatchesSpaceRun(base64Doc.value) then StripSpaces(base64Doc.value) else base64Doc.value;
      NonBlankSurvivesStripping(base64Doc.value);
      SpaceRunHasSpace(base64Doc.value);
      StripSpacesKeeps(base64Doc.value);
      Base64PatternIff(StripSpaces(base64Doc.value));
      SpaceDefeatsBase64Pattern(base64Doc.value);
      if !MatchesBase64Pattern(payload) then Err(IllegalArgument(Some(InvalidFormatMessage)))
      else Ok(payload)
  }

  /** The validation prefix with the guard doing what it is meant to: all
      whitespace is removed whenever there is any. A payload is accepted exactly
      when it is present, not blank, and of base64 shape once its whitespace is
      gone; what is accepted is that whitespace-free text. */
  function ValidatePayload(base64Doc: Option<string>): (r: Result<string, JavaException>)
    ensures r.Ok? <==> base64Doc.Some? && !IsBlank(base64Doc.value) && Base64Shaped(StripSpaces(base64Doc.value))
    ensures r == Err(IllegalArgument(Some(NullOrEmptyMessage))) <==> base64Doc.None? || IsBlank(base64Doc.value)
    ensures r.Err? && !(base64Doc.None? || IsBlank(base64Doc.value)) ==>
      r == Err(IllegalArgument(Some(InvalidFormatMessage)))
    ensures r.Ok? ==> r.value == StripSpaces(base64Doc.value) && |r.value| > 0
    ensures r.Err? ==> r.error.IllegalArgument?
  {
    if base64Doc.None? || IsBlank(base64Doc.value) then
      Err(IllegalArgument(Some(NullOrEmptyMessage)))
    else
      var payload := if HasRegexSpace(base64Doc.value) then StripSpaces(base64Doc.value) else base64Doc.value;
      StripSpacesKeeps(base64Doc.value);
      NonBlankSurvivesStripping(base64Doc.value);
      Base64PatternIff(payload);
      if !MatchesBase64Pattern(payload) then Err(IllegalArgument(Some(InvalidFormatMessage)))
      else Ok(payload)
  }

  // ---------------------------------------------------------------------------
  // Error wrapping

  /** The two catch clauses: an IllegalArgumentException and an IOException are
      re-raised as the same kind with a fixed prefix before the original
      message; anything else passes through untouched. */
  function Rethrown(e: JavaException): (w: JavaException)
    ensures w.IllegalArgument? == e.IllegalArgument? && w.IOFailure? == e.IOFailure?
    ensures e.Unchecked? ==> w == e
    ensures e.IllegalArgument? ==>
      && w.message.Some? && DecodePrefix <= w.message.value
      && w.message.value[|DecodePrefix|..] == MessageText(e.message)
    ensures e.IOFailure? ==>
      && w.message.Some? && ProcessPrefix <= w.message.value
      && w.message.value[|ProcessPrefix|..] == MessageText(e.message)
  {
    match e
    case IllegalArgument(m) => IllegalArgument(Some(DecodePrefix + MessageText(m)))
    case IOFailure(m) => IOFailure(Some(ProcessPrefix + MessageText(m)))
    case Unchecked(_) => e
  }

  // ---------------------------------------------------------------------------
  // The conversion, as a specification

  /** The body of the `try` block: decode, parse, map, write, encode; the first
      exception thrown is the outcome. */
  function Translate(payload: string, lib: Collaborators): Result<string, JavaException> {
    match lib.decode(payload)
    case Err(m) => Err(IllegalArgument(m))
    case Ok(docBytes) =>
      match lib.parse(docBytes)
      case Err(e) => Err(e)
      case Ok(range) =>
        match lib.write(TargetParagraphsOf(range))
        case Err(e) => Err(e)
        case Ok(docxBytes) => Ok(lib.encode(docxBytes))
  }

  /** `convertDocToDocx` as a function of its input and of the library code. */
  function Convert(base64Doc: Option<string>, lib: Collaborators): Result<string, JavaException> {
    match ValidatePayload(base64Doc)
    case Err(e) => Err(e)
    case Ok(payload) =>
      match Translate(payload, lib)
      case Ok(out) => Ok(out)
      case Err(e) => Err(Rethrown(e))
  }

  // ---------------------------------------------------------------------------
  // The conversion, as the service runs it

  /** One pass of the inner loop: a source run whose trimmed text is not empty
      gets a new run at the end of paragraph `p`, with its properties set; a
      blank one changes nothing. */
  method AppendRun(docx: TargetDocument, p: nat, docRun: SourceRun)
    requires p < |docx.paragraphs|
    modifies docx
    ensures docx.paragraphs == AppendedRuns(old(docx.paragraphs), p, Emitted(docRun))
  {
    ghost var base := docx.paragraphs;
    var text := docRun.text;
    if |Trim(text)| > 0 {
      var r := docx.CreateRun(p);
      ghost var run := FreshRun;
      assert docx.paragraphs == AppendedRuns(base, p, [run]);
      assert run.text + text == text;
      UpdateAddedRun(base, p, run, run.(text := text));
      docx.SetText(p, r, text);
      run := run.(text := text);
      UpdateAddedRun(base, p, run, run.(bold := docRun.bold));
      docx.SetBold(p, r, docRun.bold);
      run := run.(bold := docRun.bold);
      UpdateAddedRun(base, p, run, run.(italic := docRun.italic));
      docx.SetItalic(p, r, docRun.italic);
      run := run.(italic := docRun.italic);
      var underline := if docRun.underlineCode != 0 then Single else NoUnderline;
      UpdateAddedRun(base, p, run, run.(underline := underline));
      docx.SetUnderline(p, r, underline);
      run := run.(underline := underline);
      UpdateAddedRun(base, p, run, run.(fontSize := Some(HalfTruncated(docRun.halfPointSize))));
      docx.SetFontSize(p, r, HalfTruncated(docRun.halfPointSize));
      run := run.(fontSize := Some(HalfTruncated(docRun.halfPointSize)));
      UpdateAddedRun(base, p, run, run.(fontFamily := Some(docRun.fontName)));
      docx.SetFontFamily(p, r, docRun.fontName);
      run := run.(fontFamily := Some(docRun.fontName));
      var color := docRun.color;
      if color != -1 {
        UpdateAddedRun(base, p, run, run.(color := Some(FormatHex06(color))));
        docx.SetColor(p, r, FormatHex06(color));
        run := run.(color := Some(FormatHex06(color)));
      }
      assert run == TargetRunOf(docRun);
    } else {
      assert base[p].runs + [] == base[p].runs;
    }
  }

  /** One pass of the outer loop: a new paragraph at the end of the body, its
      alignment and spacing set, then the inner loop over the source runs. */
  method AppendParagraph(docx: TargetDocument, docParagraph: SourceParagraph)
    modifies docx
    ensures docx.paragraphs == old(docx.paragraphs) + [TargetParagraphOf(docParagraph)]
  {
    ghost var before := docx.paragraphs;
    var p := docx.CreateParagraph();
    docx.SetAlignment(p, ConvertAlignment(docParagraph.justification));
    docx.SetSpacingBefore(p, docParagraph.spacingBefore);
    docx.SetSpacingAfter(p, docParagraph.spacingAfter);
    var runs := docParagraph.runs;
    var j := 0;
    assert runs[..0] == [];
    assert docx.paragraphs == before + [ParagraphShell(docParagraph)];
    while j < |runs|
      invariant 0 <= j <= |runs|
      invariant p == |before|
      invariant docx.paragraphs == before + [ParagraphShell(docParagraph).(runs := TargetRunsOf(runs[..j]))]
    {
      ghost var done := ParagraphShell(docParagraph).(runs := TargetRunsOf(runs[..j]));
      AppendRun(docx, p, runs[j]);
      AppendedRunsAtEnd(before, done, Emitted(runs[j]));
      TargetRunsOfPrefix(runs, j);
      j := j + 1;
    }
    assert runs[..|runs|] == runs;
    assert TargetParagraphOf(docParagraph) == ParagraphShell(docParagraph).(runs := TargetRunsOf(runs));
  }

  /** The mapping loops: one target paragraph per source paragraph, in order. */
  method BuildDocument(range: seq<SourceParagraph>) returns (docx: TargetDocument)
    ensures fresh(docx)
    ensures docx.paragraphs == TargetParagraphsOf(range)
  {
    docx := new TargetDocument();
    var i := 0;
    while i < |range|
      invariant 0 <= i <= |range|
      invariant docx.paragraphs == TargetParagraphsOf(range[..i])
    {
      AppendParagraph(docx, range[i]);
      TargetParagraphsOfPrefix(range, i);
      i := i + 1;
    }
    assert range[..|range|] == range;
  }

  /** `convertDocToDocx(base64Doc)`: validation outside the `try`, then the
      conversion inside it, whose failures are re-raised by `Rethrown`. The
      whitespace guard is the corrected one of `ValidatePayload`. */
  method ConvertDocToDocx(base64Doc: Option<string>, lib: Collaborators) returns (r: Result<string, JavaException>)
    ensures r == Convert(base64Doc, lib)
  {
    if base64Doc.None? || |Trim(base64Doc.value)| == 0 {
      return Err(IllegalArgument(Some(NullOrEmptyMessage)));
    }
    var payload := base64Doc.value;
    // The corrected guard: `convertDocToDocx` tests `matches(".*\\s+.*")` here
    // (line 86), which misses payloads with data between two line breaks.
    // That guard is kept in `ValidatePayloadAsWritten`; the README's
    // "Findings" section explains it.
    if HasRegexSpace(payload) {
      payload := StripSpaces(payload);
    }
    if !MatchesBase64Pattern(payload) {
      return Err(IllegalArgument(Some(InvalidFormatMessage)));
    }
    var decoded := lib.decode(payload);
    if decoded.Err? {
      return Err(Rethrown(IllegalArgument(decoded.error)));
    }
    var parsed := lib.parse(decoded.value);
    if parsed.Err? {
      return Err(Rethrown(parsed.error));
    }
    var docx := BuildDocument(parsed.value);
    var written := lib.write(docx.paragraphs);
    if written.Err? {
      return Err(Rethrown(written.error));
    }
    r := Ok(lib.encode(written.value));
  }
}
