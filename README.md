# Doc-to-docx conversion service, modelled in Dafny

This project models the Apache POI conversion path of the document-converter
service, `DocConverterService.convertDocToDocx`. The service takes a
base64-encoded legacy Word (`.doc`) document and returns a base64-encoded
`.docx` document. It works in three stages:

1. **Payload validation.** A `null` payload, or one that `String.trim()`
   leaves empty, is refused with "Base64 input cannot be null or empty".
   Then, if the payload matches `.*\s+.*`, all `\s` whitespace is removed. That
   guard fails whenever data stands between two line breaks (see "## Findings"),
   so such a payload keeps its line breaks. The result must fully match
   `^[A-Za-z0-9+/]*={0,2}$`, or it is refused with "Invalid base64 format". The
   model keeps this validation as written in `ValidatePayloadAsWritten`.
   `Convert` and `ConvertDocToDocx` use the corrected `ValidatePayload`, which
   removes whitespace whenever there is any.
2. **Format mapping.** Each paragraph of the parsed document's range becomes
   one new XWPF paragraph, in order. It gets the alignment from
   `convertAlignment` and copies of the spacing before and after. Each
   character run whose trimmed text is not empty becomes one new run. The run
   gets copies of the text, bold, italic and font name. Any non-zero
   underline code becomes a single underline. The font size is the half-point
   size divided by two, truncated. The colour, unless it is -1, is written as
   `%06X`.
3. **Error wrapping.** Inside the `try` block, an IllegalArgumentException is
   re-raised with the prefix "Failed to decode base64 content: ". An
   IOException is re-raised with the prefix "Failed to process document: ".
   Any other exception passes through unchanged.

Files:

- `wrappers.dfy` (`Wrappers`): `Option` stands for a nullable Java reference. `Result` stands for a call that returns a value or throws.
- `java_lang.dfy` (`JavaLang`): Java's 32-bit `int`, truncating `/ 2`, `String.trim()` and `String.format("%06X", int)`, with round-trip lemmas for the hex text.
- `java_regex.dfy` (`JavaRegex`): what `java.util.regex` makes of the three patterns the service uses. `.` does not match line terminators. `\s` is `[ \t\n\x0B\f\r]`.
- `documents.dfy` (`Documents`): the source paragraphs and runs as datatypes. The `XWPFDocument` under construction is a class whose `paragraphs` field is a sequence. `createParagraph`, `createRun` and the property setters are methods on that class.
- `format_mapping.dfy` (`FormatMapping`): the mapping as functions, together with the lemmas about it. The conversion loops are proved against these functions.
- `doc_converter_service.dfy` (`DocConverterService`): validation, error wrapping, the conversion loops (`BuildDocument` with `AppendParagraph` and `AppendRun`) and `ConvertDocToDocx`. `ConvertDocToDocx` is proved equal to the specification function `Convert`.
- `conversion_properties.dfy` (`ConversionProperties`): what callers see. It covers which inputs fail with which message, how failures are re-raised, what a success consists of, and the whitespace guard as written versus as intended.

The Base64 decoder and encoder, the HWPF parser (`new HWPFDocument(...)`,
`getRange()`) and the XWPF writer (`docx.write`) are library code. They are
fields of the `Collaborators` datatype that the conversion receives. The
decoder either returns bytes or fails with an IllegalArgumentException
message. The parser either returns the paragraphs of the range or fails with
some exception. The writer serialises the finished list of paragraphs.

## Model

| member | source | states |
|---|---|---|
| JavaLang.HalfTruncated | src/main/java/com/docviewer/service/DocConverterService.java:124 | `getFontSize() / 2` truncates toward zero. The result r satisfies 0 <= h - 2r <= 1 for h >= 0, and -1 <= h - 2r <= 0 for negative h. |
| JavaLang.BlankIff | src/main/java/com/docviewer/service/DocConverterService.java:82 | `trim().isEmpty()` holds exactly when every character is at most U+0020. `IsBlank` defines `trim().isEmpty()` on top of `Trim`. |
| JavaLang.TrimIsSlice | src/main/java/com/docviewer/service/DocConverterService.java:82 | `trim()` returns a slice of its input. It cuts only characters up to U+0020, and what is left neither starts nor ends with one. It characterises `Trim` (with `TrimStart` and `TrimEnd`), the model of `String.trim()` at lines 82 and 116. |
| JavaLang.FormatHex06 | src/main/java/com/docviewer/service/DocConverterService.java:129 | `String.format("%06X", color)` yields only upper-case hex digits. |
| JavaLang.FormatHex06RoundTrip | src/main/java/com/docviewer/service/DocConverterService.java:129 | The `%06X` text reads back as the colour's unsigned 32-bit value. It is 6 to 8 digits long, exactly 6 for any 24-bit colour, and zero-padded only up to six: a longer text never starts with `0`. |
| JavaLang.FormatHex06Unique | src/main/java/com/docviewer/service/DocConverterService.java:129 | Any text of upper-case hex digits that is padded to six digits and no further, and that reads back as the colour's unsigned value, is the `%06X` text. So the round-trip contract fixes the text completely. |
| JavaLang.FormatHex06Injective | src/main/java/com/docviewer/service/DocConverterService.java:129 | Two colours get the same hex text exactly when they are equal. |
| JavaRegex.StripSpaces | src/main/java/com/docviewer/service/DocConverterService.java:87 | `replaceAll("\\s+", "")` leaves no whitespace and never lengthens the string. |
| JavaRegex.StripSpacesAppend | src/main/java/com/docviewer/service/DocConverterService.java:87 | Removing whitespace distributes over concatenation. |
| JavaRegex.StripSpacesKeeps | src/main/java/com/docviewer/service/DocConverterService.java:86-88 | A payload without whitespace is left unchanged. |
| JavaRegex.StripSpacesKeepsChar | src/main/java/com/docviewer/service/DocConverterService.java:87 | Every character that is not whitespace survives stripping. |
| JavaRegex.StripSpacesIdempotent | src/main/java/com/docviewer/service/DocConverterService.java:87 | Stripping twice gives the same result as stripping once. |
| JavaRegex.StripSpacesKeepsBlankness | src/main/java/com/docviewer/service/DocConverterService.java:82-87 | Stripping keeps a payload blank or non-blank in the `trim()` sense. |
| JavaRegex.NonBlankSurvivesStripping | src/main/java/com/docviewer/service/DocConverterService.java:82-88 | A payload that passes the blank check is still non-empty after all whitespace is removed. |
| JavaRegex.SpaceRunHasSpace | src/main/java/com/docviewer/service/DocConverterService.java:86 | `matches(".*\\s+.*")` holds only if the payload contains whitespace. `MatchesSpaceRun` defines the full match of `.*\\s+.*`: a split into a part with no line terminator, a non-empty run of `\s`, and another part with no line terminator. |
| JavaRegex.SpaceRunWithoutLineBreaks | src/main/java/com/docviewer/service/DocConverterService.java:86 | With no line terminator in the payload, `matches(".*\\s+.*")` holds exactly when it contains whitespace. |
| JavaRegex.SeparatedLineBreaksDefeatGuard | src/main/java/com/docviewer/service/DocConverterService.java:86 | Two line terminators with a non-whitespace character between them make `matches(".*\\s+.*")` false. |
| JavaRegex.Base64PatternIff | src/main/java/com/docviewer/service/DocConverterService.java:19 | A full match of `^[A-Za-z0-9+/]*={0,2}$` holds exactly when every character is from the alphabet or `=`, only `=` follows an `=`, and `=` appears only in the last two positions. No length-multiple-of-four check is made. It characterises `MatchesBase64Pattern`, the full match of `BASE64_PATTERN` at lines 19 and 90. |
| JavaRegex.SpaceDefeatsBase64Pattern | src/main/java/com/docviewer/service/DocConverterService.java:86-91 | A payload that still holds whitespace never matches the base64 pattern, so leaving whitespace in means refusal. |
| JavaRegex.ForeignCharDefeatsShape | src/main/java/com/docviewer/service/DocConverterService.java:87-91 | A character that is neither whitespace, nor a base64 character, nor `=` survives stripping and makes the payload fail the base64 shape. |
| Documents.TargetDocument.constructor | src/main/java/com/docviewer/service/DocConverterService.java:101 | `new XWPFDocument()` has no paragraphs. |
| Documents.TargetDocument.CreateParagraph | src/main/java/com/docviewer/service/DocConverterService.java:106 | `createParagraph()` appends one empty paragraph at the end and returns its position. |
| Documents.TargetDocument.SetAlignment | src/main/java/com/docviewer/service/DocConverterService.java:108 | Sets the alignment of that paragraph only. |
| Documents.TargetDocument.SetSpacingBefore | src/main/java/com/docviewer/service/DocConverterService.java:109 | Sets the spacing before that paragraph only. |
| Documents.TargetDocument.SetSpacingAfter | src/main/java/com/docviewer/service/DocConverterService.java:110 | Sets the spacing after that paragraph only. |
| Documents.TargetDocument.CreateRun | src/main/java/com/docviewer/service/DocConverterService.java:117 | `createRun()` appends one empty run to that paragraph only and returns its position. |
| Documents.TargetDocument.SetText | src/main/java/com/docviewer/service/DocConverterService.java:118 | `setText` adds its text after whatever that run already holds. No other run changes. |
| Documents.TargetDocument.SetBold | src/main/java/com/docviewer/service/DocConverterService.java:120 | Sets bold on that run only. |
| Documents.TargetDocument.SetItalic | src/main/java/com/docviewer/service/DocConverterService.java:121 | Sets italic on that run only. |
| Documents.TargetDocument.SetUnderline | src/main/java/com/docviewer/service/DocConverterService.java:122-123 | Sets the underline of that run only. |
| Documents.TargetDocument.SetFontSize | src/main/java/com/docviewer/service/DocConverterService.java:124 | Sets the font size of that run only. |
| Documents.TargetDocument.SetFontFamily | src/main/java/com/docviewer/service/DocConverterService.java:125 | Sets the font family of that run only. |
| Documents.TargetDocument.SetColor | src/main/java/com/docviewer/service/DocConverterService.java:129 | Sets the colour of that run only. |
| FormatMapping.ConvertAlignment | src/main/java/com/docviewer/service/DocConverterService.java:148-156 | The switch is total. The result is CENTER iff the code is 2, RIGHT iff 3, BOTH iff 4, and LEFT for every other code, including 1. |
| FormatMapping.AlignmentTable | src/main/java/com/docviewer/service/DocConverterService.java:148-156 | Codes 0, 1, 5 and -1 map to LEFT, 2 to CENTER, 3 to RIGHT and 4 to BOTH. |
| FormatMapping.UnderlineOf | src/main/java/com/docviewer/service/DocConverterService.java:122-123 | The underline is SINGLE exactly when the code is non-zero. Otherwise it is NONE. |
| FormatMapping.FontSizeExamples | src/main/java/com/docviewer/service/DocConverterService.java:124 | 24 and 25 half-points both give 12 points. -25 gives -12. |
| FormatMapping.ColorOf | src/main/java/com/docviewer/service/DocConverterService.java:127-130 | No colour is set exactly when the code is -1. Otherwise the text is 6 to 8 upper-case hex digits that read back as the unsigned value, with zeros added only up to six. |
| FormatMapping.ColorExamples | src/main/java/com/docviewer/service/DocConverterService.java:127-130 | 0x00FF00 is written as "00FF00". -1 leaves the colour unset. |
| FormatMapping.TargetRunOf | src/main/java/com/docviewer/service/DocConverterService.java:117-130 | A kept run copies text, bold, italic and font name. The underline is SINGLE iff the code is non-zero. The size is the half-point size halved toward zero. The colour is the one `ColorOf` gives: absent iff it is -1, otherwise 6 to 8 hex digits, zero-padded only up to six, that read back as the unsigned value. |
| FormatMapping.TargetRunsOf | src/main/java/com/docviewer/service/DocConverterService.java:112-132 | A paragraph never gets more target runs than it has source runs. |
| FormatMapping.TargetRunsOfSingle | src/main/java/com/docviewer/service/DocConverterService.java:114-131 | A run whose trimmed text is empty adds nothing. Any other run adds exactly its converted run. `KeepsRun` is the test `text.trim().length() > 0` at line 116, and `Emitted` is what one pass of the inner loop adds. |
| FormatMapping.TargetRunsOfAppend | src/main/java/com/docviewer/service/DocConverterService.java:112-132 | Runs are converted one at a time in source order, so the runs of a concatenation are the two results one after the other. |
| FormatMapping.BlankRunAddsNothing | src/main/java/com/docviewer/service/DocConverterService.java:116 | Inserting a blank run anywhere leaves the output unchanged. |
| FormatMapping.TargetRunsOfCount | src/main/java/com/docviewer/service/DocConverterService.java:112-132 | The number of target runs equals the number of source runs whose trimmed text is not empty. |
| FormatMapping.TargetParagraphOf | src/main/java/com/docviewer/service/DocConverterService.java:105-110 | A target paragraph has the mapped alignment and exact copies of the spacing before and after. |
| FormatMapping.TargetParagraphsOf | src/main/java/com/docviewer/service/DocConverterService.java:104-133 | The target has exactly as many paragraphs as the source range. |
| FormatMapping.TargetParagraphsOfAt | src/main/java/com/docviewer/service/DocConverterService.java:104-110 | The i-th target paragraph comes from the i-th source paragraph. It has the mapped alignment, copied spacing, and that paragraph's runs. |
| FormatMapping.TargetParagraphsOfAppend | src/main/java/com/docviewer/service/DocConverterService.java:104-133 | Paragraphs are converted in order, so a concatenated range gives the two bodies one after the other. |
| FormatMapping.HelloScenario | src/main/java/com/docviewer/service/DocConverterService.java:104-131 | A centred paragraph with one bold 24-half-point run "Hello" and colour -1 becomes a centred paragraph with one bold 12-point run "Hello" and no colour. |
| DocConverterService.ValidatePayloadAsWritten | src/main/java/com/docviewer/service/DocConverterService.java:80-92 | Validation exactly as written (also lines 23-35 of the Jod path). A payload is accepted iff it is present and not blank, is base64-shaped once whitespace is removed, and either matches the guard `.*\\s+.*` or holds no whitespace. What is accepted is the whitespace-free text. The refusal is "Base64 input cannot be null or empty" iff the payload is null or blank. Every other refusal is "Invalid base64 format", and every refusal is an IllegalArgumentException. |
| DocConverterService.ValidatePayload | src/main/java/com/docviewer/service/DocConverterService.java:80-92 | Validation with the whitespace guard doing what it is meant to. A payload is accepted iff it is present, not blank, and base64-shaped once whitespace is removed. What is accepted is that whitespace-free text, which is never empty. The refusal is "Base64 input cannot be null or empty" iff the payload is null or blank, and every other refusal is "Invalid base64 format". |
| DocConverterService.Rethrown | src/main/java/com/docviewer/service/DocConverterService.java:141-144 | The catch clauses keep the exception kind. An IllegalArgumentException gets "Failed to decode base64 content: " before the original message (or "null"). An IOException gets "Failed to process document: ". Other exceptions pass unchanged. `MessageText` gives what `+ e.getMessage()` appends: the message, or "null" when there is none. |
| DocConverterService.AppendRun | src/main/java/com/docviewer/service/DocConverterService.java:113-131 | One inner-loop step: a non-blank source run appends exactly its converted run to the current paragraph. A blank one changes nothing. |
| DocConverterService.AppendParagraph | src/main/java/com/docviewer/service/DocConverterService.java:105-132 | One outer-loop step appends exactly the converted paragraph, including all its converted runs. |
| DocConverterService.BuildDocument | src/main/java/com/docviewer/service/DocConverterService.java:101-133 | The nested loops leave the new document's body equal to the mapped range. |
| DocConverterService.ConvertDocToDocx | src/main/java/com/docviewer/service/DocConverterService.java:80-145 | The service method returns exactly what the specification `Convert` gives for the same payload and library behaviour. |
| ConversionProperties.RethrownMessagesDiffer | src/main/java/com/docviewer/service/DocConverterService.java:141-144 | A re-raised message never equals either validation message. |
| ConversionProperties.NullOrBlankRejected | src/main/java/com/docviewer/service/DocConverterService.java:82-84 | The result is the IllegalArgumentException "Base64 input cannot be null or empty" iff the payload is null or blank after `trim()`. |
| ConversionProperties.InvalidFormatRejectedBeforeDecoding | src/main/java/com/docviewer/service/DocConverterService.java:86-92 | The result is the IllegalArgumentException "Invalid base64 format" iff the payload is present, not blank, and not base64-shaped once whitespace is removed. This holds whatever the decoder does. |
| ConversionProperties.InvalidTestPayloadRejected | src/test/java/com/docviewer/service/DocConverterServiceTest.java:49-58 | "This is not a valid base64 string!@#$" is refused with "Invalid base64 format", the code's message rather than the test's longer one. |
| ConversionProperties.TryBlockFailuresRethrown | src/main/java/com/docviewer/service/DocConverterService.java:94-145 | A decode failure, or an IllegalArgumentException from the parser or the writer, reaches the caller with the decode prefix. An IOException from either gets the process prefix. Other exceptions are unchanged. `Translate` is the `try` block at lines 94-139 as a function, and `Convert` is the whole method. |
| ConversionProperties.MalformedDocumentTestPayloadValid | src/test/java/com/docviewer/service/DocConverterServiceTest.java:64 | "AAECAwQFBgc=" passes validation unchanged. |
| ConversionProperties.MalformedDocumentTestPayload | src/test/java/com/docviewer/service/DocConverterServiceTest.java:63-71 | When the parser refuses "AAECAwQFBgc=" with an IllegalArgumentException, the caller gets one whose message is "Failed to decode base64 content: " followed by the parser's message. |
| ConversionProperties.FailuresClassified | src/main/java/com/docviewer/service/DocConverterService.java:80-145 | Every failure is one of five: the null/empty message, the invalid-format message, a decode-prefixed IllegalArgumentException, a process-prefixed IOException, or an unwrapped other exception. |
| ConversionProperties.SuccessShape | src/main/java/com/docviewer/service/DocConverterService.java:94-139 | A success means the payload was present and not blank, and its whitespace-free text was base64-shaped, decoded and parsed. The mapped paragraphs were written, and the result is their encoding. |
| ConversionProperties.AsWrittenNeverMorePermissive | src/main/java/com/docviewer/service/DocConverterService.java:86-88 | Validation as written never accepts more than the intended validation. When it accepts, it accepts the same text. |
| ConversionProperties.AsWrittenAgreesWithoutLineBreaks | src/main/java/com/docviewer/service/DocConverterService.java:86-88 | On payloads without line terminators, the validation as written and the intended one agree. |
| ConversionProperties.AsWrittenDiffersExactly | src/main/java/com/docviewer/service/DocConverterService.java:82-92 | The validation as written and the intended one give different outcomes exactly on payloads that are not blank, are base64-shaped once whitespace is removed, hold whitespace, and fail the guard `.*\\s+.*`. |
| ConversionProperties.TrailingLineBreakAccepted | src/main/java/com/docviewer/service/DocConverterService.java:86-92 | As written, "QUJD\n" matches the guard, loses its line break, and is accepted as "QUJD". |
| ConversionProperties.StripTwoLineBreaks | src/main/java/com/docviewer/service/DocConverterService.java:87 | Three whitespace-free pieces joined by line breaks strip to the three pieces joined. |
| ConversionProperties.MultiLinePayloadRejectedAsWritten | src/main/java/com/docviewer/service/DocConverterService.java:86-92 | A base64 text in three lines is refused as written with "Invalid base64 format". As intended, it is accepted with its line breaks removed. |
| ConversionProperties.ThreeLineExample | src/main/java/com/docviewer/service/DocConverterService.java:86-92 | "QUJD\nREVG\nR0hJ" is refused as written and accepted as intended, as "QUJDREVGR0hJ". |
| ConversionProperties.ValidationIgnoresWhitespace | src/main/java/com/docviewer/service/DocConverterService.java:86-92 | Under the intended validation, removing the payload's whitespace first changes nothing. |

## Findings

| source | as written | input that shows it | evidently intended | confidence | as-written member | corrected member |
|---|---|---|---|---|---|---|
| src/main/java/com/docviewer/service/DocConverterService.java:86-88 | Whitespace is removed only when `base64Doc.matches(".*\\s+.*")`. Without DOTALL, `.` does not match a line terminator, so the guard fails on any payload whose line breaks are separated by data. Such a payload keeps its line breaks and fails the base64 pattern. The same guard is at lines 29-31. | `"QUJD\nREVG\nR0hJ"` (the base64 of "ABCDEFGHI" in three lines) is refused with "Invalid base64 format". | Remove all whitespace whenever there is any, so that base64 wrapped over several lines is accepted. | high for the regex semantics; not executed | DocConverterService.ValidatePayloadAsWritten (counterexample: ConversionProperties.MultiLinePayloadRejectedAsWritten, ConversionProperties.ThreeLineExample) | DocConverterService.ValidatePayload (property: ConversionProperties.ValidationIgnoresWhitespace; used by `Convert` and `ConvertDocToDocx`) |

Because of this finding, `Convert` and `ConvertDocToDocx` validate with the
corrected guard ("the payload holds whitespace"). The code as written is kept
in `ValidatePayloadAsWritten`. `AsWrittenNeverMorePermissive` and
`AsWrittenAgreesWithoutLineBreaks` show that the as-written version only
ever refuses more, and never on a payload without line terminators.
`AsWrittenDiffersExactly` shows the two differ exactly on payloads that are
not blank, whose whitespace-free text is base64-shaped, that hold whitespace,
and that fail the guard. Every such payload is refused as written and
accepted as intended.

The test at `DocConverterServiceTest.java:57` expects the message "Invalid
base64 format. Please ensure the input is properly base64 encoded.". The
code at line 91 throws "Invalid base64 format", and the model follows the
code.

## Left out

- `convertDocToDocxUsingJod` after its validation (lines 37-76): temporary files, the OpenOffice socket connection, the external converter, cleanup and logging. These are I/O and an external process. Its validation (lines 23-35) is the same as lines 80-92 and is modelled once.
- Base64 decoding and encoding (lines 45, 58, 95, 139): library calls, modelled as the `decode` and `encode` fields of `Collaborators`. `decode` may fail with an IllegalArgumentException message.
- HWPF parsing (line 98) and XWPF serialisation (line 135): library code, modelled as `parse` and `write`. The parsed range is a sequence of `SourceParagraph` values and the built document is the `TargetDocument` class.
- Closing the streams and documents (try-with-resources, `docx.close()`): an exception raised while closing is not modelled.
- Paragraph and run objects are addressed by their position in `TargetDocument.paragraphs`, not as separate `XWPFParagraph`/`XWPFRun` objects. Aliasing between handles is therefore not modelled. The service never keeps a handle beyond the loop iteration that created it.
- Java `String`s are UTF-16 code-unit sequences, while Dafny `string`s are sequences of Unicode scalar values. Unpaired surrogates are not modelled.
- `getFontName()` returning `null` is not modelled: the font name is always a string.
- `DocConverterController` (the HTTP 400/500 envelopes) and `DocConvertRequest` (a data holder) are transport plumbing and are not part of this model.
