/** What `convertDocToDocx` promises its callers, proved about the `Convert`
    specification that `ConvertDocToDocx` is verified against: which inputs
    are refused with which message, which failures are re-raised how, and what
    a successful conversion consists of. */
module ConversionProperties {
  import opened Wrappers
  import opened JavaLang
  import opened JavaRegex
  import opened Documents
  import opened FormatMapping
  import opened DocConverterService

  /** A message produced by a catch clause never equals one of the two
      validation messages: the prefixes start with "F", they with "B" and "I". */
  lemma RethrownMessagesDiffer(e: JavaException)
    ensures Rethrown(e).IllegalArgument? ==>
      Rethrown(e).message != Some(NullOrEmptyMessage) && Rethrown(e).message != Some(InvalidFormatMessage)
  {
    if e.IllegalArgument? {
      var msg := Rethrown(e).message.value;
      assert msg[0] == DecodePrefix[0] == 'F';
    }
  }

  /** A missing payload, or one that `trim()` leaves empty, is refused with
      exactly "Base64 input cannot be null or empty", and no other input gets
      that error. */
  lemma NullOrBlankRejected(base64Doc: Option<string>, lib: Collaborators)
    ensures Convert(base64Doc, lib) == Err(IllegalArgument(Some(NullOrEmptyMessage)))
      <==> base64Doc.None? || IsBlank(base64Doc.value)
  {
    if ValidatePayload(base64Doc).Ok? {
      var payload := ValidatePayload(base64Doc).value;
      if Translate(payload, lib).Err? {
        RethrownMessagesDiffer(Translate(payload, lib).error);
      }
    } else if !(base64Doc.None? || IsBlank(base64Doc.value)) {
      assert NullOrEmptyMessage[0] != InvalidFormatMessage[0];
    }
  }

  /** A present, non-blank payload whose whitespace-free text is not of base64
      shape is refused with exactly "Invalid base64 format", whatever the decoder
      would have done with it; no other input gets that error. */
  lemma InvalidFormatRejectedBeforeDecoding(base64Doc: Option<string>, lib: Collaborators)
    ensures Convert(base64Doc, lib) == Err(IllegalArgument(Some(InvalidFormatMessage)))
      <==> base64Doc.Some? && !IsBlank(base64Doc.value) && !Base64Shaped(StripSpaces(base64Doc.value))
  {
    if ValidatePayload(base64Doc).Ok? {
      var payload := ValidatePayload(base64Doc).value;
      if Translate(payload, lib).Err? {
        RethrownMessagesDiffer(Translate(payload, lib).error);
      }
    } else if base64Doc.None? || IsBlank(base64Doc.value) {
      assert NullOrEmptyMessage[0] != InvalidFormatMessage[0];
    }
  }

  /** The test payload "This is not a valid base64 string!@#$" is refused as
      malformed: its spaces are removed, but "!" is not a base64 character. */
  lemma InvalidTestPayloadRejected(lib: Collaborators)
    ensures Convert(Some("This is not a valid base64 string!@#$"), lib)
      == Err(IllegalArgument(Some(InvalidFormatMessage)))
  {
    var s := "This is not a valid base64 string!@#$";
    assert s[33] == '!';
    ForeignCharDefeatsShape(s, 33);
    assert !IsTrimmable(s[0]);
    BlankIff(s);
    InvalidFormatRejectedBeforeDecoding(Some(s), lib);
  }

  /** A failure inside the `try` block is re-raised, whether the decoder, the
      parser or the writer raised it: an IllegalArgumentException as one whose
      message is "Failed to decode base64 content: " and the original message;
      an IOException as one whose message is "Failed to process document: " and
      the original message; any other exception unchanged. */
  lemma TryBlockFailuresRethrown(base64Doc: Option<string>, lib: Collaborators)
    requires ValidatePayload(base64Doc).Ok?
    ensures var payload := ValidatePayload(base64Doc).value;
      lib.decode(payload).Err? ==>
        Convert(base64Doc, lib) == Err(IllegalArgument(Some(DecodePrefix + MessageText(lib.decode(payload).error))))
    ensures var payload := ValidatePayload(base64Doc).value;
      lib.decode(payload).Ok? && lib.parse(lib.decode(payload).value).Err? ==>
        var e := lib.parse(lib.decode(payload).value).error;
        && (e.IllegalArgument? ==> Convert(base64Doc, lib) == Err(IllegalArgument(Some(DecodePrefix + MessageText(e.message)))))
        && (e.IOFailure? ==> Convert(base64Doc, lib) == Err(IOFailure(Some(ProcessPrefix + MessageText(e.message)))))
        && (e.Unchecked? ==> Convert(base64Doc, lib) == Err(e))
    ensures var payload := ValidatePayload(base64Doc).value;
      lib.decode(payload).Ok? && lib.parse(lib.decode(payload).value).Ok? ==>
        var body := TargetParagraphsOf(lib.parse(lib.decode(payload).value).value);
        lib.write(body).Err? ==> Convert(base64Doc, lib) == Err(Rethrown(lib.write(body).error))
  {
  }

  /** The test payload "AAECAwQFBgc=" passes validation unchanged. */
  lemma MalformedDocumentTestPayloadValid()
    ensures ValidatePayload(Some("AAECAwQFBgc=")) == Ok("AAECAwQFBgc=")
  {
    var s := "AAECAwQFBgc=";
    assert !IsTrimmable(s[0]);
    BlankIff(s);
    assert !HasRegexSpace(s);
    StripSpacesKeeps(s);
    assert SplitsAtPadding(s, 11);
    Base64PatternIff(s);
  }

  /** When the parser refuses the test payload "AAECAwQFBgc=" with an
      IllegalArgumentException, the caller sees an IllegalArgumentException whose
      message starts "Failed to decode base64 content". */
  lemma MalformedDocumentTestPayload(lib: Collaborators, m: Option<string>)
    requires lib.decode("AAECAwQFBgc=").Ok?
    requires lib.parse(lib.decode("AAECAwQFBgc=").value) == Err(IllegalArgument(m))
    ensures Convert(Some("AAECAwQFBgc="), lib) == Err(IllegalArgument(Some(DecodePrefix + MessageText(m))))
  {
    MalformedDocumentTestPayloadValid();
  }

  /** Every failure the caller can see is one of five kinds. */
  lemma FailuresClassified(base64Doc: Option<string>, lib: Collaborators)
    requires Convert(base64Doc, lib).Err?
    ensures var e := Convert(base64Doc, lib).error;
      || e == IllegalArgument(Some(NullOrEmptyMessage))
      || e == IllegalArgument(Some(InvalidFormatMessage))
      || (e.IllegalArgument? && e.message.Some? && DecodePrefix <= e.message.value)
      || (e.IOFailure? && e.message.Some? && ProcessPrefix <= e.message.value)
      || e.Unchecked?
  {
  }

  /** A successful conversion decoded the whitespace-free payload, parsed it,
      wrote exactly the mapped paragraphs and returned their encoding. */
  lemma SuccessShape(base64Doc: Option<string>, lib: Collaborators)
    requires Convert(base64Doc, lib).Ok?
    ensures base64Doc.Some? && !IsBlank(base64Doc.value)
    ensures var payload := StripSpaces(base64Doc.value);
      && Base64Shaped(payload)
      && lib.decode(payload).Ok?
      && lib.parse(lib.decode(payload).value).Ok?
      && var body := TargetParagraphsOf(lib.parse(lib.decode(payload).value).value);
         && lib.write(body).Ok?
         && Convert(base64Doc, lib).value == lib.encode(lib.write(body).value)
  {
  }

  // ---------------------------------------------------------------------------
  // The whitespace guard as written and as intended

  /** As written, validation is never more permissive than intended, and when
      it accepts it accepts the same text. */
  lemma AsWrittenNeverMorePermissive(base64Doc: Option<string>)
    ensures ValidatePayloadAsWritten(base64Doc).Ok? ==> ValidatePayloadAsWritten(base64Doc) == ValidatePayload(base64Doc)
  {
    if ValidatePayloadAsWritten(base64Doc).Ok? {
      var s := base64Doc.value;
      SpaceRunHasSpace(s);
      if !MatchesSpaceRun(s) {
        Base64PatternIff(s);
        assert !HasRegexSpace(s);
      }
    }
  }

  /** The two validations give different outcomes exactly on the payloads that
      pass the blank check, are of base64 shape once their whitespace is gone,
      hold whitespace, and still fail the guard as written. */
  lemma AsWrittenDiffersExactly(s: string)
    ensures ValidatePayloadAsWritten(Some(s)) != ValidatePayload(Some(s)) <==>
      !IsBlank(s) && Base64Shaped(StripSpaces(s)) && HasRegexSpace(s) && !MatchesSpaceRun(s)
  {
  }

  /** As written, a single trailing line break is removed: the guard's `\s+`
      covers it and the `.*` before it covers the data. */
  lemma TrailingLineBreakAccepted()
    ensures ValidatePayloadAsWritten(Some("QUJD\n")) == Ok("QUJD")
  {
    var d := "QUJD";
    var s := d + ['\n'];
    assert s == "QUJD\n";
    assert SplitsAtSpaceRun(s, 4, 5);
    assert MatchesSpaceRun(s);
    assert !IsTrimmable(s[0]);
    BlankIff(s);
    assert !IsBlank(s);
    StripSpacesSnoc(d, '\n');
    assert !HasRegexSpace(d);
    StripSpacesKeeps(d);
    assert StripSpaces(s) == d;
    assert Base64Shaped(d);
  }

  /** On a payload without line terminators the guard as written does what is
      intended. */
  lemma AsWrittenAgreesWithoutLineBreaks(s: string)
    requires forall k :: 0 <= k < |s| ==> !IsLineTerminator(s[k])
    ensures ValidatePayloadAsWritten(Some(s)) == ValidatePayload(Some(s))
  {
    SpaceRunWithoutLineBreaks(s);
  }

  /** Whitespace-free pieces joined by two line breaks lose only the breaks. */
  lemma StripTwoLineBreaks(a: string, b: string, c: string)
    requires !HasRegexSpace(a) && !HasRegexSpace(b) && !HasRegexSpace(c)
    ensures StripSpaces(a + "\n" + b + "\n" + c) == a + b + c
  {
    var nl := "\n";
    assert StripSpaces(nl) == [] by {
      StripSpacesSnoc([], '\n');
      assert [] + ['\n'] == nl;
    }
    StripSpacesKeeps(a);
    StripSpacesKeeps(b);
    StripSpacesKeeps(c);
    var p1 := a + nl;
    StripSpacesAppend(a, nl);
    assert StripSpaces(p1) == a;
    var p2 := p1 + b;
    StripSpacesAppend(p1, b);
    assert StripSpaces(p2) == a + b;
    var p3 := p2 + nl;
    StripSpacesAppend(p2, nl);
    assert StripSpaces(p3) == a + b;
    StripSpacesAppend(p3, c);
    assert StripSpaces(p3 + c) == a + b + c;
  }

  /** A base64 payload broken into three lines, as in "QUJD\nREVG\nR0hJ":
      as written it is refused, because the guard `matches(".*\\s+.*")` fails on
      it and the line breaks are never removed; as intended it is accepted with
      the line breaks removed. */
  lemma MultiLinePayloadRejectedAsWritten(a: string, b: string, c: string)
    requires !HasRegexSpace(a) && !HasRegexSpace(b) && !HasRegexSpace(c) && |b| > 0
    requires Base64Shaped(a + b + c)
    ensures ValidatePayloadAsWritten(Some(a + "\n" + b + "\n" + c)) == Err(IllegalArgument(Some(InvalidFormatMessage)))
    ensures ValidatePayload(Some(a + "\n" + b + "\n" + c)) == Ok(a + b + c)
  {
    var s := a + "\n" + b + "\n" + c;
    assert s[|a|] == '\n' && s[|a| + 1] == b[0] && s[|a| + 1 + |b|] == '\n';
    assert b[0] == (a + b + c)[|a|];
    assert !IsTrimmable(s[|a| + 1]);
    BlankIff(s);
    SeparatedLineBreaksDefeatGuard(s, |a|, |a| + 1, |a| + 1 + |b|);
    Base64PatternIff(s);
    assert !(IsBase64Char(s[|a|]) || s[|a|] == '=');
    StripTwoLineBreaks(a, b, c);
  }

  /** The instance "QUJD\nREVG\nR0hJ", the base64 of "ABCDEFGHI" in three lines. */
  lemma ThreeLineExample()
    ensures ValidatePayloadAsWritten(Some("QUJD\nREVG\nR0hJ")) == Err(IllegalArgument(Some(InvalidFormatMessage)))
    ensures ValidatePayload(Some("QUJD\nREVG\nR0hJ")) == Ok("QUJDREVGR0hJ")
  {
    assert "QUJD" + "\n" + "REVG" + "\n" + "R0hJ" == "QUJD\nREVG\nR0hJ";
    assert "QUJD" + "REVG" + "R0hJ" == "QUJDREVGR0hJ";
    MultiLinePayloadRejectedAsWritten("QUJD", "REVG", "R0hJ");
  }

  /** As intended, only the non-whitespace characters of the payload matter:
      removing its whitespace first changes nothing. */
  lemma ValidationIgnoresWhitespace(s: string)
    ensures ValidatePayload(Some(StripSpaces(s))) == ValidatePayload(Some(s))
  {
    StripSpacesIdempotent(s);
    StripSpacesKeepsBlankness(s);
  }
}
