/**
 Concrete tokenizations, one per mode, a dispatch through the stored
 configuration, and the rejected tag.

 Each sample is stated for a `text` equal to it rather than for the literal
 itself, so that the verifier follows the proof instead of unfolding the
 split character by character.
 */
module Examples {
  import opened CharClasses
  import opened Split
  import opened Tokenizers

  /** The pieces before the empty ones are dropped. */
  lemma SpacePieces(text: string)
    requires text == "  a   b  "
    ensures SplitOn(text, IsWhitespace) == ["", "", "a", "", "", "b", "", ""]
  {
    var pieces := ["", "", "a", "", "", "b", "", ""];
    assert Interleave(pieces, "       ") == text;
    SplitOnUnique(text, pieces, "       ", IsWhitespace);
  }

  lemma SpaceExample(text: string)
    requires text == "  a   b  "
    ensures TokenizeSpace(text) == ["a", "b"]
  {
    SpacePieces(text);
    assert DropEmpty(["b", "", ""]) == ["b"];
    assert DropEmpty(["a", "", "", "b", "", ""]) == ["a", "b"];
    assert DropEmpty(["", "", "a", "", "", "b", "", ""]) == ["a", "b"];
  }

  lemma SpaceEmptyExample()
    ensures TokenizeSpace("") == []
  {
  }

  lemma PeriodsExample(text: string)
    requires text == "a.b. c"
    ensures TokenizePeriods(text) == ["a", "b", "", "c"]
  {
    assert Interleave(["a", "b", "", "c"], ".. ") == text;
    SplitOnUnique(text, ["a", "b", "", "c"], ".. ", IsPeriodOrSpace);
  }

  /** The pieces before the empty ones are dropped. */
  lemma SpecialCharsPieces(text: string)
    requires text == "hello, world!! foo"
    ensures SplitOn(text, IsSpecialChar) == ["hello", "", "world", "", "", "foo"]
  {
    var pieces := ["hello", "", "world", "", "", "foo"];
    forall w | w in ["hello", "world", "foo"]
      ensures NoDelim(w, IsSpecialChar)
    {
      assert forall i :: 0 <= i < |w| ==> 'a' <= w[i] <= 'z';
      forall i | 0 <= i < |w| {
        AlphanumericNotSpecial(w[i]);
      }
    }
    assert Interleave(pieces, ", !! ") == text;
    SplitOnUnique(text, pieces, ", !! ", IsSpecialChar);
  }

  lemma SpecialCharsExample(text: string)
    requires text == "hello, world!! foo"
    ensures TokenizeSpecialChars(text) == ["hello", "world", "foo"]
  {
    SpecialCharsPieces(text);
    assert DropEmpty(["", "", "foo"]) == ["foo"];
    assert DropEmpty(["world", "", "", "foo"]) == ["world", "foo"];
    assert DropEmpty(["hello", "", "world", "", "", "foo"]) == ["hello", "world", "foo"];
  }

  lemma NewlineExample(text: string)
    requires text == "a\n\nb"
    ensures TokenizeNewline(text) == ["a", "", "b"]
  {
    assert Interleave(["a", "", "b"], "\n\n") == text;
    SplitOnUnique(text, ["a", "", "b"], "\n\n", IsNewline);
  }

  lemma NewlineEmptyExample()
    ensures TokenizeNewline("") == [""]
  {
  }

  /** The pieces before the empty ones are dropped. */
  lemma CustomPieces(text: string)
    requires text == "a#b@@c"
    ensures SplitOn(text, CustomDelim("#@")) == ["a", "b", "", "c"]
  {
    var pieces := ["a", "b", "", "c"];
    assert Interleave(pieces, "#@@") == text;
    SplitOnUnique(text, pieces, "#@@", CustomDelim("#@"));
  }

  lemma CustomExample(text: string)
    requires text == "a#b@@c"
    ensures TokenizeCustom("#@", text) == ["a", "b", "c"]
  {
    assert LiteralClass("#@");
    CustomPieces(text);
    assert DropEmpty(["b", "", "c"]) == ["b", "c"];
    assert DropEmpty(["a", "b", "", "c"]) == ["a", "b", "c"];
  }

  /** A `]` in first position is a literal member of the class `[]#]`. */
  lemma CustomBracketExample(text: string)
    requires text == "a]b#c"
    ensures TokenizeCustom("]#", text) == ["a", "b", "c"]
  {
    assert LiteralClass("]#");
    var pieces := ["a", "b", "c"];
    assert Interleave(pieces, "]#") == text;
    SplitOnUnique(text, pieces, "]#", CustomDelim("]#"));
    DropEmptyKeepsNonEmpty(pieces);
  }

  /** The dispatch runs the custom mode on the configured characters. */
  lemma CustomDispatchExample(text: string)
    requires text == "a#b@@c"
    ensures Tokenize(Tokenizer("custom", Some("#@")), text) == Ok(["a", "b", "c"])
  {
    CustomExample(text);
  }

  lemma UnknownModeExample(text: string)
    ensures Tokenize(Tokenizer("bogus", None), text) == Err(InvalidSplitMode)
    ensures Tokenize(Tokenizer("nonalphanumeric", None), text) == Err(InvalidSplitMode)
  {
  }
}
