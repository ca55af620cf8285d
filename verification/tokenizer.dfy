/**
 The `Tokenizer` of the repository: a split-mode tag, the characters of the
 custom mode, and `Tokenize`, which dispatches on the tag to one of five
 splitting rules or fails with `InvalidSplitMode`.

 The tokenizer is an immutable value and every operation is a function, so a
 call never changes the stored mode or characters and repeated calls on the
 same text give the same tokens.
 */
module Tokenizers {
  import opened CharClasses
  import opened Split

  datatype Option<T> = None | Some(value: T)

  /** The `ValueError('Invalid split mode')` that `tokenize` raises. */
  datatype Error = InvalidSplitMode

  datatype Result<T> = Ok(value: T) | Err(error: Error)

  /** The five recognised split modes. */
  datatype Mode = Space | Periods | SpecialChars | Newline | Custom

  /** The tag that selects each mode. */
  function ModeName(m: Mode): string {
    match m
    case Space => "space"
    case Periods => "periods"
    case SpecialChars => "specialchars"
    case Newline => "newline"
    case Custom => "custom"
  }

  /** The mode a tag selects, if any; there is no default mode. */
  function ParseMode(tag: string): (m: Option<Mode>)
    ensures m.Some? ==> ModeName(m.value) == tag
    ensures m.None? <==> forall k: Mode :: ModeName(k) != tag
  {
    if tag == "space" then Some(Space)
    else if tag == "periods" then Some(Periods)
    else if tag == "specialchars" then Some(SpecialChars)
    else if tag == "newline" then Some(Newline)
    else if tag == "custom" then Some(Custom)
    else
      assert ModeName(Space) != tag && ModeName(Periods) != tag && ModeName(SpecialChars) != tag
        && ModeName(Newline) != tag && ModeName(Custom) != tag;
      None
  }

  /** Every mode's tag selects that mode again. */
  lemma ModeNameRoundTrip(m: Mode)
    ensures ParseMode(ModeName(m)) == Some(m)
  {
    match m
    case Space =>
    case Periods =>
    case SpecialChars =>
    case Newline =>
    case Custom =>
  }

  /** The stored configuration; construction stores the tag and the characters
      as given and validates nothing. */
  datatype Tokenizer = Tokenizer(splitMode: string, customChars: Option<string>)

  /** The custom mode needs a non-empty class of literal characters. */
  predicate WellConfigured(t: Tokenizer) {
    t.splitMode == "custom" ==> t.customChars.Some? && LiteralClass(t.customChars.value)
  }

  /** `__init__` stores the tag and the characters as given and checks
      neither. Any tag but `custom` makes a tokenizer that `Tokenize` accepts,
      whatever the characters, and the characters then play no part. An
      unknown tag is reported only when `Tokenize` runs. */
  lemma InitDefersValidation(tag: string, chars: Option<string>, text: string)
    requires tag != "custom"
    ensures Tokenizer(tag, chars).splitMode == tag && Tokenizer(tag, chars).customChars == chars
    ensures WellConfigured(Tokenizer(tag, chars))
    ensures Tokenize(Tokenizer(tag, chars), text) == Tokenize(Tokenizer(tag, None), text)
    ensures Tokenize(Tokenizer(tag, chars), text).Err? <==> ParseMode(tag).None?
  {
  }

  /** A tokenizer built with `custom` and a literal class splits on exactly
      those characters. */
  lemma InitCustom(chars: string, text: string)
    requires LiteralClass(chars)
    ensures WellConfigured(Tokenizer("custom", Some(chars)))
    ensures Tokenize(Tokenizer("custom", Some(chars)), text) == Ok(TokenizeCustom(chars, text))
  {
  }

  /** Python's `text.split()`: maximal runs of non-whitespace. */
  function TokenizeSpace(text: string): (tokens: seq<string>)
    ensures forall i :: 0 <= i < |tokens| ==> tokens[i] != "" && NoDelim(tokens[i], IsWhitespace)
    ensures Concat(tokens) == Strip(text, IsWhitespace)
  {
    SplitDropEmpty(text, IsWhitespace)
  }

  /** `re.split('[. ]', text)`: a cut at every period and every space, empty tokens kept. */
  function TokenizePeriods(text: string): (tokens: seq<string>)
    ensures |tokens| == multiset(text)['.'] + multiset(text)[' '] + 1
    ensures forall i :: 0 <= i < |tokens| ==> '.' !in tokens[i] && ' ' !in tokens[i]
    ensures Concat(tokens) == Strip(text, IsPeriodOrSpace)
  {
    PeriodsCount(text);
    SplitOnConcat(text, IsPeriodOrSpace);
    SplitOnPiecesFree(text, IsPeriodOrSpace);
    var tokens := SplitOn(text, IsPeriodOrSpace);
    assert forall i :: 0 <= i < |tokens| ==> NoDelim(tokens[i], IsPeriodOrSpace);
    tokens
  }

  /** The special-character split: a cut at every character of the fixed class, empty tokens dropped. */
  function TokenizeSpecialChars(text: string): (tokens: seq<string>)
    ensures forall i :: 0 <= i < |tokens| ==> tokens[i] != "" && NoDelim(tokens[i], IsSpecialChar)
    ensures Concat(tokens) == Strip(text, IsSpecialChar)
  {
    SplitDropEmpty(text, IsSpecialChar)
  }

  /** `text.split('\n')`: a cut at every newline, empty tokens kept. */
  function TokenizeNewline(text: string): (lines: seq<string>)
    ensures |lines| == multiset(text)['\n'] + 1
    ensures forall i :: 0 <= i < |lines| ==> '\n' !in lines[i]
    ensures Join(lines, '\n') == text
  {
    NewlineCount(text);
    SplitOnInterleave(text, IsNewline);
    SplitOnPiecesFree(text, IsNewline);
    InterleaveUniform(SplitOn(text, IsNewline), DelimsOf(text, IsNewline), '\n');
    var lines := SplitOn(text, IsNewline);
    assert forall i :: 0 <= i < |lines| ==> NoDelim(lines[i], IsNewline);
    lines
  }

  /** The custom split: a cut at every configured character, empty tokens dropped. */
  function TokenizeCustom(chars: string, text: string): (tokens: seq<string>)
    requires LiteralClass(chars)
    ensures forall i :: 0 <= i < |tokens| ==> tokens[i] != ""
    ensures forall i, j :: 0 <= i < |tokens| && 0 <= j < |tokens[i]| ==> tokens[i][j] !in chars
    ensures Concat(tokens) == Strip(text, CustomDelim(chars))
  {
    var tokens := SplitDropEmpty(text, CustomDelim(chars));
    assert forall i, j :: 0 <= i < |tokens| && 0 <= j < |tokens[i]| ==> !CustomDelim(chars)(tokens[i][j]);
    tokens
  }

  /** The dispatch of `tokenize` on the stored tag: each of the five tags runs
      its own splitting rule, and every other tag is an error. */
  function Tokenize(t: Tokenizer, text: string): (r: Result<seq<string>>)
    requires WellConfigured(t)
    ensures r.Ok? <==> t.splitMode in {"space", "periods", "specialchars", "newline", "custom"}
    ensures r.Err? ==> r.error == InvalidSplitMode
    ensures r.Ok? && t.splitMode in {"space", "specialchars", "custom"} ==>
              forall i :: 0 <= i < |r.value| ==> r.value[i] != ""
    ensures t.splitMode == "space" ==> r == Ok(TokenizeSpace(text))
    ensures t.splitMode == "periods" ==> r == Ok(TokenizePeriods(text))
    ensures t.splitMode == "specialchars" ==> r == Ok(TokenizeSpecialChars(text))
    ensures t.splitMode == "newline" ==> r == Ok(TokenizeNewline(text))
    ensures t.splitMode == "custom" ==> r == Ok(TokenizeCustom(t.customChars.value, text))
    ensures t.splitMode == "space" ==>
              && (forall i :: 0 <= i < |r.value| ==> NoDelim(r.value[i], IsWhitespace))
              && Concat(r.value) == Strip(text, IsWhitespace)
    ensures t.splitMode == "periods" ==>
              && |r.value| == multiset(text)['.'] + multiset(text)[' '] + 1
              && (forall i :: 0 <= i < |r.value| ==> NoDelim(r.value[i], IsPeriodOrSpace))
              && Concat(r.value) == Strip(text, IsPeriodOrSpace)
              && Interleave(r.value, DelimsOf(text, IsPeriodOrSpace)) == text
    ensures t.splitMode == "specialchars" ==>
              && (forall i :: 0 <= i < |r.value| ==> NoDelim(r.value[i], IsSpecialChar))
              && Concat(r.value) == Strip(text, IsSpecialChar)
    ensures t.splitMode == "newline" ==>
              && |r.value| == multiset(text)['\n'] + 1
              && (forall i :: 0 <= i < |r.value| ==> NoDelim(r.value[i], IsNewline))
              && Join(r.value, '\n') == text
    ensures t.splitMode == "custom" ==>
              && (forall i :: 0 <= i < |r.value| ==> NoDelim(r.value[i], CustomDelim(t.customChars.value)))
              && Concat(r.value) == Strip(text, CustomDelim(t.customChars.value))
  {
    SplitOnInterleave(text, IsPeriodOrSpace);
    match ParseMode(t.splitMode)
    case None => Err(InvalidSplitMode)
    case Some(Space) => Ok(TokenizeSpace(text))
    case Some(Periods) => Ok(TokenizePeriods(text))
    case Some(SpecialChars) => Ok(TokenizeSpecialChars(text))
    case Some(Newline) => Ok(TokenizeNewline(text))
    case Some(Custom) => Ok(TokenizeCustom(t.customChars.value, text))
  }

  /** The number of period-or-space cuts is the number of those characters. */
  lemma {:induction false} PeriodsCount(text: string)
    ensures |DelimsOf(text, IsPeriodOrSpace)| == multiset(text)['.'] + multiset(text)[' ']
    decreases |text|
  {
    if |text| > 0 {
      PeriodsCount(text[1..]);
      assert text == [text[0]] + text[1..];
      assert multiset(text) == multiset{text[0]} + multiset(text[1..]);
    }
  }

  /** The periods and spaces put back between the tokens, in order, rebuild the text. */
  lemma {:induction false} PeriodsRoundTrip(text: string)
    ensures Interleave(TokenizePeriods(text), DelimsOf(text, IsPeriodOrSpace)) == text
  {
    SplitOnInterleave(text, IsPeriodOrSpace);
  }

  /** The periods mode returns the one way of cutting `text` into period- and
      space-free pieces: any such pieces that rebuild `text` with periods and
      spaces between them are the mode's tokens. */
  lemma PeriodsUnique(text: string, pieces: seq<string>, seps: string)
    requires IsSplitting(text, pieces, seps, IsPeriodOrSpace)
    ensures pieces == TokenizePeriods(text) && seps == DelimsOf(text, IsPeriodOrSpace)
  {
    SplitOnUnique(text, pieces, seps, IsPeriodOrSpace);
  }

  /** The number of newline cuts is the number of newlines. */
  lemma {:induction false} NewlineCount(text: string)
    ensures |DelimsOf(text, IsNewline)| == multiset(text)['\n']
    decreases |text|
  {
    if |text| > 0 {
      NewlineCount(text[1..]);
      assert text == [text[0]] + text[1..];
      assert multiset(text) == multiset{text[0]} + multiset(text[1..]);
    }
  }

  /** Splitting on newlines undoes joining newline-free lines with newlines. */
  lemma NewlineJoinSplit(lines: seq<string>)
    requires |lines| > 0
    requires forall i :: 0 <= i < |lines| ==> '\n' !in lines[i]
    ensures TokenizeNewline(Join(lines, '\n')) == lines
  {
    var seps := seq(|lines| - 1, _ => '\n');
    InterleaveUniform(lines, seps, '\n');
    assert IsSplitting(Join(lines, '\n'), lines, seps, IsNewline);
    SplitOnUnique(Join(lines, '\n'), lines, seps, IsNewline);
  }

  /** The space mode yields no token exactly for empty or all-whitespace text. */
  lemma SpaceEmptyIff(text: string)
    ensures TokenizeSpace(text) == [] <==> forall i :: 0 <= i < |text| ==> IsWhitespace(text[i])
  {
    DropSplitEmptyIff(text, IsWhitespace);
  }

  /** The filtering modes leave every token they produce as it is: tokenizing
      an output token again yields exactly that token. */
  lemma TokenizeFixedPoint(t: Tokenizer, text: string)
    requires WellConfigured(t)
    requires t.splitMode in {"space", "specialchars", "custom"}
    ensures Tokenize(t, text).Ok?
    ensures forall i :: 0 <= i < |Tokenize(t, text).value| ==>
              Tokenize(t, Tokenize(t, text).value[i]) == Ok([Tokenize(t, text).value[i]])
  {
    var tokens := Tokenize(t, text).value;
    forall i | 0 <= i < |tokens|
      ensures Tokenize(t, tokens[i]) == Ok([tokens[i]])
    {
      if t.splitMode == "space" {
        DropSplitFixedPoint(tokens[i], IsWhitespace);
      } else if t.splitMode == "specialchars" {
        DropSplitFixedPoint(tokens[i], IsSpecialChar);
      } else {
        DropSplitFixedPoint(tokens[i], CustomDelim(t.customChars.value));
      }
    }
  }

  /** CPython's whitespace split behind `str.split()`: skip a run of whitespace,
      take the run of non-whitespace after it as a word, repeat. The scan itself
      and all of its proof are `Split.SplitRuns`, which works for any delimiter
      class; this method only instantiates it with the whitespace table. */
  method SplitWhitespace(text: string) returns (words: seq<string>)
    ensures words == TokenizeSpace(text)
  {
    words := SplitRuns(text, IsWhitespace);
  }
}
