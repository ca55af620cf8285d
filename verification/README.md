# Tokenizer model

A Dafny model of the `Tokenizer` class in `Classes/Tokenizer.py`. A tokenizer is built from a
split-mode tag and, optionally, a string of custom delimiter characters. Its `tokenize`
method dispatches on the tag to one of five splitting rules:

- `space`: Python's `text.split()`, which splits on runs of whitespace and never yields an empty token.
- `periods`: `re.split('[. ]', text)`, which cuts at every period and every space and keeps empty tokens.
- `specialchars`: a cut at every character of a fixed punctuation-and-space class. Empty tokens are dropped.
- `newline`: `text.split('\n')`, which cuts at every newline and keeps empty lines.
- `custom`: a cut at every configured character. Empty tokens are dropped.

Any other tag raises `ValueError('Invalid split mode')`.

The project has five modules:

- `CharClasses` (`charclasses.dfy`) writes each delimiter class out as a predicate on `char`:
  - the `str.isspace` table;
  - `[. ]`;
  - the 33-character special class;
  - `\n`;
  - membership in the custom characters.
- `Split` (`split.dfy`) holds the one splitting primitive all modes share:
  - `SplitOn` cuts at every delimiter and keeps empty pieces.
  - `DropEmpty` is the list comprehension `[w for w in words if w != '']`.
  - `SplitRuns` is the left-to-right scan that CPython's whitespace split performs.
  - Lemmas characterize and relate these three.
- `Tokenizers` (`tokenizer.dfy`) holds:
  - the stored configuration;
  - the mode dispatch;
  - the five mode functions and their properties.
- `ClassSyntax` (`classsyntax.dfy`) reads a regular-expression character set `[...]` the way Python's `re`
  parser does. It covers literals, ranges, a leading `^`, escapes of non-alphanumeric characters, and
  the parser's errors. It is the reference for two claims:
  - the specialchars pattern, exactly as written, denotes the special class;
  - the custom mode's `'[{}]'.format(chars)` denotes exactly the configured characters.
- `Examples` (`examples.dfy`) works one concrete text through each mode, plus the rejected tags.

The constructor `__init__` is the datatype constructor `Tokenizer(splitMode, customChars)`. Like
`__init__` in `Tokenizer.py`, it stores the tag and the characters as given and validates neither. An unknown tag
is only reported when `Tokenize` is called. The `ValueError` becomes the value `Err(InvalidSplitMode)` of a
`Result`.

## Model

| member | source | states |
|---|---|---|
| Tokenizers.InitDefersValidation | Classes/Tokenizer.py:20-22 | construction stores the tag and characters as given and validates neither: for any tag but `custom` the tokenizer is usable whatever the characters, the characters do not affect its tokens, and it fails only at tokenize time, exactly when the tag names no mode |
| Tokenizers.InitCustom | Classes/Tokenizer.py:20-22 | a tokenizer built with `custom` and a literal class of characters is usable, and tokenizing runs the custom split on exactly those characters |
| CharClasses.WhitespaceAscii | Classes/Tokenizer.py:46 | on ASCII, the whitespace that `str.split()` cuts at is exactly space, tab, newline, carriage return, vertical tab, form feed and the four information separators |
| CharClasses.WhitespaceAndSpecial | Classes/Tokenizer.py:46 | the space is the only character that is both whitespace and special, so tabs and newlines do not split in the specialchars mode |
| CharClasses.SpecialIsAsciiPunctuation | Classes/Tokenizer.py:61 | the special class is exactly the printable ASCII characters that are not letters or digits: the punctuation ranges `!`..`/`, `:`..`@`, `[`..`` ` ``, `{`..`~`, plus the space |
| ClassSyntax.SpecialPatternDenotes | Classes/Tokenizer.py:61 | the pattern body as written, read escape by escape, is plain characters and escapes of non-alphanumerics with no range, and it denotes the 34 listed members in order |
| ClassSyntax.ReadSetDenoted | Classes/Tokenizer.py:61 | reading any such body up to the closing bracket appends one literal item per denoted character and consumes the whole pattern |
| ClassSyntax.DenotedReadsAs | Classes/Tokenizer.py:61 | such a body not starting with `^`, between brackets, is one non-negated set of exactly those literals |
| ClassSyntax.SpecialMembersAreSpecialClass | Classes/Tokenizer.py:61 | the denoted members, as a set, are the special class |
| ClassSyntax.SpecialItemsMatch | Classes/Tokenizer.py:61 | a character matches the pattern's items if and only if it is special |
| ClassSyntax.SpecialPatternReadsSpecialClass | Classes/Tokenizer.py:61 | the specialchars pattern reads as one set of literals, and a character matches it if and only if it is in the special class |
| ClassSyntax.LitsMatch | Classes/Tokenizer.py:77 | the literal items of a string match exactly the characters in the string |
| ClassSyntax.ReadSetLiteral | Classes/Tokenizer.py:77 | reading the rest of a literal class appends one literal item per character, with a trailing `-` literal too |
| ClassSyntax.LiteralClassReadsLiterally | Classes/Tokenizer.py:77 | a literal-class string spliced into `[...]` reads as one non-negated set of its own characters, and a character matches it if and only if the custom delimiter test holds |
| ClassSyntax.InnerDashIsRange | Classes/Tokenizer.py:77 | outside the literal classes, `a-z` spliced in is one range from `a` to `z` |
| ClassSyntax.LeadingCaretNegates | Classes/Tokenizer.py:77 | a leading `^` spliced in negates the set |
| ClassSyntax.InnerBracketCloses | Classes/Tokenizer.py:77 | a `]` after the first character closes the set early and leaves the rest as pattern text |
| ClassSyntax.EmptyClassUnterminated | Classes/Tokenizer.py:77 | an empty string spliced in gives an unterminated set, the error `re` raises |
| Split.SplitOn | Classes/Tokenizer.py:53 | cutting at every delimiter yields one more piece than there are delimiter characters in the text |
| Split.SplitOnPiecesFree | Classes/Tokenizer.py:53 | no piece produced by the cut contains a delimiter |
| Split.SplitOnInterleave | Classes/Tokenizer.py:53 | putting the text's delimiters back between the pieces, in order, rebuilds the text exactly (the split loses nothing) |
| Split.SplitOnUnique | Classes/Tokenizer.py:53 | any delimiter-free pieces and delimiter separators that interleave to the text are exactly the split's pieces and the text's delimiters (the split is unique) |
| Split.SplitOnCharacterization | Classes/Tokenizer.py:53 | being a splitting of the text at delimiters holds if and only if the pieces are the split and the separators are the text's delimiters |
| Split.SplitOnConcat | Classes/Tokenizer.py:53 | the pieces concatenated are the text with its delimiters removed |
| Split.SplitOnFreePrefix | Classes/Tokenizer.py:53 | a delimiter-free prefix of the text becomes part of the first piece and leaves the other pieces alone |
| Split.DropEmpty | Classes/Tokenizer.py:62 | the filter keeps no empty word, never adds a word, and loses no character: the kept words concatenate to the same string (with DropEmptySingle and DropEmptyAppend it is pinned down to the non-empty input words in input order, repeats included) |
| Split.DropEmptySingle | Classes/Tokenizer.py:62 | a single word is kept exactly when it is non-empty |
| Split.DropEmptyAppend | Classes/Tokenizer.py:62 | filtering a concatenation is filtering each part and concatenating the results in order, so the filter acts word by word and never reorders |
| Split.DropEmptyMembers | Classes/Tokenizer.py:62 | a word is in the filtered list if and only if it was in the input and is non-empty |
| Split.DropEmptyKeepsNonEmpty | Classes/Tokenizer.py:62 | a list with no empty word passes the filter unchanged |
| Split.DropEmptyIdempotent | Classes/Tokenizer.py:62 | filtering a second time changes nothing |
| Split.SplitDropEmpty | Classes/Tokenizer.py:61-63 | split then filter: every token is non-empty and delimiter-free, and the tokens concatenate to the text without its delimiters |
| Split.DropSplitWord | Classes/Tokenizer.py:61-62 | a maximal non-empty run of non-delimiters at the front becomes exactly one token, followed by the tokens of the rest |
| Split.DropSplitSkip | Classes/Tokenizer.py:61-62 | a leading delimiter contributes no token |
| Split.DropSplitFixedPoint | Classes/Tokenizer.py:61-62 | a non-empty delimiter-free string splits and filters to the list holding just itself |
| Split.DropSplitEmptyIff | Classes/Tokenizer.py:61-62 | split then filter yields no token if and only if every character of the text is a delimiter |
| Split.SkipDelims | Classes/Tokenizer.py:46 | skipping a run of delimiters stops at the end of the text or at a non-delimiter, and the tokens of what remains are unchanged |
| Split.ScanRun | Classes/Tokenizer.py:46 | scanning stops at the end of the text or at the first delimiter, and the scanned run holds no delimiter |
| Split.SplitRuns | Classes/Tokenizer.py:46 | the single left-to-right scan for maximal non-delimiter runs returns exactly the tokens of cut-then-drop-empty |
| CharClasses.AlphanumericNotSpecial | Classes/Tokenizer.py:61 | the special class holds no ASCII letter or digit |
| Tokenizers.ParseMode | Classes/Tokenizer.py:29-40 | a recognised tag names the mode it selects, and a tag selects no mode if and only if it is the name of none of the five |
| Tokenizers.ModeNameRoundTrip | Classes/Tokenizer.py:29-38 | every mode's tag selects that same mode |
| Tokenizers.Tokenize | Classes/Tokenizer.py:24-40 | the call succeeds if and only if the tag is one of the five modes, and otherwise fails with the invalid-split-mode error. Each of the five tags returns exactly its own mode's tokens: `space` those of TokenizeSpace, `periods` of TokenizePeriods, `specialchars` of TokenizeSpecialChars, `newline` of TokenizeNewline and `custom` of TokenizeCustom on the stored characters. Restated per tag: `space` gives whitespace-free tokens that concatenate to the text without its whitespace. `periods` gives one more token than periods plus spaces, free of both, and putting the text's periods and spaces back between them rebuilds the text. `specialchars` is like space, with the special class. `newline` gives one more line than newlines, newline-free, and joining them with newlines gives the text back. `custom` is like specialchars, with the configured characters. The three filtering modes yield no empty token |
| Tokenizers.TokenizeSpace | Classes/Tokenizer.py:42-46 | every word is non-empty and whitespace-free, and the words concatenate to the text with its whitespace removed |
| Tokenizers.TokenizePeriods | Classes/Tokenizer.py:48-53 | there is one more token than there are periods and spaces in the text, no token holds a period or a space, and the tokens concatenate to the text without its periods and spaces |
| Tokenizers.PeriodsRoundTrip | Classes/Tokenizer.py:53 | putting the text's periods and spaces back between the tokens, in order, rebuilds the text exactly |
| Tokenizers.PeriodsUnique | Classes/Tokenizer.py:48-53 | any period- and space-free pieces that rebuild the text with periods and spaces between them are exactly the periods tokens, with the text's own periods and spaces as separators |
| Tokenizers.PeriodsCount | Classes/Tokenizer.py:53 | the periods and spaces the split cuts at number exactly the text's periods plus its spaces |
| Tokenizers.TokenizeSpecialChars | Classes/Tokenizer.py:55-63 | every token is non-empty and holds no special character, and the tokens concatenate to the text with its special characters removed |
| Tokenizers.TokenizeNewline | Classes/Tokenizer.py:66-70 | there is one more line than there are newlines, no line holds a newline, and joining the lines with newlines gives the text back |
| Tokenizers.NewlineCount | Classes/Tokenizer.py:70 | the newlines the split cuts at number exactly the text's newlines |
| Tokenizers.NewlineJoinSplit | Classes/Tokenizer.py:70 | splitting newline-joined, newline-free lines on newlines gives back the same lines |
| Tokenizers.TokenizeCustom | Classes/Tokenizer.py:72-79 | every token is non-empty and holds none of the configured characters, and the tokens concatenate to the text with those characters removed |
| Tokenizers.SpaceEmptyIff | Classes/Tokenizer.py:46 | the space mode yields no word if and only if the text is empty or all whitespace |
| Tokenizers.TokenizeFixedPoint | Classes/Tokenizer.py:42-79 | in the space, specialchars and custom modes, tokenizing any output token again yields exactly that one token |
| Tokenizers.SplitWhitespace | Classes/Tokenizer.py:46 | CPython's skip-whitespace/take-word scan behind `str.split()` returns exactly the space mode's words |
| Examples.SpaceExample | Classes/Tokenizer.py:46 | `"  a   b  "` splits into `["a", "b"]` |
| Examples.SpaceEmptyExample | Classes/Tokenizer.py:46 | the empty text has no words |
| Examples.PeriodsExample | Classes/Tokenizer.py:53 | `"a.b. c"` splits into `["a", "b", "", "c"]`, keeping the empty token between the period and the space |
| Examples.SpecialCharsExample | Classes/Tokenizer.py:61-63 | `"hello, world!! foo"` splits into `["hello", "world", "foo"]` |
| Examples.NewlineExample | Classes/Tokenizer.py:70 | `"a\n\nb"` splits into `["a", "", "b"]` |
| Examples.NewlineEmptyExample | Classes/Tokenizer.py:70 | the empty text is one empty line |
| Examples.CustomExample | Classes/Tokenizer.py:77-79 | `"a#b@@c"` split on `#@` gives `["a", "b", "c"]` |
| Examples.CustomBracketExample | Classes/Tokenizer.py:77-79 | with custom characters `]#` the class `[]#]` reads its leading `]` literally: `"a]b#c"` gives `["a", "b", "c"]` |
| Examples.CustomDispatchExample | Classes/Tokenizer.py:37-38 | a tokenizer configured as custom with `#@` dispatches to the custom split |
| Examples.UnknownModeExample | Classes/Tokenizer.py:39-40 | the tags `bogus` and `nonalphanumeric` are rejected with the invalid-split-mode error, whatever the text |

## Left out

- The regular-expression engine is not modelled. Each pattern is a single-character class, so each is written out as a character predicate, and splitting at single characters is modelled directly. `ClassSyntax` models only how a set is read, to tie the predicates to the patterns.
- ClassSyntax.ReadSet: an escape of a letter or digit (`\d`, `\w`, `\n`, an octal or `\x` escape) reads as `Unmodelled`, since no pattern here holds one. The `FutureWarning` Python gives for a set containing `[`, `--`, `&&`, `~~` or `||` is not modelled, because it is a warning and not a change in meaning.
- Tokenizers.TokenizeCustom: requires the configured characters to form a class read literally, and `Tokenize` requires the same of a custom-mode tokenizer. That means a non-empty string with no `\`, no leading `^`, no `]` after the first character and no `-` between two characters. A `]` in first position is allowed, since `re` reads it as a literal member of the class. `tokenize_custom` splices the string into `'[{}]'` unescaped, so outside that set the pattern changes meaning or fails:
  - a `-` forms a range and a leading `^` negates the class;
  - a `]` after the first character closes the class early, and a `\` starts an escape; either changes the pattern or makes it invalid;
  - an empty string raises `re.error`;
  - the default `None` formats as `[None]` and splits on the letters N, o, n, e.

  None of this is modelled.
- A non-string `custom_chars` argument (formatted with `str()`) is not modelled. The custom characters are a string or absent.
- Python's exception types are not modelled. The one error `tokenize` raises is the value `Err(InvalidSplitMode)`. The `re.error` of a malformed custom class is excluded by the precondition above.
- CharClasses.IsWhitespace: fixes the `str.isspace` table of current CPython releases. The table depends on the Unicode version. Lone surrogate code points, which Python strings may hold, are not Dafny characters.
- No lemma states statelessness. The tokenizer is an immutable value and every operation is a function, so two calls on the same text always agree and none changes the configuration.
- The class docstring names the third mode `nonalphanumeric` but the code tests for `specialchars`. The model follows the code: `nonalphanumeric` is rejected. The special class is also narrower than "non-alphanumeric": tab, newline and all non-ASCII characters are not in it.
- The `re.split` `maxsplit` and `flags` arguments, and the `str.split` `sep`/`maxsplit` arguments other than those used above, are not modelled because the class never passes them.
