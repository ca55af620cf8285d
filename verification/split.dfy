/**
 The splitting primitive shared by all five modes of the tokenizer.

 `SplitOn(text, isDelim)` cuts `text` at every single delimiter character and
 keeps the (possibly empty) pieces between them, as Python's `re.split` with a
 one-character class and `str.split(sep)` with a one-character separator do.
 `DropEmpty` is the list comprehension `[w for w in words if w != '']`.
 */
module Split {

  /** No character of `s` is a delimiter. */
  predicate NoDelim(s: string, isDelim: char -> bool) {
    forall i :: 0 <= i < |s| ==> !isDelim(s[i])
  }

  /** The delimiter characters of `text`, in order. */
  function DelimsOf(text: string, isDelim: char -> bool): (ds: string)
    ensures |ds| <= |text|
    ensures forall j :: 0 <= j < |ds| ==> isDelim(ds[j])
  {
    if |text| == 0 then ""
    else if isDelim(text[0]) then [text[0]] + DelimsOf(text[1..], isDelim)
    else DelimsOf(text[1..], isDelim)
  }

  /** `text` with its delimiter characters removed. */
  function Strip(text: string, isDelim: char -> bool): (s: string)
    ensures NoDelim(s, isDelim)
    ensures |s| + |DelimsOf(text, isDelim)| == |text|
  {
    if |text| == 0 then ""
    else if isDelim(text[0]) then Strip(text[1..], isDelim)
    else [text[0]] + Strip(text[1..], isDelim)
  }

  /** The pieces joined end to end, Python's `''.join(pieces)`. */
  function Concat(pieces: seq<string>): string {
    if |pieces| == 0 then "" else pieces[0] + Concat(pieces[1..])
  }

  /** The pieces with `sep` between consecutive ones, Python's `sep.join(pieces)`. */
  function Join(pieces: seq<string>, sep: char): string {
    if |pieces| == 0 then ""
    else if |pieces| == 1 then pieces[0]
    else pieces[0] + [sep] + Join(pieces[1..], sep)
  }

  /** The pieces with the j-th separator between piece j and piece j+1. */
  function Interleave(pieces: seq<string>, seps: string): string
    requires |pieces| == |seps| + 1
  {
    if |seps| == 0 then pieces[0]
    else pieces[0] + [seps[0]] + Interleave(pieces[1..], seps[1..])
  }

  /** `pieces` and `seps` are a splitting of `text` at delimiters: the pieces
      hold no delimiter, every separator is one, and putting the separators back
      between the pieces gives `text` again. */
  predicate IsSplitting(text: string, pieces: seq<string>, seps: string, isDelim: char -> bool) {
    && |pieces| == |seps| + 1
    && (forall i :: 0 <= i < |pieces| ==> NoDelim(pieces[i], isDelim))
    && (forall j :: 0 <= j < |seps| ==> isDelim(seps[j]))
    && Interleave(pieces, seps) == text
  }

  /** Cut `text` at every delimiter character, keeping empty pieces. */
  function SplitOn(text: string, isDelim: char -> bool): (pieces: seq<string>)
    ensures |pieces| == |DelimsOf(text, isDelim)| + 1
    decreases |text|
  {
    if |text| == 0 then [""]
    else
      var rest := SplitOn(text[1..], isDelim);
      if isDelim(text[0]) then [""] + rest
      else ExtendFirst([text[0]], rest)
  }

  /** `prefix` put in front of the first piece. */
  function ExtendFirst(prefix: string, pieces: seq<string>): (r: seq<string>)
    requires |pieces| > 0
    ensures |r| == |pieces|
  {
    [prefix + pieces[0]] + pieces[1..]
  }

  lemma ExtendFirstTwice(a: string, b: string, pieces: seq<string>)
    requires |pieces| > 0
    ensures ExtendFirst(a, ExtendFirst(b, pieces)) == ExtendFirst(a + b, pieces)
  {
    assert a + (b + pieces[0]) == (a + b) + pieces[0];
  }

  /** No piece holds a delimiter. */
  lemma {:induction false} SplitOnPiecesFree(text: string, isDelim: char -> bool)
    ensures forall i :: 0 <= i < |SplitOn(text, isDelim)| ==> NoDelim(SplitOn(text, isDelim)[i], isDelim)
    decreases |text|
  {
    if |text| > 0 {
      SplitOnPiecesFree(text[1..], isDelim);
      var rest := SplitOn(text[1..], isDelim);
      if !isDelim(text[0]) {
        var pieces := ExtendFirst([text[0]], rest);
        assert NoDelim(pieces[0], isDelim) by {
          assert pieces[0] == [text[0]] + rest[0];
          assert NoDelim(rest[0], isDelim);
        }
        assert forall i :: 1 <= i < |pieces| ==> pieces[i] == rest[i];
      } else {
        assert forall i :: 1 <= i < |rest| + 1 ==> ([""] + rest)[i] == rest[i - 1];
      }
    }
  }

  /** Putting the delimiters back between the pieces gives the text again. */
  lemma {:induction false} SplitOnInterleave(text: string, isDelim: char -> bool)
    ensures Interleave(SplitOn(text, isDelim), DelimsOf(text, isDelim)) == text
    decreases |text|
  {
    if |text| > 0 {
      SplitOnInterleave(text[1..], isDelim);
      var rest := SplitOn(text[1..], isDelim);
      if isDelim(text[0]) {
        assert ([""] + rest)[1..] == rest;
        assert text == "" + [text[0]] + text[1..];
      } else {
        InterleaveHead(text[0], rest, DelimsOf(text[1..], isDelim));
        assert text == [text[0]] + text[1..];
      }
    }
  }

  /** Prepending a character to the first piece prepends it to the interleaving. */
  lemma InterleaveHead(c: char, pieces: seq<string>, seps: string)
    requires |pieces| == |seps| + 1
    ensures Interleave(ExtendFirst([c], pieces), seps) == [c] + Interleave(pieces, seps)
  {
    var pieces' := ExtendFirst([c], pieces);
    if |seps| > 0 {
      assert pieces'[1..] == pieces[1..];
    }
  }

  /** Joining with one repeated separator is interleaving with that separator everywhere. */
  lemma {:induction false} InterleaveUniform(pieces: seq<string>, seps: string, sep: char)
    requires |pieces| == |seps| + 1
    requires forall j :: 0 <= j < |seps| ==> seps[j] == sep
    ensures Interleave(pieces, seps) == Join(pieces, sep)
    decreases |seps|
  {
    if |seps| > 0 {
      InterleaveUniform(pieces[1..], seps[1..], sep);
    }
  }

  lemma {:induction false} ConcatAppend(a: seq<string>, b: seq<string>)
    ensures Concat(a + b) == Concat(a) + Concat(b)
    decreases |a|
  {
    if |a| == 0 {
      assert a + b == b;
    } else {
      assert (a + b)[1..] == a[1..] + b;
      ConcatAppend(a[1..], b);
    }
  }

  lemma {:induction false} DelimsOfAppend(a: string, b: string, isDelim: char -> bool)
    ensures DelimsOf(a + b, isDelim) == DelimsOf(a, isDelim) + DelimsOf(b, isDelim)
    decreases |a|
  {
    if |a| == 0 {
      assert a + b == b;
    } else {
      assert (a + b)[1..] == a[1..] + b;
      DelimsOfAppend(a[1..], b, isDelim);
    }
  }

  /** A non-delimiter in front of the text joins the first piece. */
  lemma SplitOnCons(c: char, s: string, isDelim: char -> bool)
    requires !isDelim(c)
    ensures SplitOn([c] + s, isDelim) == ExtendFirst([c], SplitOn(s, isDelim))
  {
    assert ([c] + s)[0] == c;
    assert ([c] + s)[1..] == s;
  }

  /** A delimiter-free prefix joins the first piece of what follows it. */
  lemma {:induction false} SplitOnFreePrefix(w: string, s: string, isDelim: char -> bool)
    requires NoDelim(w, isDelim)
    ensures SplitOn(w + s, isDelim) == ExtendFirst(w, SplitOn(s, isDelim))
    decreases |w|
  {
    var P := SplitOn(s, isDelim);
    if |w| == 0 {
      assert w + s == s;
      assert w + P[0] == P[0];
      assert [P[0]] + P[1..] == P;
    } else {
      NoDelimTail(w, isDelim);
      SplitOnFreePrefix(w[1..], s, isDelim);
      assert w + s == [w[0]] + (w[1..] + s);
      SplitOnCons(w[0], w[1..] + s, isDelim);
      ExtendFirstTwice([w[0]], w[1..], P);
      assert [w[0]] + w[1..] == w;
    }
  }

  lemma NoDelimTail(w: string, isDelim: char -> bool)
    requires |w| > 0 && NoDelim(w, isDelim)
    ensures !isDelim(w[0]) && NoDelim(w[1..], isDelim)
  {
    assert forall i :: 0 <= i < |w[1..]| ==> w[1..][i] == w[i + 1];
  }

  /** A delimiter-free piece followed by a delimiter is split off whole. */
  lemma SplitOnPieceThenDelim(w: string, d: char, s: string, isDelim: char -> bool)
    requires NoDelim(w, isDelim)
    requires isDelim(d)
    ensures SplitOn(w + [d] + s, isDelim) == [w] + SplitOn(s, isDelim)
  {
    assert w + [d] + s == w + ([d] + s);
    SplitOnFreePrefix(w, [d] + s, isDelim);
    assert ([d] + s)[1..] == s;
    assert w + "" == w;
  }

  /** Text without delimiters is one piece. */
  lemma SplitOnNoDelim(w: string, isDelim: char -> bool)
    requires NoDelim(w, isDelim)
    ensures SplitOn(w, isDelim) == [w]
  {
    SplitOnFreePrefix(w, "", isDelim);
    assert w + "" == w;
  }

  /** A splitting with a separator is its first piece, that separator, and a splitting of the rest. */
  lemma IsSplittingTail(text: string, pieces: seq<string>, seps: string, isDelim: char -> bool)
    requires IsSplitting(text, pieces, seps, isDelim) && |seps| > 0
    ensures NoDelim(pieces[0], isDelim) && isDelim(seps[0])
    ensures IsSplitting(Interleave(pieces[1..], seps[1..]), pieces[1..], seps[1..], isDelim)
    ensures text == pieces[0] + [seps[0]] + Interleave(pieces[1..], seps[1..])
  {
    assert NoDelim(pieces[0], isDelim);
    forall i | 0 <= i < |pieces[1..]|
      ensures NoDelim(pieces[1..][i], isDelim)
    {
      assert pieces[1..][i] == pieces[i + 1];
    }
    forall j | 0 <= j < |seps[1..]|
      ensures isDelim(seps[1..][j])
    {
      assert seps[1..][j] == seps[j + 1];
    }
  }

  /** The delimiters after a delimiter-free piece and one delimiter. */
  lemma DelimsOfPieceThenDelim(w: string, d: char, s: string, isDelim: char -> bool)
    requires NoDelim(w, isDelim) && isDelim(d)
    ensures DelimsOf(w + [d] + s, isDelim) == [d] + DelimsOf(s, isDelim)
  {
    DelimsOfAppend(w + [d], s, isDelim);
    DelimsOfAppend(w, [d], isDelim);
    SplitOnNoDelim(w, isDelim);
    assert DelimsOf([d], isDelim) == [d];
  }

  /** SplitOn returns the one splitting of `text` at delimiters there is:
      every splitting is SplitOn's pieces with the delimiters of `text` as separators. */
  lemma {:induction false} SplitOnUnique(text: string, pieces: seq<string>, seps: string, isDelim: char -> bool)
    requires IsSplitting(text, pieces, seps, isDelim)
    ensures pieces == SplitOn(text, isDelim)
    ensures seps == DelimsOf(text, isDelim)
    decreases |seps|
  {
    if |seps| == 0 {
      SplitOnNoDelim(text, isDelim);
    } else {
      var rest := Interleave(pieces[1..], seps[1..]);
      IsSplittingTail(text, pieces, seps, isDelim);
      SplitOnUnique(rest, pieces[1..], seps[1..], isDelim);
      SplitOnPieceThenDelim(pieces[0], seps[0], rest, isDelim);
      DelimsOfPieceThenDelim(pieces[0], seps[0], rest, isDelim);
      assert pieces == [pieces[0]] + pieces[1..];
      assert seps == [seps[0]] + seps[1..];
    }
  }

  /** Being a splitting at delimiters and being SplitOn's result are the same thing. */
  lemma SplitOnCharacterization(text: string, pieces: seq<string>, seps: string, isDelim: char -> bool)
    ensures IsSplitting(text, pieces, seps, isDelim)
        <==> pieces == SplitOn(text, isDelim) && seps == DelimsOf(text, isDelim)
  {
    if IsSplitting(text, pieces, seps, isDelim) {
      SplitOnUnique(text, pieces, seps, isDelim);
    }
    if pieces == SplitOn(text, isDelim) && seps == DelimsOf(text, isDelim) {
      SplitOnInterleave(text, isDelim);
      SplitOnPiecesFree(text, isDelim);
    }
  }

  /** The pieces, concatenated, are the text with its delimiters removed. */
  lemma {:induction false} SplitOnConcat(text: string, isDelim: char -> bool)
    ensures Concat(SplitOn(text, isDelim)) == Strip(text, isDelim)
    decreases |text|
  {
    if |text| > 0 {
      SplitOnConcat(text[1..], isDelim);
      var rest := SplitOn(text[1..], isDelim);
      if isDelim(text[0]) {
        assert SplitOn(text, isDelim) == [""] + rest;
        assert ([""] + rest)[1..] == rest;
      } else {
        var pieces := ExtendFirst([text[0]], rest);
        assert SplitOn(text, isDelim) == pieces;
        assert pieces[1..] == rest[1..];
        assert Concat(rest) == rest[0] + Concat(rest[1..]);
      }
    }
  }

  /** The list comprehension `[w for w in pieces if w != '']`. */
  function DropEmpty(pieces: seq<string>): (kept: seq<string>)
    ensures |kept| <= |pieces|
    ensures forall i :: 0 <= i < |kept| ==> kept[i] != ""
    ensures Concat(kept) == Concat(pieces)
  {
    if |pieces| == 0 then []
    else
      var head := if pieces[0] == "" then [] else [pieces[0]];
      var tail := DropEmpty(pieces[1..]);
      ConcatAppend(head, tail);
      assert pieces == [pieces[0]] + pieces[1..];
      head + tail
  }

  /** One word is kept exactly when it is non-empty. */
  lemma DropEmptySingle(w: string)
    ensures DropEmpty([w]) == if w == "" then [] else [w]
  {
  }

  /** The filter works word by word: filtering a concatenation filters each
      part and keeps the parts in order, so the kept words are the non-empty
      input words in their input order, repeats included. */
  lemma {:induction false} DropEmptyAppend(a: seq<string>, b: seq<string>)
    ensures DropEmpty(a + b) == DropEmpty(a) + DropEmpty(b)
    decreases |a|
  {
    if |a| == 0 {
      assert a + b == b;
    } else {
      assert (a + b)[0] == a[0];
      assert (a + b)[1..] == a[1..] + b;
      DropEmptyAppend(a[1..], b);
    }
  }

  /** The filter keeps exactly the non-empty pieces. */
  lemma {:induction false} DropEmptyMembers(pieces: seq<string>)
    ensures forall w :: w in DropEmpty(pieces) <==> w in pieces && w != ""
    decreases |pieces|
  {
    if |pieces| > 0 {
      DropEmptyMembers(pieces[1..]);
      assert pieces == [pieces[0]] + pieces[1..];
    }
  }

  /** The filter keeps only pieces that were there, so it keeps their delimiter-freedom. */
  lemma DropEmptyNoDelim(pieces: seq<string>, isDelim: char -> bool)
    requires forall i :: 0 <= i < |pieces| ==> NoDelim(pieces[i], isDelim)
    ensures forall i :: 0 <= i < |DropEmpty(pieces)| ==> NoDelim(DropEmpty(pieces)[i], isDelim)
  {
    var kept := DropEmpty(pieces);
    DropEmptyMembers(pieces);
    forall i | 0 <= i < |kept|
      ensures NoDelim(kept[i], isDelim)
    {
      assert kept[i] in pieces;
      var j :| 0 <= j < |pieces| && pieces[j] == kept[i];
    }
  }

  /** Cut at every delimiter, then drop the empty pieces: the maximal runs of
      non-delimiters, in order. */
  function SplitDropEmpty(text: string, isDelim: char -> bool): (tokens: seq<string>)
    ensures forall i :: 0 <= i < |tokens| ==> tokens[i] != "" && NoDelim(tokens[i], isDelim)
    ensures Concat(tokens) == Strip(text, isDelim)
  {
    SplitOnConcat(text, isDelim);
    SplitOnPiecesFree(text, isDelim);
    DropEmptyNoDelim(SplitOn(text, isDelim), isDelim);
    DropEmpty(SplitOn(text, isDelim))
  }

  /** Pieces that are all non-empty pass the filter unchanged. */
  lemma {:induction false} DropEmptyKeepsNonEmpty(pieces: seq<string>)
    requires forall i :: 0 <= i < |pieces| ==> pieces[i] != ""
    ensures DropEmpty(pieces) == pieces
    decreases |pieces|
  {
    if |pieces| > 0 {
      DropEmptyKeepsNonEmpty(pieces[1..]);
      assert pieces == [pieces[0]] + pieces[1..];
    }
  }

  /** Filtering twice filters nothing more. */
  lemma DropEmptyIdempotent(pieces: seq<string>)
    ensures DropEmpty(DropEmpty(pieces)) == DropEmpty(pieces)
  {
    DropEmptyKeepsNonEmpty(DropEmpty(pieces));
  }

  /** Split-then-filter: a leading delimiter contributes nothing. */
  lemma DropSplitSkip(s: string, isDelim: char -> bool)
    requires |s| > 0 && isDelim(s[0])
    ensures SplitDropEmpty(s, isDelim) == SplitDropEmpty(s[1..], isDelim)
  {
    assert SplitOn(s, isDelim) == [""] + SplitOn(s[1..], isDelim);
    assert ([""] + SplitOn(s[1..], isDelim))[1..] == SplitOn(s[1..], isDelim);
  }

  /** Split-then-filter: a maximal non-empty run of non-delimiters is one token. */
  lemma DropSplitWord(w: string, s: string, isDelim: char -> bool)
    requires w != "" && NoDelim(w, isDelim)
    requires |s| == 0 || isDelim(s[0])
    ensures SplitDropEmpty(w + s, isDelim) == [w] + SplitDropEmpty(s, isDelim)
  {
    SplitOnFreePrefix(w, s, isDelim);
    var ps := SplitOn(s, isDelim);
    if |s| == 0 {
      assert ps == [""];
    } else {
      assert ps == [""] + SplitOn(s[1..], isDelim);
      assert DropEmpty(ps) == DropEmpty(ps[1..]);
    }
    assert w + ps[0] == w;
    var whole := [w] + ps[1..];
    assert whole[1..] == ps[1..];
  }

  /** Index form of DropSplitSkip: a delimiter at position `i` contributes nothing. */
  lemma SkipDelimAt(text: string, i: nat, isDelim: char -> bool)
    requires i < |text| && isDelim(text[i])
    ensures SplitDropEmpty(text[i..], isDelim) == SplitDropEmpty(text[i + 1..], isDelim)
  {
    assert text[i..][1..] == text[i + 1..];
    DropSplitSkip(text[i..], isDelim);
  }

  /** A delimiter-free run `text[j..i]` grows by a non-delimiter at position `i`. */
  lemma ExtendFreeRun(text: string, j: nat, i: nat, isDelim: char -> bool)
    requires j <= i < |text|
    requires NoDelim(text[j..i], isDelim) && !isDelim(text[i])
    ensures NoDelim(text[j..i + 1], isDelim)
  {
    var run := text[j..i + 1];
    forall k | 0 <= k < |run|
      ensures !isDelim(run[k])
    {
      if k < i - j {
        assert run[k] == text[j..i][k];
      } else {
        assert run[k] == text[i];
      }
    }
  }

  /** Index form of DropSplitWord: the maximal run `text[j..i]` is the next token. */
  lemma TakeRunAt(text: string, j: nat, i: nat, isDelim: char -> bool)
    requires j < i <= |text|
    requires NoDelim(text[j..i], isDelim)
    requires i == |text| || isDelim(text[i])
    ensures SplitDropEmpty(text[j..], isDelim) == [text[j..i]] + SplitDropEmpty(text[i..], isDelim)
  {
    assert text[j..] == text[j..i] + text[i..];
    assert |text[j..i]| > 0;
    DropSplitWord(text[j..i], text[i..], isDelim);
  }

  /** A non-empty delimiter-free token splits and filters to itself. */
  lemma DropSplitFixedPoint(t: string, isDelim: char -> bool)
    requires t != "" && NoDelim(t, isDelim)
    ensures SplitDropEmpty(t, isDelim) == [t]
  {
    DropSplitWord(t, "", isDelim);
    assert t + "" == t;
  }

  /** Split-then-filter yields no token exactly when the text is all delimiters. */
  lemma DropSplitEmptyIff(text: string, isDelim: char -> bool)
    ensures SplitDropEmpty(text, isDelim) == []
        <==> forall i :: 0 <= i < |text| ==> isDelim(text[i])
  {
    var tokens := SplitDropEmpty(text, isDelim);
    if tokens == [] {
      StripEmptyAllDelims(text, isDelim);
    } else {
      assert Concat(tokens) == tokens[0] + Concat(tokens[1..]);
      assert |Strip(text, isDelim)| > 0;
      assert !isDelim(Strip(text, isDelim)[0]);
      StripMember(text, Strip(text, isDelim)[0], isDelim);
    }
  }

  /** Stripping leaves nothing only when every character is a delimiter. */
  lemma {:induction false} StripEmptyAllDelims(text: string, isDelim: char -> bool)
    requires Strip(text, isDelim) == ""
    ensures forall i :: 0 <= i < |text| ==> isDelim(text[i])
    decreases |text|
  {
    if |text| > 0 {
      StripEmptyAllDelims(text[1..], isDelim);
      assert forall i :: 1 <= i < |text| ==> text[i] == text[1..][i - 1];
    }
  }

  /** Every character left by stripping comes from the text. */
  lemma {:induction false} StripMember(text: string, c: char, isDelim: char -> bool)
    requires c in Strip(text, isDelim)
    ensures exists i :: 0 <= i < |text| && text[i] == c && !isDelim(text[i])
    decreases |text|
  {
    if text[0] == c && !isDelim(c) {
      assert text[0] == c;
    } else {
      StripMember(text[1..], c, isDelim);
      var i :| 0 <= i < |text[1..]| && text[1..][i] == c && !isDelim(text[1..][i]);
      assert text[i + 1] == c;
    }
  }

  /** Advance past the delimiters starting at `i`; they contribute no token. */
  method SkipDelims(text: string, i: nat, isDelim: char -> bool) returns (k: nat)
    requires i <= |text|
    ensures i <= k <= |text|
    ensures k == |text| || !isDelim(text[k])
    ensures SplitDropEmpty(text[k..], isDelim) == SplitDropEmpty(text[i..], isDelim)
  {
    k := i;
    while k < |text| && isDelim(text[k])
      invariant i <= k <= |text|
      invariant SplitDropEmpty(text[k..], isDelim) == SplitDropEmpty(text[i..], isDelim)
    {
      SkipDelimAt(text, k, isDelim);
      k := k + 1;
    }
  }

  /** Advance past the non-delimiters starting at `j`: `text[j..k]` is a maximal run. */
  method ScanRun(text: string, j: nat, isDelim: char -> bool) returns (k: nat)
    requires j <= |text|
    ensures j <= k <= |text|
    ensures NoDelim(text[j..k], isDelim)
    ensures k == |text| || isDelim(text[k])
  {
    k := j;
    while k < |text| && !isDelim(text[k])
      invariant j <= k <= |text|
      invariant NoDelim(text[j..k], isDelim)
    {
      ExtendFreeRun(text, j, k, isDelim);
      k := k + 1;
    }
  }

  /** The scan that finds the maximal runs of non-delimiters directly, one
      pass from left to right, without building the empty pieces. */
  method SplitRuns(text: string, isDelim: char -> bool) returns (words: seq<string>)
    ensures words == SplitDropEmpty(text, isDelim)
  {
    words := [];
    var i: nat := 0;
    while i < |text|
      invariant i <= |text|
      invariant words + SplitDropEmpty(text[i..], isDelim) == SplitDropEmpty(text, isDelim)
    {
      i := SkipDelims(text, i, isDelim);
      if i == |text| {
        break;
      }
      var j := i;
      i := ScanRun(text, j, isDelim);
      TakeRunAt(text, j, i, isDelim);
      words := words + [text[j..i]];
    }
    assert text[|text|..] == "";
  }
}
