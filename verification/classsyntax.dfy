/**
 How Python's `re` reads a character set `[...]`, restricted to what the
 tokenizer's patterns can contain: literal characters, ranges `a-z`, a leading
 `^`, and escapes of non-alphanumeric characters. This is the reference the
 delimiter predicates of `CharClasses` are checked against: the fixed class of
 the specialchars mode is what its pattern reads as, and a `LiteralClass`
 string, spliced between brackets by the custom mode, reads as exactly its own
 characters.
 */
module ClassSyntax {
  import opened CharClasses

  /** One member of a set: a single character or an inclusive range. */
  datatype ClassItem = Lit(c: char) | Range(lo: char, hi: char)

  /** The outcome of reading a set whose `[` is already consumed. `Closed`
      gives the items read, whether a leading `^` negates them, and the pattern
      text after the closing `]`. The failures are the parser's own errors; an
      escape of a letter or digit (`\d`, `\w`, `\n`, an octal escape, ...) is
      outside this model and reads as `Unmodelled`. */
  datatype SetRead =
    | Closed(negated: bool, items: seq<ClassItem>, rest: string)
    | Unterminated
    | BadRange
    | Unmodelled

  /** A character matches an item. */
  predicate ItemMatches(item: ClassItem, c: char) {
    match item
    case Lit(d) => c == d
    case Range(lo, hi) => lo <= c <= hi
  }

  /** A character matches some item of the set. */
  predicate InItems(items: seq<ClassItem>, c: char) {
    exists i :: 0 <= i < |items| && ItemMatches(items[i], c)
  }

  predicate IsAsciiAlnum(c: char) {
    'a' <= c <= 'z' || 'A' <= c <= 'Z' || '0' <= c <= '9'
  }

  /** One set member as written: a character, or a backslash and the
      non-alphanumeric character it makes literal. */
  datatype Atom = Atom(c: char, len: nat) | BadAtom

  function ReadAtom(s: string): (a: Atom)
    requires |s| > 0
    ensures a.Atom? ==> 1 <= a.len <= |s|
  {
    if s[0] != '\\' then Atom(s[0], 1)
    else if |s| >= 2 && !IsAsciiAlnum(s[1]) then Atom(s[1], 2)
    else BadAtom
  }

  /** The body of a set after `[` and any `^`, read member by member. A `]`
      closes the set unless it comes first; a `-` between two members makes a
      range, and a `-` just before the closing `]` is literal. */
  function ReadSet(s: string, items: seq<ClassItem>): (r: SetRead)
    decreases |s|
  {
    if |s| == 0 then Unterminated
    else if s[0] == ']' && |items| > 0 then Closed(false, items, s[1..])
    else
      match ReadAtom(s)
      case BadAtom => Unmodelled
      case Atom(c, n) =>
        var t := s[n..];
        if |t| > 0 && t[0] == '-' then
          var u := t[1..];
          if |u| == 0 then Unterminated
          else if u[0] == ']' then Closed(false, items + [Lit(c), Lit('-')], u[1..])
          else
            match ReadAtom(u)
            case BadAtom => Unmodelled
            case Atom(d, m) =>
              if d < c then BadRange else ReadSet(u[m..], items + [Range(c, d)])
        else ReadSet(t, items + [Lit(c)])
  }

  /** The pattern `'[' + body + ']'`, read after its opening bracket. */
  function ReadClass(body: string): SetRead {
    var s := body + "]";
    if s[0] == '^' then
      match ReadSet(s[1..], [])
      case Closed(_, items, rest) => Closed(true, items, rest)
      case other => other
    else ReadSet(s, [])
  }

  /** The pattern `[body]` is one complete set, not negated, with these items. */
  predicate ReadsAs(body: string, items: seq<ClassItem>) {
    ReadClass(body) == Closed(false, items, "")
  }

  /** Each character of `w` as a literal item. */
  function Lits(w: string): (items: seq<ClassItem>)
    ensures |items| == |w|
    ensures forall i :: 0 <= i < |w| ==> items[i] == Lit(w[i])
  {
    if |w| == 0 then [] else [Lit(w[0])] + Lits(w[1..])
  }

  lemma AppendAssoc(a: seq<ClassItem>, b: seq<ClassItem>, c: seq<ClassItem>)
    ensures (a + b) + c == a + (b + c)
  {
  }

  lemma LitsCons(c: char, w: string)
    ensures Lits([c] + w) == [Lit(c)] + Lits(w)
  {
    assert ([c] + w)[1..] == w;
  }

  /** The literal items of `w` match exactly the characters of `w`. */
  lemma LitsMatch(w: string, c: char)
    ensures InItems(Lits(w), c) <==> c in w
  {
    if c in w {
      var i :| 0 <= i < |w| && w[i] == c;
      assert ItemMatches(Lits(w)[i], c);
    }
  }

  /** What is left of a literal class after some of it has been read. */
  predicate LiteralTail(w: string, atStart: bool) {
    && (forall i :: 0 <= i < |w| ==> w[i] != '\\')
    && (forall i :: 0 <= i < |w| ==> w[i] == ']' ==> i == 0 && atStart)
    && (forall i :: 0 < i < |w| - 1 ==> w[i] != '-')
  }

  lemma LiteralTailRest(w: string, atStart: bool)
    requires |w| > 0 && LiteralTail(w, atStart)
    ensures LiteralTail(w[1..], false)
  {
    var v := w[1..];
    forall i | 0 <= i < |v|
      ensures v[i] != '\\' && v[i] != ']'
    {
      assert v[i] == w[i + 1];
    }
    forall i | 0 < i < |v| - 1
      ensures v[i] != '-'
    {
      assert v[i] == w[i + 1];
    }
  }

  /** Reading the rest of a literal class appends one literal per character. */
  lemma {:induction false} ReadSetLiteral(w: string, items: seq<ClassItem>)
    requires LiteralTail(w, items == [])
    requires items != [] || |w| > 0
    ensures ReadSet(w + "]", items) == Closed(false, items + Lits(w), "")
    decreases |w|
  {
    var s := w + "]";
    if |w| == 0 {
      assert s == "]";
      assert items + Lits(w) == items;
    } else {
      assert s[0] == w[0];
      assert ReadAtom(s) == Atom(w[0], 1);
      var t := s[1..];
      if |w| == 1 {
        assert t == "]";
        assert Lits(w) == [Lit(w[0])];
      } else if w[1] == '-' {
        assert |w| == 2;
        assert t == "-]";
        assert Lits(w) == [Lit(w[0]), Lit('-')];
        assert items + Lits(w) == items + [Lit(w[0]), Lit('-')];
      } else {
        assert t == w[1..] + "]";
        LiteralTailRest(w, items == []);
        ReadSetLiteral(w[1..], items + [Lit(w[0])]);
        assert w == [w[0]] + w[1..];
        LitsCons(w[0], w[1..]);
        AppendAssoc(items, [Lit(w[0])], Lits(w[1..]));
      }
    }
  }

  /** The custom characters spliced between brackets, `'[{}]'.format(chars)`,
      read as one set whose members are exactly those characters, so the
      custom mode's delimiter test is the regular expression's own. */
  lemma LiteralClassReadsLiterally(chars: string)
    requires LiteralClass(chars)
    ensures ReadsAs(chars, Lits(chars))
    ensures forall c :: InItems(Lits(chars), c) <==> CustomDelim(chars)(c)
  {
    assert chars[0] != '^';
    assert (chars + "]")[0] == chars[0];
    ReadSetLiteral(chars, []);
    assert [] + Lits(chars) == Lits(chars);
    forall c
      ensures InItems(Lits(chars), c) <==> CustomDelim(chars)(c)
    {
      LitsMatch(chars, c);
    }
  }

  /** From position `k` on, the set body `w` is written with plain characters
      and escapes of non-alphanumeric characters only, with no bare `-` (so no
      range) and no bare `]`, and it denotes the characters of `m` from
      position `j` on, one member per plain character or escape. */
  predicate Denotes(w: string, k: nat, m: string, j: nat)
    decreases |w| - k
  {
    if k >= |w| then j == |m|
    else if j >= |m| then false
    else if w[k] == '\\' then
      k + 1 < |w| && !IsAsciiAlnum(w[k + 1]) && m[j] == w[k + 1] && Denotes(w, k + 2, m, j + 1)
    else w[k] != '-' && w[k] != ']' && m[j] == w[k] && Denotes(w, k + 1, m, j + 1)
  }

  /** One step of the reader: an atom not followed by `-` becomes a literal. */
  lemma ReadSetStep(s: string, items: seq<ClassItem>, c: char, n: nat)
    requires |s| > 0 && (s[0] != ']' || items == [])
    requires ReadAtom(s) == Atom(c, n)
    requires |s[n..]| == 0 || s[n..][0] != '-'
    ensures ReadSet(s, items) == ReadSet(s[n..], items + [Lit(c)])
  {
  }

  /** The first member of a denoting body: its atom, and what follows it. */
  lemma DenotedHead(w: string, k: nat, m: string, j: nat) returns (n: nat)
    requires k < |w| && j <= |m|
    requires Denotes(w, k, m, j)
    ensures 1 <= n && k + n <= |w| && j < |m|
    ensures ReadAtom(w[k..] + "]") == Atom(m[j], n)
    ensures (w[k..] + "]")[0] != ']'
    ensures (w[k..] + "]")[n..] == w[k + n..] + "]"
    ensures Denotes(w, k + n, m, j + 1)
    ensures k + n == |w| || w[k + n] != '-'
  {
    var s := w[k..] + "]";
    n := if w[k] == '\\' then 2 else 1;
    assert s[0] == w[k] && s[n - 1] == w[k + n - 1];
    assert s[n..] == w[k + n..] + "]";
  }

  /** Reading such a body appends one literal per character it denotes. */
  lemma {:induction false} ReadSetDenoted(w: string, k: nat, m: string, j: nat, items: seq<ClassItem>)
    requires k <= |w| && j <= |m|
    requires Denotes(w, k, m, j)
    requires items != [] || k < |w|
    ensures ReadSet(w[k..] + "]", items) == Closed(false, items + Lits(m[j..]), "")
    decreases |w| - k
  {
    var s := w[k..] + "]";
    if k == |w| {
      assert s == "]";
      assert items + Lits(m[j..]) == items;
    } else {
      var n := DenotedHead(w, k, m, j);
      if k + n < |w| {
        assert s[n..][0] == w[k + n];
      }
      ReadSetStep(s, items, m[j], n);
      ReadSetDenoted(w, k + n, m, j + 1, items + [Lit(m[j])]);
      assert m[j..] == [m[j]] + m[j + 1..];
      LitsCons(m[j], m[j + 1..]);
      AppendAssoc(items, [Lit(m[j])], Lits(m[j + 1..]));
    }
  }

  /** The body of the specialchars pattern exactly as the source writes it,
      with `-`, `[`, `]`, `'` and the backslash escaped. */
  const SpecialPattern: string := "`\\-=~!@#$%^&*()_+\\[\\]{};\\'\\\\:\"|<,./<>? "

  /** The characters it denotes; `<` appears twice in the source. */
  const SpecialMembers: string := "`-=~!@#$%^&*()_+[]{};'\\:\"|<,./<>? "

  /** The pattern, read escape by escape, denotes exactly those characters. */
  lemma SpecialPatternDenotes()
    ensures Denotes(SpecialPattern, 0, SpecialMembers, 0)
  {
    assert |SpecialPattern| == 39 && |SpecialMembers| == 34;
    assert Denotes(SpecialPattern, 39, SpecialMembers, 34);
    assert Denotes(SpecialPattern, 37, SpecialMembers, 32);
    assert Denotes(SpecialPattern, 35, SpecialMembers, 30);
    assert Denotes(SpecialPattern, 33, SpecialMembers, 28);
    assert Denotes(SpecialPattern, 31, SpecialMembers, 26);
    assert Denotes(SpecialPattern, 29, SpecialMembers, 24);
    assert Denotes(SpecialPattern, 26, SpecialMembers, 22);
    assert Denotes(SpecialPattern, 23, SpecialMembers, 20);
    assert Denotes(SpecialPattern, 21, SpecialMembers, 18);
    assert Denotes(SpecialPattern, 17, SpecialMembers, 16);
    assert Denotes(SpecialPattern, 15, SpecialMembers, 14);
    assert Denotes(SpecialPattern, 13, SpecialMembers, 12);
    assert Denotes(SpecialPattern, 11, SpecialMembers, 10);
    assert Denotes(SpecialPattern, 9, SpecialMembers, 8);
    assert Denotes(SpecialPattern, 7, SpecialMembers, 6);
    assert Denotes(SpecialPattern, 5, SpecialMembers, 4);
    assert Denotes(SpecialPattern, 3, SpecialMembers, 2);
    assert Denotes(SpecialPattern, 0, SpecialMembers, 0);
  }

  /** The characters the pattern denotes are exactly the special class. */
  lemma SpecialMembersAreSpecialClass(c: char)
    ensures c in SpecialMembers <==> IsSpecialChar(c)
  {
  }

  /** A body that denotes `m` and does not start with `^`, spliced between
      brackets, is one set whose items are the literals of `m`. */
  lemma DenotedReadsAs(body: string, m: string)
    requires |body| > 0 && body[0] != '^'
    requires Denotes(body, 0, m, 0)
    ensures ReadsAs(body, Lits(m))
  {
    ReadSetDenoted(body, 0, m, 0, []);
    assert body[0..] == body;
    assert (body + "]")[0] == body[0];
    assert [] + Lits(m) == Lits(m);
  }

  /** The literal items of the pattern match exactly the special class. */
  lemma SpecialItemsMatch(c: char)
    ensures InItems(Lits(SpecialMembers), c) <==> IsSpecialChar(c)
  {
    LitsMatch(SpecialMembers, c);
    SpecialMembersAreSpecialClass(c);
  }

  /** The pattern of the specialchars mode reads as one set of literal
      characters, and those are exactly the special class. */
  lemma SpecialPatternReadsSpecialClass()
    ensures ReadsAs(SpecialPattern, Lits(SpecialMembers))
    ensures forall c :: InItems(Lits(SpecialMembers), c) <==> IsSpecialChar(c)
  {
    SpecialPatternDenotes();
    DenotedReadsAs(SpecialPattern, SpecialMembers);
    forall c
      ensures InItems(Lits(SpecialMembers), c) <==> IsSpecialChar(c)
    {
      SpecialItemsMatch(c);
    }
  }

  /** Outside `LiteralClass` the spliced set means something else. A `-`
      between two characters makes a range: `[a-z]` holds every lower-case letter. */
  lemma InnerDashIsRange(body: string)
    requires body == "a-z"
    ensures ReadsAs(body, [Range('a', 'z')])
  {
    var s := body + "]";
    assert s == "a-z]";
    assert ReadAtom(s) == Atom('a', 1);
    assert s[1..] == "-z]" && s[1..][1..] == "z]";
    assert ReadAtom("z]") == Atom('z', 1);
    assert "z]"[1..] == "]";
    assert [] + [Range('a', 'z')] == [Range('a', 'z')];
    assert ReadSet(s, []) == ReadSet("]", [Range('a', 'z')]);
    assert ReadSet("]", [Range('a', 'z')]) == Closed(false, [Range('a', 'z')], "");
  }

  /** A leading `^` negates the set: `[^a]` matches every character but `a`. */
  lemma LeadingCaretNegates(body: string)
    requires body == "^a"
    ensures ReadClass(body) == Closed(true, [Lit('a')], "")
  {
    var s := body + "]";
    assert s == "^a]" && s[1..] == "a]";
    assert ReadAtom("a]") == Atom('a', 1);
    assert "a]"[1..] == "]";
    assert ReadSet("]", [Lit('a')]) == Closed(false, [Lit('a')], "");
  }

  /** A `]` after the first character closes the set early, and the rest of
      the custom string becomes ordinary pattern text after it. */
  lemma InnerBracketCloses(body: string)
    requires body == "a]b"
    ensures ReadClass(body) == Closed(false, [Lit('a')], "b]")
  {
    var s := body + "]";
    assert s == "a]b]";
    assert ReadAtom(s) == Atom('a', 1);
    assert s[1..] == "]b]" && "]b]"[1..] == "b]";
    assert [] + [Lit('a')] == [Lit('a')];
    assert ReadSet(s, []) == ReadSet("]b]", [Lit('a')]);
    assert ReadSet("]b]", [Lit('a')]) == Closed(false, [Lit('a')], "b]");
  }

  /** An empty custom string gives `[]`, whose `]` is a literal member, so
      the set never closes: `re` reports an unterminated character set. */
  lemma EmptyClassUnterminated(body: string)
    requires body == ""
    ensures ReadClass(body) == Unterminated
  {
    var s := body + "]";
    assert s == "]";
    assert ReadAtom(s) == Atom(']', 1);
    assert s[1..] == "";
    assert s[0] != '^';
    assert ReadSet(s, []) == ReadSet("", [] + [Lit(']')]);
  }
}
