/** What a description looks like as text: tokens with white space and comments between
    them.  The lexer reads a sequence of tokens off a text exactly when the text is some
    layout of that sequence, so layout never changes a token and no other text is read. */
module Rendering {
  import opened Outcomes
  import opened Lexing

  /** One blank character, or one comment that closes. */
  datatype Gap = Blank(c: char) | LineComment(body: string) | BlockComment(body: string) {
    predicate Closed() {
      match this
      case Blank(c) => IsSpace(c)
      case LineComment(body) => '\n' !in body
      case BlockComment(body) => forall i :: 0 <= i < |body| ==> !ClosesAt(body, i)
    }

    function Chars(): string {
      match this
      case Blank(c) => [c]
      case LineComment(body) => "//" + body + "\n"
      case BlockComment(body) => "/*" + body + "*/"
    }
  }

  datatype Lex = Lex(kind: Tok, text: string)

  datatype Lexes = Done | More(head: Lex, tail: Lexes)

  /** A text as a layout: tokens and gaps in order, and at the end possibly a line comment
      that the end of the text cuts off. */
  datatype Text = Closing(comment: string) | Spaced(gap: Gap, rest: Text) | Word(lex: Lex, rest: Text)

  function Chars(t: Text): string {
    match t
    case Closing(comment) => comment
    case Spaced(gap, rest) => gap.Chars() + Chars(rest)
    case Word(lex, rest) => lex.text + Chars(rest)
  }

  function LexesOf(t: Text): Lexes {
    match t
    case Closing(_) => Done
    case Spaced(_, rest) => LexesOf(rest)
    case Word(lex, rest) => More(lex, LexesOf(rest))
  }

  /** Would c, standing right behind lex, be read as part of it? */
  predicate Sticks(lex: Lex, c: char) {
    || ((lex.kind == Ident || lex.kind == Int) && Continues(lex.kind, c))
    || (lex.kind == Colon && c == ':')
  }

  predicate CutOffComment(s: string) {
    s == "" || (Opens(s, 0, '/') && '\n' !in s)
  }

  /** A well-formed layout: gaps are closed, token texts are lexemes, and a gap stands
      wherever two tokens would otherwise run together. */
  predicate LaidOut(t: Text) {
    match t
    case Closing(comment) => CutOffComment(comment)
    case Spaced(gap, rest) => gap.Closed() && LaidOut(rest)
    case Word(lex, rest) =>
      && lex.kind != End && IsLexeme(lex.kind, lex.text)
      && LaidOut(rest)
      && (rest.Word? ==> !Sticks(lex, rest.lex.text[0]))
  }

  /** All that the lexer delivers from offset n on, up to the end of the text. */
  function ReadAll(src: string, n: nat): Outcome<Lexes>
    requires n <= |src|
    decreases |src| - n
  {
    var (token, e) :- NextToken(src, n);
    if token.kind == End then Ok(Done)
    else
      var rest :- ReadAll(src, e);
      Ok(More(Lex(token.kind, token.text), rest))
  }

  predicate StandsAt(src: string, n: nat, s: string) {
    n + |s| <= |src| && src[n..n + |s|] == s
  }

  lemma CharsStand(src: string, n: nat, s: string)
    requires StandsAt(src, n, s)
    ensures forall i :: 0 <= i < |s| ==> src[n + i] == s[i]
  {
    forall i | 0 <= i < |s| ensures src[n + i] == s[i] {
      assert src[n..n + |s|][i] == src[n + i];
    }
  }

  lemma SkipGap(src: string, n: nat, g: Gap)
    requires g.Closed() && StandsAt(src, n, g.Chars())
    ensures SkipLayout(src, n) == SkipLayout(src, n + |g.Chars()|)
  {
    CharsStand(src, n, g.Chars());
    match g
    case Blank(c) => assert src[n + 0] == c;
    case LineComment(body) =>
      assert src[n + 0] == '/' && src[n + 1] == '/';
      var close := n + 2 + |body|;
      forall i | n + 2 <= i < close ensures src[i] != '\n' {
        assert src[n + (i - n)] == g.Chars()[i - n] == body[i - n - 2];
      }
      assert src[n + (close - n)] == '\n';
      assert LineEnd(src, n + 2) == close;
    case BlockComment(body) =>
      assert src[n + 0] == '/' && src[n + 1] == '*';
      var close := n + 2 + |body|;
      assert src[n + (close - n)] == '*' && src[n + (close + 1 - n)] == '/';
      forall i | n + 2 <= i < close ensures !ClosesAt(src, i) {
        assert src[n + (i - n)] == g.Chars()[i - n] == body[i - n - 2];
        assert src[n + (i + 1 - n)] == g.Chars()[i + 1 - n];
        assert !ClosesAt(body, i - n - 2);
      }
      assert ClosesAt(src, close);
      assert CommentEnd(src, n + 2) == close;
  }

  /** A lexeme that nothing sticks to is read whole. */
  lemma ReadLexeme(src: string, n: nat, lex: Lex)
    requires lex.kind != End && IsLexeme(lex.kind, lex.text) && StandsAt(src, n, lex.text)
    requires n + |lex.text| < |src| ==> !Sticks(lex, src[n + |lex.text|])
    ensures SkipLayout(src, n) == Ok(n)
    ensures LexemeAt(src, n) == Some((lex.kind, n + |lex.text|))
  {
    hide SkipLayout, LexemeAt;
    NoLayout(src, n, lex);
    if lex.kind == Ident || lex.kind == Int {
      WordIsRead(src, n, lex);
    } else {
      MarkIsRead(src, n, lex);
    }
  }

  lemma MarkIsRead(src: string, n: nat, lex: Lex)
    requires lex.kind !in {Ident, Int, End} && lex.text == Spelling(lex.kind) && StandsAt(src, n, lex.text)
    requires lex.kind == Colon && n + 1 < |src| ==> src[n + 1] != ':'
    ensures LexemeAt(src, n) == Some((lex.kind, n + |lex.text|))
  {
    hide WordEnd;
    assert src[n] == src[n..n + |lex.text|][0] == lex.text[0];
    if lex.kind == Scope {
      assert src[n + 1] == src[n..n + 2][1] == ':';
    }
  }

  lemma WordIsRead(src: string, n: nat, lex: Lex)
    requires (lex.kind == Ident || lex.kind == Int) && IsWord(lex.kind, lex.text) && StandsAt(src, n, lex.text)
    requires n + |lex.text| < |src| ==> !Continues(lex.kind, src[n + |lex.text|])
    ensures LexemeAt(src, n) == Some((lex.kind, n + |lex.text|))
  {
    WordIsWhole(src, n, lex);
    hide WordEnd, StandsAt;
  }

  lemma NoLayout(src: string, n: nat, lex: Lex)
    requires lex.kind != End && IsLexeme(lex.kind, lex.text) && StandsAt(src, n, lex.text)
    ensures SkipLayout(src, n) == Ok(n)
  {
    assert src[n] == src[n..n + |lex.text|][0] == lex.text[0];
  }

  lemma WordIsWhole(src: string, n: nat, lex: Lex)
    requires (lex.kind == Ident || lex.kind == Int) && IsWord(lex.kind, lex.text) && StandsAt(src, n, lex.text)
    requires n + |lex.text| < |src| ==> !Continues(lex.kind, src[n + |lex.text|])
    ensures src[n] == lex.text[0] && WordEnd(src, n + 1, lex.kind) == n + |lex.text|
  {
    hide Continues;
    CharsStand(src, n, lex.text);
    assert src[n + 0] == lex.text[0];
    forall i | n + 1 <= i < n + |lex.text| ensures Continues(lex.kind, src[i]) {
      assert src[n + (i - n)] == lex.text[i - n];
    }
  }

  /** The text behind s, when s stands in front of t. */
  lemma Behind(src: string, n: nat, s: string, t: string)
    requires n <= |src| && src[n..] == s + t
    ensures StandsAt(src, n, s) && src[n + |s|..] == t
  {
    assert src[n..n + |s|] == (s + t)[..|s|] == s;
    assert src[n + |s|..] == (s + t)[|s|..] == t;
  }

  /** The first character of a layout is a blank, a slash, or the first token's own. */
  lemma FirstChar(t: Text)
    requires LaidOut(t) && Chars(t) != ""
    ensures var c := Chars(t)[0]; IsSpace(c) || c == '/' || (t.Word? && c == t.lex.text[0])
  {
  }

  lemma CutOffIsSkipped(src: string, n: nat)
    requires n <= |src| && CutOffComment(src[n..])
    ensures SkipLayout(src, n) == Ok(|src|) && ReadAll(src, n) == Ok(Done)
  {
    if n < |src| {
      assert src[n..][0] == '/' && src[n..][1] == '/';
      forall i | n <= i < |src| ensures src[i] != '\n' {
        assert src[n..][i - n] == src[i];
      }
      assert LineEnd(src, n + 2) == |src|;
    }
  }

  lemma ReadPastLayout(src: string, n: nat, m: nat)
    requires n <= |src| && m <= |src| && SkipLayout(src, n) == SkipLayout(src, m)
    ensures ReadAll(src, n) == ReadAll(src, m)
  {
    assert NextToken(src, n) == NextToken(src, m);
  }

  lemma ReadWord(src: string, n: nat, lex: Lex)
    requires n < |src| && SkipLayout(src, n) == Ok(n)
    requires lex.kind != End && LexemeAt(src, n) == Some((lex.kind, n + |lex.text|))
    requires src[n..n + |lex.text|] == lex.text
    ensures var rest := ReadAll(src, n + |lex.text|);
            ReadAll(src, n) == if rest.Ok? then Ok(More(lex, rest.value)) else rest
  {
    assert TokenAt(src, n).value.0.text == lex.text;
  }

  lemma NoRunOn(src: string, e: nat, lex: Lex, rest: Text)
    requires e <= |src| && src[e..] == Chars(rest) && LaidOut(Word(lex, rest))
    ensures e < |src| ==> !Sticks(lex, src[e])
  {
    if e < |src| {
      assert src[e] == Chars(rest)[0];
      FirstChar(rest);
    }
  }

  /** Every layout of a token sequence is read back as that sequence. */
  lemma {:induction false} LayoutIsRead(src: string, n: nat, t: Text)
    requires n <= |src| && src[n..] == Chars(t) && LaidOut(t)
    ensures ReadAll(src, n) == Ok(LexesOf(t))
    decreases t
  {
    hide NextToken, SkipLayout, LexemeAt, ReadAll, Sticks, IsLexeme, CutOffComment;
    match t
    case Closing(comment) =>
      CutOffIsSkipped(src, n);
    case Spaced(gap, rest) =>
      Behind(src, n, gap.Chars(), Chars(rest));
      SkipGap(src, n, gap);
      ReadPastLayout(src, n, n + |gap.Chars()|);
      LayoutIsRead(src, n + |gap.Chars()|, rest);
    case Word(lex, rest) =>
      Behind(src, n, lex.text, Chars(rest));
      var e := n + |lex.text|;
      NoRunOn(src, e, lex, rest);
      ReadLexeme(src, n, lex);
      ReadWord(src, n, lex);
      LayoutIsRead(src, e, rest);
  }

  lemma NothingSticks(src: string, n: nat)
    requires n < |src| && LexemeAt(src, n).Some?
    ensures var (kind, e) := LexemeAt(src, n).value;
            e < |src| ==> !Sticks(Lex(kind, src[n..e]), src[e])
  {
  }

  /** Nothing sticks to what the lexer took, and it goes on right behind it. */
  lemma TakenWhole(src: string, n: nat, ls: Lexes)
    requires n < |src| && SkipLayout(src, n) == Ok(n) && ReadAll(src, n) == Ok(ls)
    ensures ls.More? && ls.head.kind != End && IsLexeme(ls.head.kind, ls.head.text)
    ensures ls.head.text != "" && StandsAt(src, n, ls.head.text)
    ensures var e := n + |ls.head.text|;
            (e < |src| ==> !Sticks(ls.head, src[e])) && ReadAll(src, e) == Ok(ls.tail)
  {
    hide SkipLayout, LexemeAt, Sticks, IsLexeme;
    assert NextToken(src, n) == TokenAt(src, n);
    NothingSticks(src, n);
  }

  /** Behind, the other way round. */
  lemma InFront(src: string, n: nat, s: string)
    requires n <= |src| && StandsAt(src, n, s)
    ensures src[n..] == s + src[n + |s|..]
  {
    assert src[n..] == src[n..n + |s|] + src[n + |s|..];
  }

  lemma CommentGap(src: string, n: nat, e: nat, g: Gap)
    requires g.BlockComment? ==> Opens(src, n, '*') && n + 2 <= e && ClosesAt(src, e) && g.body == src[n + 2..e]
    requires g.LineComment? ==>
               Opens(src, n, '/') && n + 2 <= e < |src| && src[e] == '\n' && g.body == src[n + 2..e]
    requires !g.Blank?
    ensures StandsAt(src, n, g.Chars())
  {
    assert src[n..n + 2] == [src[n], src[n + 1]];
    if g.BlockComment? {
      assert src[n..e + 2] == src[n..n + 2] + src[n + 2..e] + [src[e], src[e + 1]];
    } else {
      assert src[n..e + 1] == src[n..n + 2] + src[n + 2..e] + [src[e]];
    }
  }

  /** The gap in front of a text that starts with one. */
  lemma LeadingGap(src: string, n: nat) returns (g: Gap)
    requires n < |src| && SkipLayout(src, n).Ok? && SkipLayout(src, n) != Ok(n)
    requires Opens(src, n, '/') ==> LineEnd(src, n + 2) < |src|
    ensures g.Closed() && StandsAt(src, n, g.Chars())
  {
    if IsSpace(src[n]) {
      g := Blank(src[n]);
    } else if Opens(src, n, '/') {
      var e := LineEnd(src, n + 2);
      g := LineComment(src[n + 2..e]);
      CommentGap(src, n, e, g);
    } else {
      var e := CommentEnd(src, n + 2);
      g := BlockComment(src[n + 2..e]);
      forall i | 0 <= i < |g.body| ensures !ClosesAt(g.body, i) {
        assert !ClosesAt(src, n + 2 + i);
      }
      CommentGap(src, n, e, g);
    }
  }

  /** Conversely, whatever the lexer reads to the end is a layout of what it delivers. */
  lemma {:induction false} ReadIsLayout(src: string, n: nat, ls: Lexes) returns (t: Text)
    requires n <= |src| && ReadAll(src, n) == Ok(ls)
    ensures LaidOut(t) && Chars(t) == src[n..] && LexesOf(t) == ls
    decreases |src| - n
  {
    hide SkipLayout, NextToken, ReadAll, CutOffComment, IsLexeme;
    if CutOffComment(src[n..]) {
      CutOffIsSkipped(src, n);
      t := Closing(src[n..]);
    } else if SkipLayout(src, n) != Ok(n) {
      assert SkipLayout(src, n).Ok? by { ReadStarts(src, n); }
      var g := NextGap(src, n);
      var u := ReadIsLayout(src, n + |g.Chars()|, ls);
      t := Spaced(g, u);
      InFront(src, n, g.Chars());
    } else {
      assert n < |src| by { EmptyIsCutOff(src); }
      TakenWhole(src, n, ls);
      var e := n + |ls.head.text|;
      var u := ReadIsLayout(src, e, ls.tail);
      t := Word(ls.head, u);
      InFront(src, n, ls.head.text);
      if u.Word? {
        WordStarts(u);
        assert src[e] == src[e..][0];
      }
    }
  }

  lemma WordStarts(t: Text)
    requires LaidOut(t) && t.Word?
    ensures t.lex.text != "" && Chars(t) != "" && Chars(t)[0] == t.lex.text[0]
  {
  }

  lemma ReadStarts(src: string, n: nat)
    requires n <= |src| && ReadAll(src, n).Ok?
    ensures SkipLayout(src, n).Ok?
  {
  }

  lemma EmptyIsCutOff(src: string)
    ensures CutOffComment(src[|src|..])
  {
  }

  lemma NextGap(src: string, n: nat) returns (g: Gap)
    requires n <= |src| && SkipLayout(src, n).Ok? && SkipLayout(src, n) != Ok(n) && !CutOffComment(src[n..])
    ensures g.Closed() && |g.Chars()| > 0 && StandsAt(src, n, g.Chars())
    ensures ReadAll(src, n) == ReadAll(src, n + |g.Chars()|)
  {
    if Opens(src, n, '/') && LineEnd(src, n + 2) == |src| {
      assert Opens(src[n..], 0, '/');
    }
    g := LeadingGap(src, n);
    SkipGap(src, n, g);
    ReadPastLayout(src, n, n + |g.Chars()|);
  }

  /** The lexer delivers a token sequence exactly on the layouts of that sequence. */
  lemma ReadIffLayout(src: string, ls: Lexes)
    ensures ReadAll(src, 0) == Ok(ls) <==> exists t :: LaidOut(t) && Chars(t) == src && LexesOf(t) == ls
  {
    assert src[0..] == src;
    if ReadAll(src, 0) == Ok(ls) {
      var t := ReadIsLayout(src, 0, ls);
    }
    if t :| LaidOut(t) && Chars(t) == src && LexesOf(t) == ls {
      LayoutIsRead(src, 0, t);
    }
  }
}
