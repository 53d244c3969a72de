/** The lexer of the IPC description compiler (tools/ipc_codegen/ipc_codegen.cpp).
    A source text is a string whose characters stand for bytes, classified as the
    "C" locale does.  The specification works on offsets alone: where a token starts
    fixes its line and column, by LineOf and ColumnOf.  Class Lexer keeps the three
    counters of the original and is proved to agree. */
module Lexing {
  import opened Outcomes

  datatype Tok = Ident | Int | LBrace | RBrace | LParen | RParen | LBrack | RBrack
               | Comma | Semi | Colon | Scope | Equal | End

  datatype Token = Token(kind: Tok, text: string, line: nat, col: nat)

  predicate IsSpace(c: char) {
    c == ' ' || '\t' <= c <= '\r'
  }

  predicate IsDigit(c: char) {
    '0' <= c <= '9'
  }

  predicate IsAlpha(c: char) {
    'a' <= c <= 'z' || 'A' <= c <= 'Z'
  }

  predicate IsAlnum(c: char) {
    IsAlpha(c) || IsDigit(c)
  }

  /** May c continue a word of this kind?  Identifiers take underscores, numbers do not. */
  predicate Continues(kind: Tok, c: char) {
    IsAlnum(c) || (kind == Ident && c == '_')
  }

  // ---- positions: the reference the lexer's counters are measured against ----

  /** One plus the newlines among the first n characters. */
  function LineOf(src: string, n: nat): nat
    requires n <= |src|
  {
    if n == 0 then 1 else LineOf(src, n - 1) + (if src[n - 1] == '\n' then 1 else 0)
  }

  /** One plus the distance of offset n from the last newline before it. */
  function ColumnOf(src: string, n: nat): nat
    requires n <= |src|
  {
    if n == 0 || src[n - 1] == '\n' then 1 else ColumnOf(src, n - 1) + 1
  }

  function FailAt<T>(src: string, n: nat): (r: Outcome<T>)
    requires n <= |src|
  {
    Fail(LineOf(src, n), ColumnOf(src, n))
  }

  // ---- what the lexer computes, as functions of an offset ----

  /** Where a line comment that is open at n ends: the next newline or the end of the text. */
  function LineEnd(src: string, n: nat): (e: nat)
    requires n <= |src|
    ensures n <= e <= |src|
    ensures forall i :: n <= i < e ==> src[i] != '\n'
    ensures e == |src| || src[e] == '\n'
    decreases |src| - n
  {
    if n == |src| || src[n] == '\n' then n else LineEnd(src, n + 1)
  }

  predicate ClosesAt(src: string, i: nat) {
    i + 1 < |src| && src[i] == '*' && src[i + 1] == '/'
  }

  /** Where the scan of a block comment whose body starts at n stops. */
  function CommentEnd(src: string, n: nat): (e: nat)
    requires n <= |src|
    ensures n <= e <= |src|
    ensures forall i :: n <= i < e ==> !ClosesAt(src, i)
    ensures e + 1 >= |src| || ClosesAt(src, e)
    ensures e == n || e < |src|
    decreases |src| - n
  {
    if n + 1 >= |src| || ClosesAt(src, n) then n else CommentEnd(src, n + 1)
  }

  predicate Opens(src: string, n: nat, second: char) {
    n + 1 < |src| && src[n] == '/' && src[n + 1] == second
  }

  /** The first offset at or after n that is neither white space nor in a comment. */
  function SkipLayout(src: string, n: nat): (r: Outcome<nat>)
    requires n <= |src|
    ensures r.Ok? ==> n <= r.value <= |src|
    decreases |src| - n
  {
    if n == |src| then Ok(n)
    else if IsSpace(src[n]) then SkipLayout(src, n + 1)
    else if Opens(src, n, '/') then SkipLayout(src, LineEnd(src, n + 2))
    else if Opens(src, n, '*') then
      var e := CommentEnd(src, n + 2);
      if e + 1 >= |src| then FailAt(src, e) else SkipLayout(src, e + 2)
    else Ok(n)
  }

  function WordEnd(src: string, n: nat, kind: Tok): (e: nat)
    requires n <= |src|
    ensures n <= e <= |src|
    ensures forall i :: n <= i < e ==> Continues(kind, src[i])
    ensures e == |src| || !Continues(kind, src[e])
    decreases |src| - n
  {
    if n < |src| && Continues(kind, src[n]) then WordEnd(src, n + 1, kind) else n
  }

  /** The kind of the one-character token c, if c is one; a colon is handled apart. */
  function Punctuation(c: char): Option<Tok> {
    match c
    case '{' => Some(LBrace)
    case '}' => Some(RBrace)
    case '(' => Some(LParen)
    case ')' => Some(RParen)
    case '[' => Some(LBrack)
    case ']' => Some(RBrack)
    case ',' => Some(Comma)
    case ';' => Some(Semi)
    case '=' => Some(Equal)
    case _ => None
  }

  /** The token that starts exactly at n: its kind and where it ends. */
  function LexemeAt(src: string, n: nat): (r: Option<(Tok, nat)>)
    requires n < |src|
    ensures r.Some? ==> n < r.value.1 <= |src|
  {
    var c := src[n];
    if Punctuation(c).Some? then Some((Punctuation(c).value, n + 1))
    else if c == ':' then
      if n + 1 < |src| && src[n + 1] == ':' then Some((Scope, n + 2)) else Some((Colon, n + 1))
    else if IsAlpha(c) || c == '_' then Some((Ident, WordEnd(src, n + 1, Ident)))
    else if IsDigit(c) then Some((Int, WordEnd(src, n + 1, Int)))
    else None
  }

  predicate IsWord(kind: Tok, s: string) {
    && s != []
    && (if kind == Ident then IsAlpha(s[0]) || s[0] == '_' else IsDigit(s[0]))
    && forall i :: 0 <= i < |s| ==> Continues(kind, s[i])
  }

  /** The one text of a token that is not a word. */
  function Spelling(kind: Tok): string {
    match kind
    case LBrace => "{"
    case RBrace => "}"
    case LParen => "("
    case RParen => ")"
    case LBrack => "["
    case RBrack => "]"
    case Comma => ","
    case Semi => ";"
    case Colon => ":"
    case Scope => "::"
    case Equal => "="
    case _ => ""
  }

  /** The texts a token of each kind can have. */
  predicate IsLexeme(kind: Tok, s: string) {
    if kind == Ident || kind == Int then IsWord(kind, s) else s == Spelling(kind)
  }

  lemma LexemeIs(src: string, n: nat)
    requires n < |src| && LexemeAt(src, n).Some?
    ensures var (kind, e) := LexemeAt(src, n).value; IsLexeme(kind, src[n..e]) && kind != End
  {
    var (kind, e) := LexemeAt(src, n).value;
    var s := src[n..e];
    assert s[0] == src[n];
    if kind == Ident || kind == Int {
      forall i | 0 <= i < |s| ensures Continues(kind, s[i]) {
        assert s[i] == src[n + i];
      }
    } else if kind == Scope {
      assert s == [src[n], src[n + 1]];
    } else {
      assert s == [src[n]];
    }
  }

  /** Token t stands in the text up to offset e, with the position of its first character. */
  predicate StandsBefore(src: string, t: Token, e: nat) {
    && |t.text| <= e <= |src|
    && src[e - |t.text|..e] == t.text
    && t.line == LineOf(src, e - |t.text|)
    && t.col == ColumnOf(src, e - |t.text|)
    && IsLexeme(t.kind, t.text)
  }

  /** The token that starts exactly at n, and the offset behind it. */
  function TokenAt(src: string, n: nat): (r: Outcome<(Token, nat)>)
    requires n < |src|
    ensures r.Ok? ==> StandsBefore(src, r.value.0, r.value.1)
    ensures r.Ok? ==> r.value.0.kind != End && n < r.value.1 && |r.value.0.text| == r.value.1 - n
  {
    match LexemeAt(src, n)
    case None => FailAt(src, n)
    case Some((kind, e)) =>
      LexemeIs(src, n);
      Ok((Token(kind, src[n..e], LineOf(src, n), ColumnOf(src, n)), e))
  }

  /** The next token at or after n, and the offset behind it.  The token's text is what
      stands there, and its line and column are those of its first character. */
  function NextToken(src: string, n: nat): (r: Outcome<(Token, nat)>)
    requires n <= |src|
    ensures r.Ok? ==>
              var (t, e) := r.value;
              && StandsBefore(src, t, e)
              && n <= e - |t.text|
              && (if t.kind == End then e == |src| else n < e)
  {
    var s :- SkipLayout(src, n);
    if s == |src| then
      Ok((Token(End, "", LineOf(src, s), ColumnOf(src, s)), s))
    else
      TokenAt(src, s)
  }

  /** Only a backslash-n moves the line: between two newlines the column is a distance. */
  lemma {:induction false} ColumnIsDistance(src: string, start: nat, n: nat)
    requires start <= n <= |src|
    requires start == 0 || src[start - 1] == '\n'
    requires forall i :: start <= i < n ==> src[i] != '\n'
    ensures ColumnOf(src, n) == n - start + 1
    decreases n
  {
    if n > start {
      ColumnIsDistance(src, start, n - 1);
    }
  }

  lemma NoLineEnd(kind: Tok, c: char)
    requires Continues(kind, c)
    ensures c != '\n'
  {
  }

  /** Lines are counted by their ends. */
  lemma {:induction false} LineIsCounted(src: string, n: nat)
    requires n <= |src|
    ensures LineOf(src, n) == 1 + |set i | 0 <= i < n && src[i] == '\n'|
  {
    if n > 0 {
      LineIsCounted(src, n - 1);
      var before, all := set i | 0 <= i < n - 1 && src[i] == '\n', set i | 0 <= i < n && src[i] == '\n';
      assert all == before + if src[n - 1] == '\n' then {n - 1} else {};
    }
  }

  /** The classes of characters, by their codes. */
  lemma CharactersAre(c: char)
    ensures IsSpace(c) <==> c as int == 32 || 9 <= c as int <= 13
    ensures IsDigit(c) <==> 48 <= c as int <= 57
    ensures IsAlpha(c) <==> 65 <= c as int <= 90 || 97 <= c as int <= 122
  {
  }

  /** The texts of the tokens, spelled out. */
  lemma LexemesAre(kind: Tok, s: string)
    ensures kind == Ident ==>
              (IsLexeme(kind, s) <==>
               s != "" && !IsDigit(s[0]) && forall c :: c in s ==> IsAlpha(c) || IsDigit(c) || c == '_')
    ensures kind == Int ==>
              (IsLexeme(kind, s) <==> s != "" && IsDigit(s[0]) && forall c :: c in s ==> IsAlpha(c) || IsDigit(c))
    ensures kind == LBrace ==> (IsLexeme(kind, s) <==> s == "{")
    ensures kind == RBrace ==> (IsLexeme(kind, s) <==> s == "}")
    ensures kind == LParen ==> (IsLexeme(kind, s) <==> s == "(")
    ensures kind == RParen ==> (IsLexeme(kind, s) <==> s == ")")
    ensures kind == LBrack ==> (IsLexeme(kind, s) <==> s == "[")
    ensures kind == RBrack ==> (IsLexeme(kind, s) <==> s == "]")
    ensures kind == Comma ==> (IsLexeme(kind, s) <==> s == ",")
    ensures kind == Semi ==> (IsLexeme(kind, s) <==> s == ";")
    ensures kind == Colon ==> (IsLexeme(kind, s) <==> s == ":")
    ensures kind == Scope ==> (IsLexeme(kind, s) <==> s == "::")
    ensures kind == Equal ==> (IsLexeme(kind, s) <==> s == "=")
    ensures kind == End ==> (IsLexeme(kind, s) <==> s == "")
  {
  }

  /** Where the lexer gives up, and why: at a character that no token and no comment begins with, or
      where the text ends inside a block comment, on the last character there is. */
  lemma FailsWhere(src: string, n: nat) returns (at: nat, start: nat)
    requires n <= |src| && NextToken(src, n).Fail?
    ensures n <= at <= |src| && NextToken(src, n) == FailAt(src, at)
    ensures start <= at
    ensures if start < at then
              && n <= start && start + 2 <= |src| && src[start..start + 2] == "/*"
              && (forall i :: start + 2 <= i <= |src| ==> !("*/" <= src[i..]))
              && at == if start + 2 < |src| then |src| - 1 else |src|
            else
              && at < |src| && !IsSpace(src[at]) && !IsAlpha(src[at]) && !IsDigit(src[at])
              && src[at] !in "_{}()[],;:=" && (at + 1 < |src| ==> src[at..at + 2] !in ["//", "/*"])
  {
    if SkipLayout(src, n).Fail? {
      at, start := OpenComment(src, n);
    } else {
      at := SkipLayout(src, n).value;
      start := at;
      SkipStops(src, n);
    }
  }

  lemma {:induction false} SkipStops(src: string, n: nat)
    requires n <= |src| && SkipLayout(src, n).Ok? && SkipLayout(src, n).value < |src|
    ensures var at := SkipLayout(src, n).value;
            !IsSpace(src[at]) && (at + 1 < |src| ==> src[at..at + 2] !in ["//", "/*"])
    decreases |src| - n
  {
    if IsSpace(src[n]) {
      SkipStops(src, n + 1);
    } else if Opens(src, n, '/') {
      SkipStops(src, LineEnd(src, n + 2));
    } else if Opens(src, n, '*') {
      SkipStops(src, CommentEnd(src, n + 2) + 2);
    } else if n + 1 < |src| {
      var two := src[n..n + 2];
      assert two[0] == src[n] && two[1] == src[n + 1];
    }
  }

  lemma {:induction false} OpenComment(src: string, n: nat) returns (at: nat, start: nat)
    requires n <= |src| && SkipLayout(src, n).Fail?
    ensures n <= start < at <= |src| && SkipLayout(src, n) == FailAt(src, at)
    ensures start + 2 <= |src| && src[start..start + 2] == "/*"
    ensures forall i :: start + 2 <= i <= |src| ==> !("*/" <= src[i..])
    ensures at == if start + 2 < |src| then |src| - 1 else |src|
    decreases |src| - n
  {
    if IsSpace(src[n]) {
      at, start := OpenComment(src, n + 1);
    } else if Opens(src, n, '/') {
      at, start := OpenComment(src, LineEnd(src, n + 2));
    } else {
      assert Opens(src, n, '*');
      var e := CommentEnd(src, n + 2);
      if e + 1 >= |src| {
        at, start := e, n;
        assert src[n..n + 2] == [src[n], src[n + 1]] == "/*";
        forall i | start + 2 <= i <= |src| ensures !("*/" <= src[i..]) {
          if i + 1 < |src| {
            assert !ClosesAt(src, i) && src[i..][0] == src[i] && src[i..][1] == src[i + 1];
          }
        }
      } else {
        at, start := OpenComment(src, e + 2);
      }
    }
  }

  /** The lexer object: the text, the offset, and the line counters kept beside it. */
  class Lexer {
    const src: string
    var pos: nat
    var lineStart: nat
    var line: nat

    ghost predicate Valid()
      reads this
    {
      && lineStart <= pos <= |src|
      && line == LineOf(src, pos)
      && pos - lineStart + 1 == ColumnOf(src, pos)
    }

    constructor (src: string)
      ensures Valid() && this.src == src && pos == 0
    {
      this.src := src;
      pos, lineStart, line := 0, 0, 1;
    }

    /** Step over one character that does not end the line. */
    method Bump()
      requires Valid() && pos < |src| && src[pos] != '\n'
      modifies this`pos
      ensures Valid() && pos == old(pos) + 1
    {
      pos := pos + 1;
    }

    method StepNewline()
      requires Valid() && pos < |src| && src[pos] == '\n'
      modifies this
      ensures Valid() && pos == old(pos) + 1
    {
      line := line + 1;
      pos := pos + 1;
      lineStart := pos;
    }

    method SkipWs() returns (r: Outcome<()>)
      requires Valid()
      modifies this
      ensures var s := SkipLayout(src, old(pos));
              if s.Ok? then r == Ok(()) && Valid() && pos == s.value else r == Fail(s.line, s.col)
    {
      while pos < |src|
        invariant Valid()
        invariant SkipLayout(src, pos) == SkipLayout(src, old(pos))
        decreases |src| - pos
      {
        var c := src[pos];
        if c == '\n' {
          StepNewline();
        } else if IsSpace(c) {
          Bump();
        } else if c == '/' && pos + 1 < |src| && src[pos + 1] == '/' {
          SkipLineComment();
        } else if c == '/' && pos + 1 < |src| && src[pos + 1] == '*' {
          var _ :- SkipBlockComment();
        } else {
          break;
        }
      }
      return Ok(());
    }

    method SkipLineComment()
      requires Valid() && Opens(src, pos, '/')
      modifies this
      ensures Valid() && pos == LineEnd(src, old(pos) + 2)
    {
      ghost var body := pos + 2;
      assert LineEnd(src, pos) == LineEnd(src, pos + 1) == LineEnd(src, body);
      while pos < |src| && src[pos] != '\n'
        invariant Valid()
        invariant LineEnd(src, pos) == LineEnd(src, body)
      {
        Bump();
      }
    }

    method SkipBlockComment() returns (r: Outcome<()>)
      requires Valid() && Opens(src, pos, '*')
      modifies this
      ensures var e := CommentEnd(src, old(pos) + 2);
              if e + 1 < |src| then r == Ok(()) && Valid() && pos == e + 2 else r == FailAt(src, e)
    {
      ghost var body := pos + 2;
      Bump();
      Bump();
      while pos + 1 < |src| && !(src[pos] == '*' && src[pos + 1] == '/')
        invariant body <= pos && Valid()
        invariant CommentEnd(src, pos) == CommentEnd(src, body)
        decreases |src| - pos
      {
        if src[pos] == '\n' {
          StepNewline();
        } else {
          Bump();
        }
      }
      if pos + 1 >= |src| {
        return Fail(line, pos - lineStart + 1);
      }
      Bump();
      Bump();
      return Ok(());
    }

    method Next() returns (r: Outcome<Token>)
      requires Valid()
      modifies this
      ensures var s := NextToken(src, old(pos));
              if s.Ok? then r == Ok(s.value.0) && Valid() && pos == s.value.1 else r == Fail(s.line, s.col)
    {
      var _ :- SkipWs();
      var startLine, startCol := line, pos - lineStart + 1;
      if pos >= |src| {
        return Ok(Token(End, "", startLine, startCol));
      }
      r := TakeToken(startLine, startCol);
    }

    method TakeToken(startLine: nat, startCol: nat) returns (r: Outcome<Token>)
      requires Valid() && pos < |src|
      requires startLine == LineOf(src, pos) && startCol == ColumnOf(src, pos)
      modifies this
      ensures var s := TokenAt(src, old(pos));
              if s.Ok? then r == Ok(s.value.0) && Valid() && pos == s.value.1 else r == Fail(s.line, s.col)
    {
      var c := src[pos];
      assert src[pos..pos + 1] == [c];
      if Punctuation(c).Some? {
        Bump();
        return Ok(Token(Punctuation(c).value, [c], startLine, startCol));
      }
      if c == ':' && pos + 1 < |src| && src[pos + 1] == ':' {
        Bump();
        Bump();
        return Ok(Token(Scope, "::", startLine, startCol));
      }
      if c == ':' {
        Bump();
        return Ok(Token(Colon, ":", startLine, startCol));
      }
      if IsAlpha(c) || c == '_' {
        var text := TakeWord(Ident);
        return Ok(Token(Ident, text, startLine, startCol));
      }
      if IsDigit(c) {
        var text := TakeWord(Int);
        return Ok(Token(Int, text, startLine, startCol));
      }
      return Fail(startLine, startCol);
    }

    /** Consume one character and then every character that continues the word. */
    method TakeWord(kind: Tok) returns (text: string)
      requires Valid() && pos < |src| && Continues(kind, src[pos])
      modifies this
      ensures Valid() && old(pos) < pos <= |src|
      ensures pos == WordEnd(src, old(pos) + 1, kind) && text == src[old(pos)..pos]
    {
      hide Continues, LineOf, ColumnOf, Lexer.Valid;
      var start := pos;
      NoLineEnd(kind, src[pos]);
      Bump();
      while pos < |src| && Continues(kind, src[pos])
        invariant start < pos <= |src| && Valid()
        invariant WordEnd(src, pos, kind) == WordEnd(src, start + 1, kind)
      {
        NoLineEnd(kind, src[pos]);
        Bump();
      }
      text := src[start..pos];
    }
  }
}
