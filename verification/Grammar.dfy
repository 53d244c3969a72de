/** What the recursive-descent parser of the description compiler computes, as functions of
    a cursor: the text, the token looked at, and the offset behind that token.  Class
    Parser in Parsing.dfy follows these functions in place. */
module Grammar {
  import opened Outcomes
  import opened Lexing
  import opened Descriptions

  datatype RawCursor = Cursor(src: string, tok: Token, at: nat)

  type Cursor = c: RawCursor | c.at <= |c.src| && IsLexeme(c.tok.kind, c.tok.text)
    witness Cursor("", Token(End, "", 1, 1), 0)

  function FailHere<T>(c: Cursor): Outcome<T> {
    Fail(c.tok.line, c.tok.col)
  }

  /** How much is left to consume: every step past a token other than the end lowers it. */
  function Left(c: Cursor): nat {
    |c.src| - c.at + if c.tok.kind == End then 0 else 1
  }

  function Start(src: string): Outcome<Cursor> {
    var (t, n) :- NextToken(src, 0);
    Ok(Cursor(src, t, n))
  }

  function Advance(c: Cursor): (r: Outcome<Cursor>)
    ensures r.Ok? && c.tok.kind != End ==> Left(r.value) < Left(c)
  {
    var (t, n) :- NextToken(c.src, c.at);
    Ok(Cursor(c.src, t, n))
  }

  /** Consume a token of the given kind and yield its text. */
  function Expect(c: Cursor, kind: Tok): (r: Outcome<(string, Cursor)>)
    ensures r.Ok? && kind != End ==> Left(r.value.1) < Left(c)
    ensures r.Ok? ==> c.tok.kind == kind && r.value.0 == c.tok.text
  {
    if c.tok.kind != kind then FailHere(c)
    else
      var next :- Advance(c);
      Ok((c.tok.text, next))
  }

  function OptionalSemi(c: Cursor): (r: Outcome<Cursor>)
    ensures r.Ok? ==> Left(r.value) <= Left(c)
  {
    if c.tok.kind == Semi then Advance(c) else Ok(c)
  }

  /** The closing brace of a declaration and the semicolon that may follow it. */
  function Close(c: Cursor): (r: Outcome<Cursor>)
    ensures r.Ok? ==> Left(r.value) < Left(c)
  {
    var (_, c1) :- Expect(c, RBrace);
    OptionalSemi(c1)
  }

  // ---- enum ----

  function Members(c: Cursor, names: set<string>, acc: seq<EnumMember>): (r: Outcome<(seq<EnumMember>, Cursor)>)
    ensures r.Ok? ==> Left(r.value.1) <= Left(c) && r.value.1.tok.kind == RBrace
    decreases Left(c)
  {
    if c.tok.kind == RBrace then Ok((acc, c))
    else
      var (name, c1) :- Expect(c, Ident);
      if name in names then Fail(c.tok.line, 1)
      else
        var (_, c2) :- Expect(c1, Equal);
        var (value, c3) :- Expect(c2, Int);
        var (_, c4) :- Expect(c3, Semi);
        Members(c4, names + {name}, acc + [EnumMember(name, value, c.tok.line)])
  }

  function Enum(c: Cursor): (r: Outcome<(EnumDecl, Cursor)>)
    ensures r.Ok? ==> Left(r.value.1) < Left(c)
  {
    var (name, c1) :- Expect(c, Ident);
    var (_, c2) :- Expect(c1, Colon);
    var (underlying, c3) :- Expect(c2, Ident);
    var (_, c4) :- Expect(c3, LBrace);
    var (members, c5) :- Members(c4, {}, []);
    var c6 :- Close(c5);
    Ok((EnumDecl(name, underlying, members, c.tok.line), c6))
  }

  // ---- fields ----

  predicate IsDirection(t: Token) {
    t.kind == Ident && (t.text == "in" || t.text == "out")
  }

  /** A direction marker, where one is allowed, and what follows it. */
  function Direction(c: Cursor, directed: bool): (r: Outcome<(Dir, Cursor)>)
    ensures r.Ok? ==> Left(r.value.1) <= Left(c)
  {
    if !IsDirection(c.tok) then Ok((Dir.In, c))
    else if !directed then FailHere(c)
    else
      var next :- Advance(c);
      Ok((if c.tok.text == "out" then Dir.Out else Dir.In, next))
  }

  /** The length reference in brackets, or an empty one. */
  function LengthRef(c: Cursor): (r: Outcome<(string, Cursor)>)
    ensures r.Ok? ==> Left(r.value.1) <= Left(c)
  {
    if c.tok.kind != LBrack then Ok(("", c))
    else
      var c1 :- Advance(c);
      var (ref, c2) :- Expect(c1, Ident);
      var (_, c3) :- Expect(c2, RBrack);
      Ok((ref, c3))
  }

  function AField(c: Cursor, directed: bool): (r: Outcome<(Field, Cursor)>)
    ensures r.Ok? ==> Left(r.value.1) < Left(c)
  {
    var (dir, c1) :- Direction(c, directed);
    var (ty, c2) :- Expect(c1, Ident);
    var (name, c3) :- Expect(c2, Ident);
    var (ref, c4) :- LengthRef(c3);
    if (ty == "bytes") != (ref != "") then Fail(c.tok.line, 1)
    else Ok((Field(dir, ty, name, ref, c.tok.line), c4))
  }

  function StructFields(c: Cursor, names: set<string>, acc: seq<Field>): (r: Outcome<(seq<Field>, Cursor)>)
    ensures r.Ok? ==> Left(r.value.1) <= Left(c) && r.value.1.tok.kind == RBrace
    decreases Left(c)
  {
    if c.tok.kind == RBrace then Ok((acc, c))
    else
      var (field, c1) :- AField(c, false);
      if field.name in names then Fail(field.line, 1)
      else
        var (_, c2) :- Expect(c1, Semi);
        StructFields(c2, names + {field.name}, acc + [field])
  }

  function Struct(c: Cursor): (r: Outcome<(StructDecl, Cursor)>)
    ensures r.Ok? ==> Left(r.value.1) < Left(c)
  {
    var (name, c1) :- Expect(c, Ident);
    var (_, c2) :- Expect(c1, LBrace);
    var (fields, c3) :- StructFields(c2, {}, []);
    var c4 :- Close(c3);
    Ok((StructDecl(name, fields, c.tok.line), c4))
  }

  // ---- protocol ----

  function FrameFields(c: Cursor, names: set<string>, hasPayload: bool, acc: FrameDecl)
    : (r: Outcome<(FrameDecl, Cursor)>)
    ensures r.Ok? ==> Left(r.value.1) <= Left(c) && r.value.1.tok.kind == RBrace
    decreases Left(c)
  {
    if c.tok.kind == RBrace then Ok((acc, c))
    else
      var (ty, c1) :- Expect(c, Ident);
      var (name, c2) :- Expect(c1, Ident);
      var payload := ty == "payload";
      if name in names || (payload && hasPayload) then Fail(c.tok.line, 1)
      else
        var (_, c3) :- Expect(c2, Semi);
        FrameFields(c3, names + {name}, hasPayload || payload, acc + [FrameField(payload, ty, name, c.tok.line)])
  }

  function Frame(c: Cursor): (r: Outcome<(FrameDecl, Cursor)>)
    ensures r.Ok? ==> Left(r.value.1) < Left(c)
  {
    var (_, c1) :- Expect(c, LBrace);
    var (fields, c2) :- FrameFields(c1, {}, false, []);
    var (_, c3) :- Expect(c2, RBrace);
    Ok((fields, c3))
  }

  function ScopedName(c: Cursor, acc: seq<string>): (r: Outcome<(seq<string>, Cursor)>)
    ensures r.Ok? ==> Left(r.value.1) <= Left(c)
    decreases Left(c)
  {
    if c.tok.kind != Scope then Ok((acc, c))
    else
      var c1 :- Advance(c);
      var (part, c2) :- Expect(c1, Ident);
      ScopedName(c2, acc + [part])
  }

  /** What stands behind 'response': the word none, or a frame. */
  function Response(c: Cursor): (r: Outcome<(Option<FrameDecl>, Cursor)>)
    ensures r.Ok? ==> Left(r.value.1) < Left(c)
  {
    if c.tok.kind == Ident && c.tok.text == "none" then
      var c1 :- Advance(c);
      var (_, c2) :- Expect(c1, Semi);
      Ok((None, c2))
    else
      var (frame, c1) :- Frame(c);
      Ok((Some(frame), c1))
  }

  /** The sections of a command: at most one request and one response, in any order. */
  function Sections(c: Cursor, request: Option<FrameDecl>, response: Option<Option<FrameDecl>>)
    : (r: Outcome<(Option<FrameDecl>, Option<Option<FrameDecl>>, Cursor)>)
    ensures r.Ok? ==> Left(r.value.2) <= Left(c) && r.value.2.tok.kind == RBrace
    decreases Left(c)
  {
    if c.tok.kind == RBrace then Ok((request, response, c))
    else
      var (section, c1) :- Expect(c, Ident);
      if section == "request" then
        if request.Some? then Fail(c.tok.line, 1)
        else
          var (frame, c2) :- Frame(c1);
          Sections(c2, Some(frame), response)
      else if section == "response" then
        if response.Some? then Fail(c.tok.line, 1)
        else
          var (frame, c2) :- Response(c1);
          Sections(c2, request, Some(frame))
      else Fail(c.tok.line, 1)
  }

  /** A command behind its keyword; its name must not be among names. */
  function Command(c: Cursor, names: set<string>): (r: Outcome<(CommandDecl, Cursor)>)
    ensures r.Ok? ==> Left(r.value.1) < Left(c)
  {
    var (name, c1) :- Expect(c, Ident);
    if name in names then Fail(c.tok.line, 1)
    else
      var (_, c2) :- Expect(c1, Equal);
      var (head, c3) :- Expect(c2, Ident);
      var (path, c4) :- ScopedName(c3, [head]);
      var (_, c5) :- Expect(c4, LBrace);
      var (request, response, c6) :- Sections(c5, None, None);
      var c7 :- Close(c6);
      if request.None? || response.None? then Fail(c.tok.line, 1)
      else
        var none := response.value.None?;
        Ok((CommandDecl(name, path, request.value, if none then [] else response.value.value, none, c.tok.line), c7))
  }

  function ProtocolItems(c: Cursor, names: set<string>, header: string, acc: seq<CommandDecl>)
    : (r: Outcome<(string, seq<CommandDecl>, Cursor)>)
    ensures r.Ok? ==> Left(r.value.2) <= Left(c) && r.value.2.tok.kind == RBrace
    decreases Left(c)
  {
    if c.tok.kind == RBrace then Ok((header, acc, c))
    else
      var (keyword, c1) :- Expect(c, Ident);
      if keyword == "request" then
        if header != "" then Fail(c.tok.line, 1)
        else
          var (ty, c2) :- Expect(c1, Ident);
          var (_, c3) :- Expect(c2, Semi);
          ProtocolItems(c3, names, ty, acc)
      else if keyword != "command" then Fail(c.tok.line, 1)
      else
        var (command, c2) :- Command(c1, names);
        ProtocolItems(c2, names + {command.name}, header, acc + [command])
  }

  function Protocol(c: Cursor): (r: Outcome<(ProtocolDecl, Cursor)>)
    ensures r.Ok? ==> Left(r.value.1) < Left(c)
  {
    var (name, c1) :- Expect(c, Ident);
    var (_, c2) :- Expect(c1, LBrace);
    var (header, commands, c3) :- ProtocolItems(c2, {}, "", []);
    var c4 :- Close(c3);
    Ok((ProtocolDecl(name, header, commands, c.tok.line), c4))
  }

  // ---- interface ----

  /** One or more parameters, separated by commas. */
  function Params(c: Cursor, names: set<string>, acc: seq<Field>): (r: Outcome<(seq<Field>, Cursor)>)
    ensures r.Ok? ==> Left(r.value.1) < Left(c)
    decreases Left(c)
  {
    var (field, c1) :- AField(c, true);
    if field.name in names then Fail(field.line, 1)
    else if c1.tok.kind != Comma then Ok((acc + [field], c1))
    else
      var c2 :- Advance(c1);
      Params(c2, names + {field.name}, acc + [field])
  }

  function AMethod(c: Cursor): (r: Outcome<(Method, Cursor)>)
    ensures r.Ok? ==> Left(r.value.1) < Left(c)
  {
    var (ret, c1) :- Expect(c, Ident);
    var (name, c2) :- Expect(c1, Ident);
    var (_, c3) :- Expect(c2, LParen);
    var (params, c4) :- if c3.tok.kind == RParen then Ok(([], c3)) else Params(c3, {}, []);
    var (_, c5) :- Expect(c4, RParen);
    var (_, c6) :- Expect(c5, Semi);
    Ok((Method(name, ret, params, c.tok.line), c6))
  }

  function Methods(c: Cursor, names: set<string>, acc: seq<Method>): (r: Outcome<(seq<Method>, Cursor)>)
    ensures r.Ok? ==> Left(r.value.1) <= Left(c) && r.value.1.tok.kind == RBrace
    decreases Left(c)
  {
    if c.tok.kind == RBrace then Ok((acc, c))
    else
      var (m, c1) :- AMethod(c);
      if m.name in names then Fail(m.line, 1)
      else Methods(c1, names + {m.name}, acc + [m])
  }

  function AnInterface(c: Cursor): (r: Outcome<(Interface, Cursor)>)
    ensures r.Ok? ==> Left(r.value.1) < Left(c)
  {
    var (name, c1) :- Expect(c, Ident);
    var (_, c2) :- Expect(c1, LBrace);
    var (methods, c3) :- Methods(c2, {}, []);
    var c4 :- Close(c3);
    Ok((Interface(name, methods, c.tok.line), c4))
  }

  // ---- file ----

  /** One declaration behind its keyword, added to the file so far. */
  function Declaration(c: Cursor, keyword: string, line: nat, file: File): (r: Outcome<(File, Cursor)>)
    ensures r.Ok? ==> Left(r.value.1) < Left(c)
  {
    if keyword == "enum" then
      var (d, c1) :- Enum(c);
      Ok((file.(enums := file.enums + [d]), c1))
    else if keyword == "struct" then
      var (d, c1) :- Struct(c);
      Ok((file.(structs := file.structs + [d]), c1))
    else if keyword == "protocol" then
      var (d, c1) :- Protocol(c);
      Ok((file.(protocols := file.protocols + [d]), c1))
    else if keyword == "interface" then
      var (d, c1) :- AnInterface(c);
      Ok((file.(interfaces := file.interfaces + [d]), c1))
    else Fail(line, 1)
  }

  function Declarations(c: Cursor, file: File): Outcome<File>
    decreases Left(c)
  {
    if c.tok.kind == End then Ok(file)
    else
      var (keyword, c1) :- Expect(c, Ident);
      var (file', c2) :- Declaration(c1, keyword, c.tok.line, file);
      Declarations(c2, file')
  }

  /** All declarations of a text, before validation. */
  function ParseText(src: string): Outcome<File> {
    var c :- Start(src);
    Declarations(c, File([], [], [], []))
  }
}
