/** Where the parser reports an error: at a position of the text, and never in front of the token
    that the construct begins with.  Errors of the lexer and unexpected tokens have line and
    column; errors about a whole declaration have its line and column 1. */
module Positions {
  import opened Outcomes
  import opened Lexing
  import opened Descriptions
  import opened Grammar

  /** The token looked at stands in src, at or behind n, and has the line and column of that place. */
  predicate Placed(c: Cursor, src: string, n: nat) {
    c.src == src && StandsBefore(c.src, c.tok, c.at) && n <= c.at - |c.tok.text|
  }

  /** Line and column are those of a place at or behind n, or the column is 1. */
  predicate IsPlace(src: string, n: nat, line: nat, col: nat) {
    exists at :: n <= at <= |src| && line == LineOf(src, at) && (col == ColumnOf(src, at) || col == 1)
  }

  predicate Reported<T>(r: Outcome<T>, src: string, n: nat) {
    r.Fail? ==> IsPlace(src, n, r.line, r.col)
  }

  lemma FailedHere<T>(c: Cursor, src: string, n: nat)
    requires Placed(c, src, n)
    ensures Reported<T>(FailHere(c), src, n) && Reported<T>(Fail(c.tok.line, 1), src, n)
  {
  }

  lemma AdvanceAt(c: Cursor, src: string, n: nat)
    requires Placed(c, src, n)
    ensures Reported(Advance(c), src, n) && (Advance(c).Ok? ==> Placed(Advance(c).value, src, n))
  {
    if NextToken(c.src, c.at).Fail? {
      var at, _ := FailsWhere(c.src, c.at);
      assert NextToken(c.src, c.at).line == LineOf(src, at);
    }
  }

  lemma ExpectAt(c: Cursor, kind: Tok, src: string, n: nat)
    requires Placed(c, src, n)
    ensures Reported(Expect(c, kind), src, n) && (Expect(c, kind).Ok? ==> Placed(Expect(c, kind).value.1, src, n))
  {
    hide Placed, IsPlace, Advance;
    AdvanceAt(c, src, n);
    FailedHere<(string, Cursor)>(c, src, n);
  }

  lemma CloseAt(c: Cursor, src: string, n: nat)
    requires Placed(c, src, n)
    ensures Reported(Close(c), src, n) && (Close(c).Ok? ==> Placed(Close(c).value, src, n))
  {
    hide Placed, IsPlace, Expect, Advance;
    ExpectAt(c, RBrace, src, n);
    if Expect(c, RBrace).Ok? {
      AdvanceAt(Expect(c, RBrace).value.1, src, n);
    }
  }

  lemma {:induction false} MembersAt(c: Cursor, names: set<string>, acc: seq<EnumMember>, src: string, n: nat)
    requires Placed(c, src, n)
    ensures Reported(Members(c, names, acc), src, n)
            && (Members(c, names, acc).Ok? ==> Placed(Members(c, names, acc).value.1, src, n))
    decreases Left(c)
  {
    hide Placed, IsPlace, Expect;
    if c.tok.kind == RBrace { return; }
    FailedHere<(seq<EnumMember>, Cursor)>(c, src, n);
    ExpectAt(c, Ident, src, n);
    if Expect(c, Ident).Fail? { return; }
    var (name, c1) := Expect(c, Ident).value;
    if name in names { return; }
    ExpectAt(c1, Equal, src, n);
    if Expect(c1, Equal).Fail? { return; }
    var (_, c2) := Expect(c1, Equal).value;
    ExpectAt(c2, Int, src, n);
    if Expect(c2, Int).Fail? { return; }
    var (value, c3) := Expect(c2, Int).value;
    ExpectAt(c3, Semi, src, n);
    if Expect(c3, Semi).Fail? { return; }
    var (_, c4) := Expect(c3, Semi).value;
    MembersAt(c4, names + {name}, acc + [EnumMember(name, value, c.tok.line)], src, n);
  }

  lemma EnumAt(c: Cursor, src: string, n: nat)
    requires Placed(c, src, n)
    ensures Reported(Enum(c), src, n) && (Enum(c).Ok? ==> Placed(Enum(c).value.1, src, n))
  {
    hide Placed, IsPlace, Expect, Members, Close;
    ExpectAt(c, Ident, src, n);
    if Expect(c, Ident).Fail? { return; }
    var (_, c1) := Expect(c, Ident).value;
    ExpectAt(c1, Colon, src, n);
    if Expect(c1, Colon).Fail? { return; }
    var (_, c2) := Expect(c1, Colon).value;
    ExpectAt(c2, Ident, src, n);
    if Expect(c2, Ident).Fail? { return; }
    var (_, c3) := Expect(c2, Ident).value;
    ExpectAt(c3, LBrace, src, n);
    if Expect(c3, LBrace).Fail? { return; }
    var (_, c4) := Expect(c3, LBrace).value;
    MembersAt(c4, {}, [], src, n);
    if Members(c4, {}, []).Fail? { return; }
    var (_, c5) := Members(c4, {}, []).value;
    CloseAt(c5, src, n);
  }

  lemma LengthRefAt(c: Cursor, src: string, n: nat)
    requires Placed(c, src, n)
    ensures Reported(LengthRef(c), src, n) && (LengthRef(c).Ok? ==> Placed(LengthRef(c).value.1, src, n))
  {
    hide Placed, IsPlace, Expect, Advance;
    if c.tok.kind != LBrack { return; }
    AdvanceAt(c, src, n);
    if Advance(c).Fail? { return; }
    var c1 := Advance(c).value;
    ExpectAt(c1, Ident, src, n);
    if Expect(c1, Ident).Fail? { return; }
    var (_, c2) := Expect(c1, Ident).value;
    ExpectAt(c2, RBrack, src, n);
  }

  lemma DirectionAt(c: Cursor, directed: bool, src: string, n: nat)
    requires Placed(c, src, n)
    ensures Reported(Direction(c, directed), src, n)
            && (Direction(c, directed).Ok? ==> Placed(Direction(c, directed).value.1, src, n))
  {
    hide Placed, IsPlace, Advance;
    AdvanceAt(c, src, n);
    FailedHere<(Dir, Cursor)>(c, src, n);
  }

  lemma FieldAt(c: Cursor, directed: bool, src: string, n: nat)
    requires Placed(c, src, n)
    ensures Reported(AField(c, directed), src, n)
            && (AField(c, directed).Ok? ==> Placed(AField(c, directed).value.1, src, n))
  {
    hide Placed, IsPlace, Expect, Direction, LengthRef;
    FailedHere<(Field, Cursor)>(c, src, n);
    DirectionAt(c, directed, src, n);
    if Direction(c, directed).Fail? { return; }
    var (_, c1) := Direction(c, directed).value;
    ExpectAt(c1, Ident, src, n);
    if Expect(c1, Ident).Fail? { return; }
    var (_, c2) := Expect(c1, Ident).value;
    ExpectAt(c2, Ident, src, n);
    if Expect(c2, Ident).Fail? { return; }
    var (_, c3) := Expect(c2, Ident).value;
    LengthRefAt(c3, src, n);
  }

  lemma {:induction false} StructFieldsAt(c: Cursor, names: set<string>, acc: seq<Field>, src: string, n: nat)
    requires Placed(c, src, n)
    ensures Reported(StructFields(c, names, acc), src, n)
            && (StructFields(c, names, acc).Ok? ==> Placed(StructFields(c, names, acc).value.1, src, n))
    decreases Left(c)
  {
    hide Placed, IsPlace, Expect, AField;
    if c.tok.kind == RBrace { return; }
    FailedHere<(seq<Field>, Cursor)>(c, src, n);
    FieldLine(c, false);
    FieldAt(c, false, src, n);
    if AField(c, false).Fail? { return; }
    var (field, c1) := AField(c, false).value;
    if field.name in names { return; }
    ExpectAt(c1, Semi, src, n);
    if Expect(c1, Semi).Fail? { return; }
    var (_, c2) := Expect(c1, Semi).value;
    StructFieldsAt(c2, names + {field.name}, acc + [field], src, n);
  }

  lemma FieldLine(c: Cursor, directed: bool)
    ensures AField(c, directed).Ok? ==> AField(c, directed).value.0.line == c.tok.line
  {
    hide Expect, Direction, LengthRef;
  }

  lemma StructAt(c: Cursor, src: string, n: nat)
    requires Placed(c, src, n)
    ensures Reported(Struct(c), src, n) && (Struct(c).Ok? ==> Placed(Struct(c).value.1, src, n))
  {
    hide Placed, IsPlace, Expect, StructFields, Close;
    ExpectAt(c, Ident, src, n);
    if Expect(c, Ident).Fail? { return; }
    var (_, c1) := Expect(c, Ident).value;
    ExpectAt(c1, LBrace, src, n);
    if Expect(c1, LBrace).Fail? { return; }
    var (_, c2) := Expect(c1, LBrace).value;
    StructFieldsAt(c2, {}, [], src, n);
    if StructFields(c2, {}, []).Fail? { return; }
    var (_, c3) := StructFields(c2, {}, []).value;
    CloseAt(c3, src, n);
  }

  lemma {:induction false} FrameFieldsAt(c: Cursor, names: set<string>, hasPayload: bool, acc: FrameDecl,
                                         src: string, n: nat)
    requires Placed(c, src, n)
    ensures Reported(FrameFields(c, names, hasPayload, acc), src, n)
            && (FrameFields(c, names, hasPayload, acc).Ok? ==>
                  Placed(FrameFields(c, names, hasPayload, acc).value.1, src, n))
    decreases Left(c)
  {
    hide Placed, IsPlace, Expect;
    if c.tok.kind == RBrace { return; }
    FailedHere<(FrameDecl, Cursor)>(c, src, n);
    ExpectAt(c, Ident, src, n);
    if Expect(c, Ident).Fail? { return; }
    var (ty, c1) := Expect(c, Ident).value;
    ExpectAt(c1, Ident, src, n);
    if Expect(c1, Ident).Fail? { return; }
    var (name, c2) := Expect(c1, Ident).value;
    var payload := ty == "payload";
    if name in names || (payload && hasPayload) { return; }
    ExpectAt(c2, Semi, src, n);
    if Expect(c2, Semi).Fail? { return; }
    var (_, c3) := Expect(c2, Semi).value;
    FrameFieldsAt(c3, names + {name}, hasPayload || payload, acc + [FrameField(payload, ty, name, c.tok.line)], src, n);
  }

  lemma FrameAt(c: Cursor, src: string, n: nat)
    requires Placed(c, src, n)
    ensures Reported(Frame(c), src, n) && (Frame(c).Ok? ==> Placed(Frame(c).value.1, src, n))
  {
    hide Placed, IsPlace, Expect, FrameFields;
    ExpectAt(c, LBrace, src, n);
    if Expect(c, LBrace).Fail? { return; }
    var (_, c1) := Expect(c, LBrace).value;
    FrameFieldsAt(c1, {}, false, [], src, n);
    if FrameFields(c1, {}, false, []).Fail? { return; }
    var (_, c2) := FrameFields(c1, {}, false, []).value;
    ExpectAt(c2, RBrace, src, n);
  }

  lemma {:induction false} ScopedNameAt(c: Cursor, acc: seq<string>, src: string, n: nat)
    requires Placed(c, src, n)
    ensures Reported(ScopedName(c, acc), src, n)
            && (ScopedName(c, acc).Ok? ==> Placed(ScopedName(c, acc).value.1, src, n))
    decreases Left(c)
  {
    hide Placed, IsPlace, Expect, Advance;
    if c.tok.kind != Scope { return; }
    AdvanceAt(c, src, n);
    if Advance(c).Fail? { return; }
    var c1 := Advance(c).value;
    ExpectAt(c1, Ident, src, n);
    if Expect(c1, Ident).Fail? { return; }
    var (part, c2) := Expect(c1, Ident).value;
    ScopedNameAt(c2, acc + [part], src, n);
  }

  lemma ResponseAt(c: Cursor, src: string, n: nat)
    requires Placed(c, src, n)
    ensures Reported(Response(c), src, n) && (Response(c).Ok? ==> Placed(Response(c).value.1, src, n))
  {
    hide Placed, IsPlace, Expect, Advance, Frame;
    AdvanceAt(c, src, n);
    FrameAt(c, src, n);
    if c.tok.kind == Ident && c.tok.text == "none" && Advance(c).Ok? {
      ExpectAt(Advance(c).value, Semi, src, n);
    }
  }

  lemma {:induction false} SectionsAt(c: Cursor, request: Option<FrameDecl>, response: Option<Option<FrameDecl>>,
                                      src: string, n: nat)
    requires Placed(c, src, n)
    ensures Reported(Sections(c, request, response), src, n)
            && (Sections(c, request, response).Ok? ==> Placed(Sections(c, request, response).value.2, src, n))
    decreases Left(c)
  {
    hide Placed, IsPlace, Expect, Frame, Response;
    if c.tok.kind == RBrace { return; }
    FailedHere<(Option<FrameDecl>, Option<Option<FrameDecl>>, Cursor)>(c, src, n);
    ExpectAt(c, Ident, src, n);
    if Expect(c, Ident).Fail? { return; }
    var (section, c1) := Expect(c, Ident).value;
    if section == "request" && request.None? {
      FrameAt(c1, src, n);
      if Frame(c1).Ok? {
        SectionsAt(Frame(c1).value.1, Some(Frame(c1).value.0), response, src, n);
      }
    } else if section == "response" && response.None? {
      ResponseAt(c1, src, n);
      if Response(c1).Ok? {
        SectionsAt(Response(c1).value.1, request, Some(Response(c1).value.0), src, n);
      }
    }
  }

  lemma CommandAt(c: Cursor, names: set<string>, src: string, n: nat)
    requires Placed(c, src, n)
    ensures Reported(Command(c, names), src, n) && (Command(c, names).Ok? ==> Placed(Command(c, names).value.1, src, n))
  {
    hide Placed, IsPlace, Expect, ScopedName, Sections, Close;
    FailedHere<(CommandDecl, Cursor)>(c, src, n);
    ExpectAt(c, Ident, src, n);
    if Expect(c, Ident).Fail? { return; }
    var (name, c1) := Expect(c, Ident).value;
    if name in names { return; }
    ExpectAt(c1, Equal, src, n);
    if Expect(c1, Equal).Fail? { return; }
    var (_, c2) := Expect(c1, Equal).value;
    ExpectAt(c2, Ident, src, n);
    if Expect(c2, Ident).Fail? { return; }
    var (head, c3) := Expect(c2, Ident).value;
    ScopedNameAt(c3, [head], src, n);
    if ScopedName(c3, [head]).Fail? { return; }
    var (_, c4) := ScopedName(c3, [head]).value;
    ExpectAt(c4, LBrace, src, n);
    if Expect(c4, LBrace).Fail? { return; }
    var (_, c5) := Expect(c4, LBrace).value;
    SectionsAt(c5, None, None, src, n);
    if Sections(c5, None, None).Fail? { return; }
    var (_, _, c6) := Sections(c5, None, None).value;
    CloseAt(c6, src, n);
  }

  lemma {:induction false} ItemsAt(c: Cursor, names: set<string>, header: string, acc: seq<CommandDecl>,
                                   src: string, n: nat)
    requires Placed(c, src, n)
    ensures Reported(ProtocolItems(c, names, header, acc), src, n)
            && (ProtocolItems(c, names, header, acc).Ok? ==>
                  Placed(ProtocolItems(c, names, header, acc).value.2, src, n))
    decreases Left(c)
  {
    hide Placed, IsPlace, Expect, Command;
    if c.tok.kind == RBrace { return; }
    FailedHere<(string, seq<CommandDecl>, Cursor)>(c, src, n);
    ExpectAt(c, Ident, src, n);
    if Expect(c, Ident).Fail? { return; }
    var (keyword, c1) := Expect(c, Ident).value;
    if keyword == "request" && header == "" {
      ExpectAt(c1, Ident, src, n);
      if Expect(c1, Ident).Fail? { return; }
      var (ty, c2) := Expect(c1, Ident).value;
      ExpectAt(c2, Semi, src, n);
      if Expect(c2, Semi).Fail? { return; }
      var (_, c3) := Expect(c2, Semi).value;
      ItemsAt(c3, names, ty, acc, src, n);
    } else if keyword == "command" {
      CommandAt(c1, names, src, n);
      if Command(c1, names).Fail? { return; }
      var (command, c2) := Command(c1, names).value;
      ItemsAt(c2, names + {command.name}, header, acc + [command], src, n);
    }
  }

  lemma ProtocolAt(c: Cursor, src: string, n: nat)
    requires Placed(c, src, n)
    ensures Reported(Protocol(c), src, n) && (Protocol(c).Ok? ==> Placed(Protocol(c).value.1, src, n))
  {
    hide Placed, IsPlace, Expect, ProtocolItems, Close;
    ExpectAt(c, Ident, src, n);
    if Expect(c, Ident).Fail? { return; }
    var (_, c1) := Expect(c, Ident).value;
    ExpectAt(c1, LBrace, src, n);
    if Expect(c1, LBrace).Fail? { return; }
    var (_, c2) := Expect(c1, LBrace).value;
    ItemsAt(c2, {}, "", [], src, n);
    if ProtocolItems(c2, {}, "", []).Fail? { return; }
    var (_, _, c3) := ProtocolItems(c2, {}, "", []).value;
    CloseAt(c3, src, n);
  }

  lemma {:induction false} ParamsAt(c: Cursor, names: set<string>, acc: seq<Field>, src: string, n: nat)
    requires Placed(c, src, n)
    ensures Reported(Params(c, names, acc), src, n)
            && (Params(c, names, acc).Ok? ==> Placed(Params(c, names, acc).value.1, src, n))
    decreases Left(c)
  {
    hide Placed, IsPlace, Advance, AField;
    FailedHere<(seq<Field>, Cursor)>(c, src, n);
    FieldLine(c, true);
    FieldAt(c, true, src, n);
    if AField(c, true).Fail? { return; }
    var (field, c1) := AField(c, true).value;
    if field.name in names || c1.tok.kind != Comma { return; }
    AdvanceAt(c1, src, n);
    if Advance(c1).Ok? {
      ParamsAt(Advance(c1).value, names + {field.name}, acc + [field], src, n);
    }
  }

  lemma MethodAt(c: Cursor, src: string, n: nat)
    requires Placed(c, src, n)
    ensures Reported(AMethod(c), src, n) && (AMethod(c).Ok? ==> Placed(AMethod(c).value.1, src, n))
  {
    hide Placed, IsPlace, Expect, Params;
    ExpectAt(c, Ident, src, n);
    if Expect(c, Ident).Fail? { return; }
    var (_, c1) := Expect(c, Ident).value;
    ExpectAt(c1, Ident, src, n);
    if Expect(c1, Ident).Fail? { return; }
    var (_, c2) := Expect(c1, Ident).value;
    ExpectAt(c2, LParen, src, n);
    if Expect(c2, LParen).Fail? { return; }
    var (_, c3) := Expect(c2, LParen).value;
    var c4 := c3;
    if c3.tok.kind != RParen {
      ParamsAt(c3, {}, [], src, n);
      if Params(c3, {}, []).Fail? { return; }
      c4 := Params(c3, {}, []).value.1;
    }
    ExpectAt(c4, RParen, src, n);
    if Expect(c4, RParen).Fail? { return; }
    var (_, c5) := Expect(c4, RParen).value;
    ExpectAt(c5, Semi, src, n);
  }

  lemma {:induction false} MethodsAt(c: Cursor, names: set<string>, acc: seq<Method>, src: string, n: nat)
    requires Placed(c, src, n)
    ensures Reported(Methods(c, names, acc), src, n)
            && (Methods(c, names, acc).Ok? ==> Placed(Methods(c, names, acc).value.1, src, n))
    decreases Left(c)
  {
    hide Placed, IsPlace, AMethod;
    if c.tok.kind == RBrace { return; }
    FailedHere<(seq<Method>, Cursor)>(c, src, n);
    MethodLine(c);
    MethodAt(c, src, n);
    if AMethod(c).Fail? { return; }
    var (m, c1) := AMethod(c).value;
    if m.name !in names {
      MethodsAt(c1, names + {m.name}, acc + [m], src, n);
    }
  }

  lemma MethodLine(c: Cursor)
    ensures AMethod(c).Ok? ==> AMethod(c).value.0.line == c.tok.line
  {
    hide Expect, Params;
  }

  lemma InterfaceAt(c: Cursor, src: string, n: nat)
    requires Placed(c, src, n)
    ensures Reported(AnInterface(c), src, n) && (AnInterface(c).Ok? ==> Placed(AnInterface(c).value.1, src, n))
  {
    hide Placed, IsPlace, Expect, Methods, Close;
    ExpectAt(c, Ident, src, n);
    if Expect(c, Ident).Fail? { return; }
    var (_, c1) := Expect(c, Ident).value;
    ExpectAt(c1, LBrace, src, n);
    if Expect(c1, LBrace).Fail? { return; }
    var (_, c2) := Expect(c1, LBrace).value;
    MethodsAt(c2, {}, [], src, n);
    if Methods(c2, {}, []).Fail? { return; }
    var (_, c3) := Methods(c2, {}, []).value;
    CloseAt(c3, src, n);
  }

  lemma DeclarationAt(c: Cursor, keyword: string, line: nat, file: File, src: string, n: nat)
    requires Placed(c, src, n) && IsPlace(src, n, line, 1)
    ensures var r := Declaration(c, keyword, line, file);
            Reported(r, src, n) && (r.Ok? ==> Placed(r.value.1, src, n))
  {
    hide Placed, IsPlace, Enum, Struct, Protocol, AnInterface;
    match keyword
    case "enum" => EnumAt(c, src, n);
    case "struct" => StructAt(c, src, n);
    case "protocol" => ProtocolAt(c, src, n);
    case "interface" => InterfaceAt(c, src, n);
    case _ =>
  }

  lemma {:induction false} DeclarationsAt(c: Cursor, file: File, src: string, n: nat)
    requires Placed(c, src, n)
    ensures Reported(Declarations(c, file), src, n)
    decreases Left(c)
  {
    if c.tok.kind != End {
      assert IsPlace(src, n, c.tok.line, 1);
      hide Placed, IsPlace, Expect, Declaration;
      ExpectAt(c, Ident, src, n);
      if Expect(c, Ident).Ok? {
        var (keyword, c1) := Expect(c, Ident).value;
        DeclarationAt(c1, keyword, c.tok.line, file, src, n);
        if Declaration(c1, keyword, c.tok.line, file).Ok? {
          var (file', c2) := Declaration(c1, keyword, c.tok.line, file).value;
          DeclarationsAt(c2, file', src, n);
        }
      }
    }
  }

  /** A text that does not parse is reported with a line that it has, and a column of that line. */
  lemma ErrorsArePlaced(src: string)
    ensures ParseText(src).Fail? ==>
              exists at :: 0 <= at <= |src| && ParseText(src).line == LineOf(src, at)
                           && (ParseText(src).col == ColumnOf(src, at) || ParseText(src).col == 1)
  {
    if Start(src).Fail? {
      var at, _ := FailsWhere(src, 0);
      assert Start(src).line == LineOf(src, at);
    } else {
      DeclarationsAt(Start(src).value, File([], [], [], []), src, 0);
    }
  }

  /** A declaration has the line of the token that it begins with, behind the keyword. */
  lemma LinesAre(c: Cursor, names: set<string>)
    ensures Enum(c).Ok? ==> Enum(c).value.0.line == c.tok.line
    ensures Struct(c).Ok? ==> Struct(c).value.0.line == c.tok.line
    ensures Protocol(c).Ok? ==> Protocol(c).value.0.line == c.tok.line
    ensures AnInterface(c).Ok? ==> AnInterface(c).value.0.line == c.tok.line
    ensures Command(c, names).Ok? ==> Command(c, names).value.0.line == c.tok.line
    ensures AMethod(c).Ok? ==> AMethod(c).value.0.line == c.tok.line
    ensures AField(c, true).Ok? ==> AField(c, true).value.0.line == c.tok.line
  {
    hide Expect, Members, StructFields, ProtocolItems, Methods, Sections, ScopedName, Close, Params,
         Direction, LengthRef;
  }

  lemma {:induction false} MembersKeep(c: Cursor, names: set<string>, acc: seq<EnumMember>)
    requires Members(c, names, acc).Ok?
    ensures acc <= Members(c, names, acc).value.0
    decreases Left(c)
  {
    hide Expect;
    if c.tok.kind != RBrace {
      var (name, c1) := Expect(c, Ident).value;
      var (_, c2) := Expect(c1, Equal).value;
      var (value, c3) := Expect(c2, Int).value;
      var (_, c4) := Expect(c3, Semi).value;
      MembersKeep(c4, names + {name}, acc + [EnumMember(name, value, c.tok.line)]);
    }
  }

  lemma {:induction false} FrameFieldsKeep(c: Cursor, names: set<string>, hasPayload: bool, acc: FrameDecl)
    requires FrameFields(c, names, hasPayload, acc).Ok?
    ensures acc <= FrameFields(c, names, hasPayload, acc).value.0
    decreases Left(c)
  {
    hide Expect;
    if c.tok.kind != RBrace {
      var (ty, c1) := Expect(c, Ident).value;
      var (name, c2) := Expect(c1, Ident).value;
      var (_, c3) := Expect(c2, Semi).value;
      var payload := ty == "payload";
      FrameFieldsKeep(c3, names + {name}, hasPayload || payload, acc + [FrameField(payload, ty, name, c.tok.line)]);
    }
  }

  /** And so have the members of an enumeration and the fields of a frame. */
  lemma MemberLinesAre(c: Cursor, names: set<string>, ms: seq<EnumMember>, hasPayload: bool, fs: FrameDecl)
    requires c.tok.kind != RBrace
    ensures Members(c, names, ms).Ok? ==>
              var all := Members(c, names, ms).value.0; |all| > |ms| && all[|ms|].line == c.tok.line
    ensures FrameFields(c, names, hasPayload, fs).Ok? ==>
              var all := FrameFields(c, names, hasPayload, fs).value.0; |all| > |fs| && all[|fs|].line == c.tok.line
  {
    hide Expect;
    if Members(c, names, ms).Ok? {
      var (name, c1) := Expect(c, Ident).value;
      var (_, c2) := Expect(c1, Equal).value;
      var (value, c3) := Expect(c2, Int).value;
      var (_, c4) := Expect(c3, Semi).value;
      MembersKeep(c4, names + {name}, ms + [EnumMember(name, value, c.tok.line)]);
    }
    if FrameFields(c, names, hasPayload, fs).Ok? {
      var (ty, c1) := Expect(c, Ident).value;
      var (name, c2) := Expect(c1, Ident).value;
      var (_, c3) := Expect(c2, Semi).value;
      var payload := ty == "payload";
      FrameFieldsKeep(c3, names + {name}, hasPayload || payload, fs + [FrameField(payload, ty, name, c.tok.line)]);
    }
  }
}
