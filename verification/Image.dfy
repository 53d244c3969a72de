/** Which files the parser can return: only writable ones.  Together with Printing, where
    every writable file is read back, this makes Writable exactly the parser's image. */
module Image {
  import opened Outcomes
  import opened Lexing
  import opened Descriptions
  import opened Grammar
  import opened Printing

  lemma {:induction false} MembersYield(c: Cursor, names: set<string>, acc: seq<EnumMember>)
    requires Members(c, names, acc).Ok? && MembersWritable(acc) && forall i :: 0 <= i < |acc| ==> acc[i].name in names
    ensures MembersWritable(Members(c, names, acc).value.0)
    decreases Left(c)
  {
    hide Expect;
    if c.tok.kind != RBrace {
      var (name, c1) := Expect(c, Ident).value;
      var (_, c2) := Expect(c1, Equal).value;
      var (value, c3) := Expect(c2, Int).value;
      var (_, c4) := Expect(c3, Semi).value;
      MembersYield(c4, names + {name}, acc + [EnumMember(name, value, c.tok.line)]);
    }
  }

  lemma FieldYield(c: Cursor, directed: bool)
    requires AField(c, directed).Ok?
    ensures FieldWritable(AField(c, directed).value.0, directed)
  {
    hide Advance;
  }

  lemma {:induction false} StructFieldsYield(c: Cursor, names: set<string>, acc: seq<Field>)
    requires StructFields(c, names, acc).Ok? && FieldsWritable(acc, false)
    requires forall i :: 0 <= i < |acc| ==> acc[i].name in names
    ensures FieldsWritable(StructFields(c, names, acc).value.0, false)
    decreases Left(c)
  {
    hide Expect, AField, FieldWritable;
    if c.tok.kind != RBrace {
      FieldYield(c, false);
      var (field, c1) := AField(c, false).value;
      var (_, c2) := Expect(c1, Semi).value;
      StructFieldsYield(c2, names + {field.name}, acc + [field]);
    }
  }

  lemma {:induction false} ParamsYield(c: Cursor, names: set<string>, acc: seq<Field>)
    requires Params(c, names, acc).Ok? && FieldsWritable(acc, true)
    requires forall i :: 0 <= i < |acc| ==> acc[i].name in names
    ensures FieldsWritable(Params(c, names, acc).value.0, true)
    decreases Left(c)
  {
    hide Advance, AField, FieldWritable;
    FieldYield(c, true);
    var (field, c1) := AField(c, true).value;
    assert FieldsWritable(acc + [field], true);
    if c1.tok.kind == Comma {
      ParamsYield(Advance(c1).value, names + {field.name}, acc + [field]);
    }
  }

  lemma {:induction false} FrameFieldsYield(c: Cursor, names: set<string>, hasPayload: bool, acc: FrameDecl)
    requires FrameFields(c, names, hasPayload, acc).Ok? && FrameWritable(acc)
    requires forall i :: 0 <= i < |acc| ==> acc[i].name in names && (acc[i].payload ==> hasPayload)
    ensures FrameWritable(FrameFields(c, names, hasPayload, acc).value.0)
    decreases Left(c)
  {
    hide Expect;
    if c.tok.kind != RBrace {
      var (ty, c1) := Expect(c, Ident).value;
      var (name, c2) := Expect(c1, Ident).value;
      var payload := ty == "payload";
      var (_, c3) := Expect(c2, Semi).value;
      FrameFieldsYield(c3, names + {name}, hasPayload || payload, acc + [FrameField(payload, ty, name, c.tok.line)]);
    }
  }

  lemma FrameYield(c: Cursor)
    requires Frame(c).Ok?
    ensures FrameWritable(Frame(c).value.0)
  {
    hide Expect;
    FrameFieldsYield(Expect(c, LBrace).value.1, {}, false, []);
  }

  lemma {:induction false} ScopedNameYield(c: Cursor, acc: seq<string>)
    requires ScopedName(c, acc).Ok? && PathWritable(acc)
    ensures PathWritable(ScopedName(c, acc).value.0)
    decreases Left(c)
  {
    hide Expect, Advance;
    if c.tok.kind == Scope {
      var c1 := Advance(c).value;
      var (part, c2) := Expect(c1, Ident).value;
      ScopedNameYield(c2, acc + [part]);
    }
  }

  predicate SomeFrameWritable(f: Option<FrameDecl>) {
    f.Some? ==> FrameWritable(f.value)
  }

  lemma {:induction false} SectionsYield(c: Cursor, request: Option<FrameDecl>, response: Option<Option<FrameDecl>>)
    requires Sections(c, request, response).Ok?
    requires SomeFrameWritable(request) && (response.Some? ==> SomeFrameWritable(response.value))
    ensures var (request', response', _) := Sections(c, request, response).value;
            SomeFrameWritable(request') && (response'.Some? ==> SomeFrameWritable(response'.value))
    decreases Left(c)
  {
    hide Expect, Frame, Advance, FrameWritable;
    if c.tok.kind != RBrace {
      var (section, c1) := Expect(c, Ident).value;
      if section == "request" {
        FrameYield(c1);
        var (frame, c2) := Frame(c1).value;
        SectionsYield(c2, Some(frame), response);
      } else {
        if !(c1.tok.kind == Ident && c1.tok.text == "none") {
          FrameYield(c1);
        }
        var (frame, c2) := Response(c1).value;
        SectionsYield(c2, request, Some(frame));
      }
    }
  }

  lemma CommandYield(c: Cursor, names: set<string>)
    requires Command(c, names).Ok?
    ensures CommandWritable(Command(c, names).value.0) && Command(c, names).value.0.name !in names
  {
    hide Expect, ScopedName, Sections, Close, FrameWritable;
    assert FrameWritable([]) by { EmptyFrame(); }
    var (name, c1) := Expect(c, Ident).value;
    var (_, c2) := Expect(c1, Equal).value;
    var (head, c3) := Expect(c2, Ident).value;
    ScopedNameYield(c3, [head]);
    var (path, c4) := ScopedName(c3, [head]).value;
    var (_, c5) := Expect(c4, LBrace).value;
    SectionsYield(c5, None, None);
  }

  lemma EmptyFrame()
    ensures FrameWritable([])
  {
  }

  lemma {:induction false} ProtocolItemsYield(c: Cursor, names: set<string>, header: string, acc: seq<CommandDecl>)
    requires ProtocolItems(c, names, header, acc).Ok? && CommandsWritable(acc)
    requires header == "" || IsIdent(header)
    requires forall i :: 0 <= i < |acc| ==> acc[i].name in names
    ensures var (header', commands, _) := ProtocolItems(c, names, header, acc).value;
            (header' == "" || IsIdent(header')) && CommandsWritable(commands)
    decreases Left(c)
  {
    hide Expect, Command, CommandWritable;
    if c.tok.kind != RBrace {
      var (keyword, c1) := Expect(c, Ident).value;
      if keyword == "request" {
        var (ty, c2) := Expect(c1, Ident).value;
        var (_, c3) := Expect(c2, Semi).value;
        ProtocolItemsYield(c3, names, ty, acc);
      } else {
        CommandYield(c1, names);
        var (command, c2) := Command(c1, names).value;
        assert CommandsWritable(acc + [command]);
        ProtocolItemsYield(c2, names + {command.name}, header, acc + [command]);
      }
    }
  }

  lemma {:induction false} MethodsYield(c: Cursor, names: set<string>, acc: seq<Method>)
    requires Methods(c, names, acc).Ok? && MethodsWritable(acc) && forall i :: 0 <= i < |acc| ==> acc[i].name in names
    ensures MethodsWritable(Methods(c, names, acc).value.0)
    decreases Left(c)
  {
    hide AMethod, MethodWritable;
    if c.tok.kind != RBrace {
      MethodYield(c);
      var (m, c1) := AMethod(c).value;
      assert MethodsWritable(acc + [m]);
      MethodsYield(c1, names + {m.name}, acc + [m]);
    }
  }

  lemma MethodYield(c: Cursor)
    requires AMethod(c).Ok?
    ensures MethodWritable(AMethod(c).value.0)
  {
    hide Expect, Params;
    var (_, c1) := Expect(c, Ident).value;
    var (_, c2) := Expect(c1, Ident).value;
    var (_, c3) := Expect(c2, LParen).value;
    if c3.tok.kind != RParen {
      ParamsYield(c3, {}, []);
    }
  }

  lemma DeclarationYield(c: Cursor, keyword: string, line: nat, file: File)
    requires Declaration(c, keyword, line, file).Ok? && Writable(file)
    ensures Writable(Declaration(c, keyword, line, file).value.0)
  {
    hide Expect, Members, StructFields, ProtocolItems, Methods, Close;
    hide EnumWritable, StructWritable, ProtocolWritable, InterfaceWritable;
    if keyword == "enum" {
      EnumYield(c);
    } else if keyword == "struct" {
      StructYield(c);
    } else if keyword == "protocol" {
      ProtocolYield(c);
    } else {
      InterfaceYield(c);
    }
  }

  lemma EnumYield(c: Cursor)
    requires Enum(c).Ok?
    ensures EnumWritable(Enum(c).value.0)
  {
    hide Expect, Members, Close;
    var (_, c1) := Expect(c, Ident).value;
    var (_, c2) := Expect(c1, Colon).value;
    var (_, c3) := Expect(c2, Ident).value;
    MembersYield(Expect(c3, LBrace).value.1, {}, []);
  }

  lemma StructYield(c: Cursor)
    requires Struct(c).Ok?
    ensures StructWritable(Struct(c).value.0)
  {
    hide Expect, StructFields, Close;
    StructFieldsYield(Expect(Expect(c, Ident).value.1, LBrace).value.1, {}, []);
  }

  lemma ProtocolYield(c: Cursor)
    requires Protocol(c).Ok?
    ensures ProtocolWritable(Protocol(c).value.0)
  {
    hide Expect, ProtocolItems, Close;
    ProtocolItemsYield(Expect(Expect(c, Ident).value.1, LBrace).value.1, {}, "", []);
  }

  lemma InterfaceYield(c: Cursor)
    requires AnInterface(c).Ok?
    ensures InterfaceWritable(AnInterface(c).value.0)
  {
    hide Expect, Methods, Close;
    MethodsYield(Expect(Expect(c, Ident).value.1, LBrace).value.1, {}, []);
  }

  lemma {:induction false} DeclarationsYield(c: Cursor, file: File)
    requires Declarations(c, file).Ok? && Writable(file)
    ensures Writable(Declarations(c, file).value)
    decreases Left(c)
  {
    hide Expect, Declaration, Writable;
    if c.tok.kind != End {
      var (keyword, c1) := Expect(c, Ident).value;
      DeclarationYield(c1, keyword, c.tok.line, file);
      var (file', c2) := Declaration(c1, keyword, c.tok.line, file).value;
      DeclarationsYield(c2, file');
    }
  }

  /** Whatever text is parsed, the file it yields can be written down. */
  lemma ParsedIsWritable(src: string)
    requires ParseText(src).Ok?
    ensures Writable(ParseText(src).value)
  {
    assert Writable(File([], [], [], []));
    hide Declarations, Writable, Start;
    DeclarationsYield(Start(src).value, File([], [], [], []));
  }

  /** The files the parser returns are, up to line numbers, exactly the writable ones. */
  lemma ParserImage(f: File)
    ensures Writable(f) <==> exists src :: ParseText(src).Ok? && Bare(ParseText(src).value) == Bare(f)
  {
    if Writable(f) {
      ParseUndoesCanonicalText(f);
    }
    if src :| ParseText(src).Ok? && Bare(ParseText(src).value) == Bare(f) {
      ParsedIsWritable(src);
      BareIsWritable(ParseText(src).value, f);
    }
  }

  lemma BareIsWritable(f: File, g: File)
    requires Writable(f) && Bare(f) == Bare(g)
    ensures Writable(g)
  {
    hide EnumWritable, StructWritable, ProtocolWritable, InterfaceWritable;
    forall i | 0 <= i < |g.enums| ensures EnumWritable(g.enums[i]) {
      assert BareEnum(f.enums[i]) == BareEnums(f.enums)[i] == BareEnums(g.enums)[i] == BareEnum(g.enums[i]);
      BareEnumWritable(f.enums[i], g.enums[i]);
    }
    forall i | 0 <= i < |g.structs| ensures StructWritable(g.structs[i]) {
      assert BareStruct(f.structs[i]) == BareStructs(f.structs)[i] == BareStructs(g.structs)[i] ==
             BareStruct(g.structs[i]);
      BareStructWritable(f.structs[i], g.structs[i]);
    }
    forall i | 0 <= i < |g.protocols| ensures ProtocolWritable(g.protocols[i]) {
      assert BareProtocol(f.protocols[i]) == BareProtocols(f.protocols)[i] == BareProtocols(g.protocols)[i] ==
             BareProtocol(g.protocols[i]);
      BareProtocolWritable(f.protocols[i], g.protocols[i]);
    }
    forall i | 0 <= i < |g.interfaces| ensures InterfaceWritable(g.interfaces[i]) {
      assert BareInterface(f.interfaces[i]) == BareInterfaces(f.interfaces)[i] == BareInterfaces(g.interfaces)[i] ==
             BareInterface(g.interfaces[i]);
      BareInterfaceWritable(f.interfaces[i], g.interfaces[i]);
    }
  }

  lemma BareEnumWritable(d: EnumDecl, e: EnumDecl)
    requires EnumWritable(d) && BareEnum(d) == BareEnum(e)
    ensures EnumWritable(e)
  {
    SameMembers(d.members, e.members);
  }

  lemma SameMembers(a: seq<EnumMember>, b: seq<EnumMember>)
    requires BareMembers(a) == BareMembers(b)
    ensures |a| == |b| && forall i :: 0 <= i < |a| ==> a[i].name == b[i].name && a[i].value == b[i].value
  {
    forall i | 0 <= i < |a| ensures a[i].name == b[i].name && a[i].value == b[i].value {
      assert BareMembers(a)[i] == BareMembers(b)[i];
    }
  }

  lemma SameFields(a: seq<Field>, b: seq<Field>)
    requires BareFields(a) == BareFields(b)
    ensures |a| == |b| && forall i :: 0 <= i < |a| ==> a[i] == b[i].(line := a[i].line)
  {
    forall i | 0 <= i < |a| ensures a[i] == b[i].(line := a[i].line) {
      assert BareFields(a)[i] == BareFields(b)[i];
    }
  }

  lemma SameFrame(a: FrameDecl, b: FrameDecl)
    requires BareFrame(a) == BareFrame(b)
    ensures |a| == |b| && forall i :: 0 <= i < |a| ==> a[i] == b[i].(line := a[i].line)
  {
    forall i | 0 <= i < |a| ensures a[i] == b[i].(line := a[i].line) {
      assert BareFrame(a)[i] == BareFrame(b)[i];
    }
  }

  lemma BareStructWritable(d: StructDecl, e: StructDecl)
    requires StructWritable(d) && BareStruct(d) == BareStruct(e)
    ensures StructWritable(e)
  {
    SameFields(d.fields, e.fields);
  }

  lemma BareCommandWritable(c: CommandDecl, d: CommandDecl)
    requires CommandWritable(c) && BareCommand(c) == BareCommand(d)
    ensures CommandWritable(d)
  {
    SameFrame(c.request, d.request);
    SameFrame(c.response, d.response);
  }

  lemma BareProtocolWritable(d: ProtocolDecl, e: ProtocolDecl)
    requires ProtocolWritable(d) && BareProtocol(d) == BareProtocol(e)
    ensures ProtocolWritable(e)
  {
    hide CommandWritable;
    assert |d.commands| == |BareCommands(d.commands)| == |e.commands|;
    forall i | 0 <= i < |e.commands|
      ensures CommandWritable(e.commands[i]) && e.commands[i].name == d.commands[i].name
    {
      assert BareCommand(d.commands[i]) == BareCommands(d.commands)[i] == BareCommands(e.commands)[i] ==
             BareCommand(e.commands[i]);
      BareCommandWritable(d.commands[i], e.commands[i]);
    }
  }

  lemma BareInterfaceWritable(d: Interface, e: Interface)
    requires InterfaceWritable(d) && BareInterface(d) == BareInterface(e)
    ensures InterfaceWritable(e)
  {
    assert |d.methods| == |BareMethods(d.methods)| == |e.methods|;
    forall i | 0 <= i < |e.methods| ensures MethodWritable(e.methods[i]) && e.methods[i].name == d.methods[i].name {
      assert BareMethod(d.methods[i]) == BareMethods(d.methods)[i] == BareMethods(e.methods)[i] ==
             BareMethod(e.methods[i]);
      SameFields(d.methods[i].params, e.methods[i].params);
    }
  }
}
