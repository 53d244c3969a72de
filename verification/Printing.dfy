/** The canonical way to write a description down, as a sequence of tokens and as text,
    and the proof that the parser reads it back. */
module Printing {
  import opened Outcomes
  import opened Lexing
  import opened Rendering
  import opened Descriptions
  import opened Grammar
  import opened Language

  // Each printer puts the tokens of one construct in front of the tokens that follow it.

  lemma KeywordsAreIdents()
    ensures IsIdent("protocol") && IsIdent("interface") && IsIdent("command") && IsIdent("request")
            && IsIdent("response")
  {
  }

  function PutEnum(d: EnumDecl, k: Lexes): (r: Lexes)
    ensures EnumWritable(d) && Lexical(k) ==> Lexical(r)
  {
    Id("enum", Id(d.name, Mark(Colon, Id(d.underlying, Mark(LBrace,
       PutMembers(d.members, Mark(RBrace, Mark(Semi, k))))))))
  }

  function PutStruct(d: StructDecl, k: Lexes): (r: Lexes)
    ensures StructWritable(d) && Lexical(k) ==> Lexical(r)
  {
    Id("struct", Id(d.name, Mark(LBrace, PutStructFields(d.fields, Mark(RBrace, Mark(Semi, k))))))
  }

  function PutCommand(c: CommandDecl, k: Lexes): (r: Lexes)
    ensures CommandWritable(c) && Lexical(k) ==> Lexical(r)
  {
    KeywordsAreIdents();
    Id("command", Id(c.name, Mark(Equal, PutPath(c.enumValue, Mark(LBrace,
       Id("request", PutFrame(c.request, Id("response", PutResponse(c, Mark(RBrace, k))))))))))
  }

  function PutCommands(cs: seq<CommandDecl>, k: Lexes): (r: Lexes)
    ensures CommandsWritable(cs) && Lexical(k) ==> Lexical(r)
  {
    if cs == [] then k else PutCommand(cs[0], PutCommands(cs[1..], k))
  }

  function PutProtocol(d: ProtocolDecl, k: Lexes): (r: Lexes)
    ensures ProtocolWritable(d) && Lexical(k) ==> Lexical(r)
  {
    KeywordsAreIdents();
    var items := PutCommands(d.commands, Mark(RBrace, k));
    Id("protocol", Id(d.name, Mark(LBrace,
       if d.requestHeader == "" then items else Id("request", Id(d.requestHeader, Mark(Semi, items))))))
  }

  function PutParams(fs: seq<Field>, k: Lexes): (r: Lexes)
    ensures FieldsWritable(fs, true) && Lexical(k) ==> Lexical(r)
  {
    if fs == [] then k
    else
      var rest := if |fs| == 1 then k else Mark(Comma, PutParams(fs[1..], k));
      Id(if fs[0].dir == Dir.Out then "out" else "in", PutField(fs[0], rest))
  }

  function PutMethod(m: Method, k: Lexes): (r: Lexes)
    ensures MethodWritable(m) && Lexical(k) ==> Lexical(r)
  {
    Id(m.retType, Id(m.name, Mark(LParen, PutParams(m.params, Mark(RParen, Mark(Semi, k))))))
  }

  function PutMethods(ms: seq<Method>, k: Lexes): (r: Lexes)
    ensures MethodsWritable(ms) && Lexical(k) ==> Lexical(r)
  {
    if ms == [] then k else PutMethod(ms[0], PutMethods(ms[1..], k))
  }

  function PutInterface(d: Interface, k: Lexes): (r: Lexes)
    ensures InterfaceWritable(d) && Lexical(k) ==> Lexical(r)
  {
    KeywordsAreIdents();
    Id("interface", Id(d.name, Mark(LBrace, PutMethods(d.methods, Mark(RBrace, k)))))
  }

  function PutEnums(ds: seq<EnumDecl>, k: Lexes): (r: Lexes)
    ensures (forall i :: 0 <= i < |ds| ==> EnumWritable(ds[i])) && Lexical(k) ==> Lexical(r)
  {
    if ds == [] then k else PutEnum(ds[0], PutEnums(ds[1..], k))
  }

  function PutStructs(ds: seq<StructDecl>, k: Lexes): (r: Lexes)
    ensures (forall i :: 0 <= i < |ds| ==> StructWritable(ds[i])) && Lexical(k) ==> Lexical(r)
  {
    if ds == [] then k else PutStruct(ds[0], PutStructs(ds[1..], k))
  }

  function PutProtocols(ds: seq<ProtocolDecl>, k: Lexes): (r: Lexes)
    ensures (forall i :: 0 <= i < |ds| ==> ProtocolWritable(ds[i])) && Lexical(k) ==> Lexical(r)
  {
    if ds == [] then k else PutProtocol(ds[0], PutProtocols(ds[1..], k))
  }

  function PutInterfaces(ds: seq<Interface>, k: Lexes): (r: Lexes)
    ensures (forall i :: 0 <= i < |ds| ==> InterfaceWritable(ds[i])) && Lexical(k) ==> Lexical(r)
  {
    if ds == [] then k else PutInterface(ds[0], PutInterfaces(ds[1..], k))
  }

  /** The tokens of a whole file, declarations grouped by kind. */
  function PutFile(f: File): (r: Lexes)
    ensures Writable(f) ==> Lexical(r)
  {
    PutEnums(f.enums, PutStructs(f.structs, PutProtocols(f.protocols, PutInterfaces(f.interfaces, Done))))
  }

  // ---- what is printed is in the language ----

  lemma {:induction false} ParamsInLanguage(fs: seq<Field>, k: Lexes)
    ensures IsParams(PutParams(fs, k), fs, k)
    decreases |fs|
  {
    hide PutField, Lexical, FieldsWritable;
    if |fs| > 1 {
      ParamsInLanguage(fs[1..], k);
      assert IsParam(PutParams(fs, k), fs[0], Mark(Comma, PutParams(fs[1..], k)));
    }
  }

  lemma {:induction false} MethodsInLanguage(ms: seq<Method>, k: Lexes)
    ensures IsMethods(PutMethods(ms, k), ms, k)
    decreases |ms|
  {
    hide PutParams, IsParams, Lexical, MethodsWritable;
    if ms != [] {
      MethodsInLanguage(ms[1..], k);
      ParamsInLanguage(ms[0].params, Mark(RParen, Mark(Semi, PutMethods(ms[1..], k))));
      assert IsMethod(PutMethods(ms, k), ms[0], PutMethods(ms[1..], k));
    }
  }

  lemma {:induction false} CommandsInLanguage(cs: seq<CommandDecl>, k: Lexes)
    ensures IsItems(PutCommands(cs, k), "", cs, k)
    decreases |cs|
  {
    hide PutPath, PutFrame, PutResponse, Lexical, CommandsWritable;
    if cs != [] {
      CommandsInLanguage(cs[1..], k);
      var c, rest := cs[0], PutCommands(cs[1..], k);
      var end := Mark(RBrace, rest);
      var sections := Id("request", PutFrame(c.request, Id("response", PutResponse(c, end))));
      assert IsEnd(end, rest) && IsSections(sections, c, end);
      assert IsCommand(PutCommands(cs, k).tail, c, rest);
    }
  }

  lemma ProtocolInLanguage(d: ProtocolDecl, k: Lexes)
    ensures IsProtocol(PutProtocol(d, k).tail, d, k)
  {
    hide PutCommands, Lexical, ProtocolWritable;
    var end := Mark(RBrace, k);
    CommandsInLanguage(d.commands, end);
    assert IsEnd(end, k);
    var items := PutProtocol(d, k).tail.tail.tail;
    assert IsItems(items, d.requestHeader, d.commands, end);
  }

  lemma {:induction false} InterfacesInLanguage(ds: seq<Interface>)
    ensures Declares(PutInterfaces(ds, Done), File([], [], [], ds))
    decreases |ds|
  {
    hide PutMethods, Lexical, InterfaceWritable, IsMethods;
    if ds != [] {
      InterfacesInLanguage(ds[1..]);
      var rest := PutInterfaces(ds[1..], Done);
      var end := Mark(RBrace, rest);
      MethodsInLanguage(ds[0].methods, end);
      assert IsEnd(end, rest);
      assert IsInterface(PutInterfaces(ds, Done).tail, ds[0], rest);
      assert File([], [], [], ds).(interfaces := ds[1..]) == File([], [], [], ds[1..]);
    }
  }

  lemma {:induction false} ProtocolsInLanguage(ds: seq<ProtocolDecl>, f: File, k: Lexes)
    requires f.enums == [] && f.structs == [] && f.protocols == [] && Declares(k, f)
    ensures Declares(PutProtocols(ds, k), f.(protocols := ds))
    decreases |ds|
  {
    hide PutProtocol, Lexical, ProtocolWritable, IsProtocol, IsInterface;
    if ds != [] {
      ProtocolsInLanguage(ds[1..], f, k);
      ProtocolInLanguage(ds[0], PutProtocols(ds[1..], k));
      ProtocolStarts(ds[0], PutProtocols(ds[1..], k));
      assert f.(protocols := ds).(protocols := ds[1..]) == f.(protocols := ds[1..]);
    }
  }

  lemma ProtocolStarts(d: ProtocolDecl, k: Lexes)
    ensures PutProtocol(d, k) == Id("protocol", PutProtocol(d, k).tail)
  {
  }

  lemma {:induction false} StructsInLanguage(ds: seq<StructDecl>, f: File, k: Lexes)
    requires f.enums == [] && f.structs == [] && Declares(k, f)
    ensures Declares(PutStructs(ds, k), f.(structs := ds))
    decreases |ds|
  {
    hide PutStructFields, Lexical, StructWritable, IsProtocol, IsInterface;
    if ds != [] {
      StructsInLanguage(ds[1..], f, k);
      var rest := PutStructs(ds[1..], k);
      assert IsEnd(Mark(RBrace, Mark(Semi, rest)), rest);
      assert IsStruct(PutStructs(ds, k).tail, ds[0], rest);
      assert f.(structs := ds).(structs := ds[1..]) == f.(structs := ds[1..]);
    }
  }

  lemma {:induction false} EnumsInLanguage(ds: seq<EnumDecl>, f: File, k: Lexes)
    requires f.enums == [] && Declares(k, f)
    ensures Declares(PutEnums(ds, k), f.(enums := ds))
    decreases |ds|
  {
    hide PutMembers, Lexical, EnumWritable, IsStruct, IsProtocol, IsInterface;
    if ds != [] {
      EnumsInLanguage(ds[1..], f, k);
      var rest := PutEnums(ds[1..], k);
      assert IsEnd(Mark(RBrace, Mark(Semi, rest)), rest);
      assert IsEnum(PutEnums(ds, k).tail, ds[0], rest);
      assert f.(enums := ds).(enums := ds[1..]) == f.(enums := ds[1..]);
    }
  }

  lemma PrintedIsDeclared(f: File)
    ensures Declares(PutFile(f), f)
  {
    hide Declares, PutEnums, PutStructs, PutProtocols, PutInterfaces, Lexical;
    var l3 := PutInterfaces(f.interfaces, Done);
    var l2 := PutProtocols(f.protocols, l3);
    var l1 := PutStructs(f.structs, l2);
    InterfacesInLanguage(f.interfaces);
    ProtocolsInLanguage(f.protocols, File([], [], [], f.interfaces), l3);
    StructsInLanguage(f.structs, File([], [], f.protocols, f.interfaces), l2);
    EnumsInLanguage(f.enums, File([], f.structs, f.protocols, f.interfaces), l1);
  }

  /** A text that reads as the tokens of a writable file parses to that file, whatever the
      layout, up to line numbers. */
  lemma FileRead(src: string, f: File)
    requires Writable(f) && ReadAll(src, 0) == Ok(PutFile(f))
    ensures ParseText(src).Ok? && Bare(ParseText(src).value) == Bare(f)
  {
    PrintedIsDeclared(f);
    DeclaredIsParsed(src, PutFile(f), f);
  }

  // ---- canonical text ----

  /** The tokens with one blank behind each. */
  function Spread(ls: Lexes): Text {
    match ls
    case Done => Closing("")
    case More(lex, rest) => Word(lex, Spaced(Blank(' '), Spread(rest)))
  }

  function CanonicalText(f: File): string {
    Chars(Spread(PutFile(f)))
  }

  lemma SpreadIsLayout(ls: Lexes)
    requires Lexical(ls)
    ensures LaidOut(Spread(ls)) && LexesOf(Spread(ls)) == ls
  {
  }

  /** Parsing undoes printing, in every layout of the printed tokens. */
  lemma ParseUndoesPrint(f: File, t: Text)
    requires Writable(f) && LaidOut(t) && LexesOf(t) == PutFile(f)
    ensures ParseText(Chars(t)).Ok? && Bare(ParseText(Chars(t)).value) == Bare(f)
  {
    assert Chars(t)[0..] == Chars(t);
    LayoutIsRead(Chars(t), 0, t);
    FileRead(Chars(t), f);
  }

  /** ... and in particular in the canonical one. */
  lemma ParseUndoesCanonicalText(f: File)
    requires Writable(f)
    ensures ParseText(CanonicalText(f)).Ok? && Bare(ParseText(CanonicalText(f)).value) == Bare(f)
  {
    SpreadIsLayout(PutFile(f));
    ParseUndoesPrint(f, Spread(PutFile(f)));
  }
}
