/** The front end of the description compiler as a whole: lex, parse, validate.  It accepts
    a text exactly when the text is some layout of a writable file that passes validation,
    and then returns that file. */
module FrontEnd {
  import opened Outcomes
  import opened Rendering
  import opened Descriptions
  import Grammar
  import opened Parsing
  import opened Validation
  import Printing
  import Image
  import Language
  import Recognition

  /** The file a text describes, if the compiler accepts the text. */
  function Compiled(src: string): Option<File> {
    match Grammar.ParseText(src)
    case Ok(f) => if Accepted(f) then Some(f) else None
    case Fail(_, _) => None
  }

  /** Where a failed validation is reported is not part of this model. */
  method Compile(src: string) returns (file: Option<File>)
    ensures file == Compiled(src)
  {
    hide Grammar.Declarations, Accepted;
    var parser := new Parser(src);
    var started := parser.Advance();
    if started.Fail? {
      return None;
    }
    var parsed := parser.ParseDeclarations();
    if parsed.Fail? {
      return None;
    }
    Image.ParsedIsWritable(src);
    var ok := Validate(parsed.value);
    return if ok then Some(parsed.value) else None;
  }

  // ---- validation does not look at line numbers ----

  lemma BareFrames(f: File, frame: FrameDecl)
    ensures FrameAccepted(Bare(f), BareFrame(frame)) <==> FrameAccepted(f, frame)
    ensures HasPayload(BareFrame(frame)) <==> HasPayload(frame)
  {
    forall name ensures Declares(Bare(f).structs, name) <==> Declares(f.structs, name) {
      BareDeclares(f, name);
    }
    forall i | 0 <= i < |frame|
      ensures BareFrame(frame)[i].payload == frame[i].payload && BareFrame(frame)[i].ty == frame[i].ty
    {
    }
    if HasPayload(frame) {
      var i :| 0 <= i < |frame| && frame[i].payload;
      assert BareFrame(frame)[i].payload;
    }
    if FrameAccepted(Bare(f), BareFrame(frame)) {
      forall i | 0 <= i < |frame|
        ensures frame[i].payload || Declares(f.structs, frame[i].ty) || IsIntegral(frame[i].ty)
      {
        assert BareFrame(frame)[i].ty == frame[i].ty;
      }
    }
  }

  lemma BareDeclares(f: File, name: string)
    ensures Declares(Bare(f).structs, name) <==> Declares(f.structs, name)
  {
    if Declares(f.structs, name) {
      var i :| 0 <= i < |f.structs| && f.structs[i].name == name;
      assert Bare(f).structs[i].name == name;
    }
  }

  lemma BareMethodAccepted(m: Method)
    ensures MethodAccepted(BareMethod(m)) <==> MethodAccepted(m)
  {
    var ps, qs := m.params, BareMethod(m).params;
    assert |ps| == |qs| && forall i :: 0 <= i < |ps| ==> qs[i] == ps[i].(line := 0);
    forall i | 0 <= i < |ps| ensures LengthResolves(ps, i) <==> LengthResolves(qs, i) {
      if LengthResolves(ps, i) && ps[i].lenRef != "" {
        var j :| 0 <= j < i && ps[j].name == ps[i].lenRef && IsIntegral(ps[j].ty);
        assert qs[j].name == qs[i].lenRef && IsIntegral(qs[j].ty);
      }
      if LengthResolves(qs, i) && qs[i].lenRef != "" {
        var j :| 0 <= j < i && qs[j].name == qs[i].lenRef && IsIntegral(qs[j].ty);
        assert ps[j].name == ps[i].lenRef && IsIntegral(ps[j].ty);
      }
    }
    if OneBlobEach(qs) {
      forall i, j | 0 <= i < j < |ps| ensures ps[i].lenRef == "" || ps[j].lenRef == "" || ps[i].dir != ps[j].dir {
        assert qs[i].lenRef == ps[i].lenRef && qs[j].lenRef == ps[j].lenRef;
      }
    }
  }

  lemma BareCommandAccepted(f: File, c: CommandDecl)
    ensures CommandAccepted(Bare(f), BareCommand(c)) <==> CommandAccepted(f, c)
  {
    BareFrames(f, c.request);
    BareFrames(f, c.response);
  }

  lemma BareProtocolAccepted(f: File)
    ensures ProtocolAccepted(Bare(f)) <==> ProtocolAccepted(f)
  {
    hide CommandAccepted, Declares;
    if |f.protocols| == 1 {
      var p := f.protocols[0];
      assert Bare(f).protocols[0] == BareProtocol(p);
      BareDeclares(f, p.requestHeader);
      var bare := BareProtocol(p).commands;
      forall i | 0 <= i < |p.commands|
        ensures bare[i].name == p.commands[i].name
                && (CommandAccepted(Bare(f), bare[i]) <==> CommandAccepted(f, p.commands[i]))
      {
        BareCommandAccepted(f, p.commands[i]);
      }
      if ProtocolAccepted(f) {
        var i :| 0 <= i < |p.commands| && p.commands[i].name == "IPCInterfaceCall";
        assert bare[i].name == "IPCInterfaceCall";
      }
    }
  }

  lemma BareInterfaceMember(f: File, name: string)
    ensures IsInterfaceMember(Bare(f), name) <==> IsInterfaceMember(f, name)
  {
    forall i | 0 <= i < |f.enums| ensures Bare(f).enums[i].members == BareMembers(f.enums[i].members) {
    }
    if IsInterfaceMember(f, name) {
      var i, k :| 0 <= i < |f.enums| && f.enums[i].name == "EIPCInterface"
                  && 0 <= k < |f.enums[i].members| && f.enums[i].members[k].name == name;
      assert Bare(f).enums[i].members[k].name == name;
    }
  }

  lemma BareInterfacesAccepted(f: File)
    ensures InterfacesAccepted(Bare(f)) <==> InterfacesAccepted(f)
  {
    hide MethodAccepted, IsInterfaceMember;
    var g := Bare(f);
    forall i | 0 <= i < |f.interfaces|
      ensures IsInterfaceMember(g, g.interfaces[i].name) <==> IsInterfaceMember(f, f.interfaces[i].name)
      ensures |g.interfaces[i].methods| == |f.interfaces[i].methods|
      ensures forall k :: 0 <= k < |f.interfaces[i].methods| ==>
                (MethodAccepted(g.interfaces[i].methods[k]) <==> MethodAccepted(f.interfaces[i].methods[k]))
    {
      BareInterfaceMember(f, f.interfaces[i].name);
      forall k | 0 <= k < |f.interfaces[i].methods|
        ensures MethodAccepted(g.interfaces[i].methods[k]) <==> MethodAccepted(f.interfaces[i].methods[k])
      {
        BareMethodAccepted(f.interfaces[i].methods[k]);
      }
    }
    assert forall i :: 0 <= i < |f.enums| ==> g.enums[i].name == f.enums[i].name;
  }

  lemma BareAccepted(f: File)
    ensures Accepted(Bare(f)) <==> Accepted(f)
  {
    assert TypeNames(Bare(f)) == TypeNames(f) && InterfaceNames(Bare(f)) == InterfaceNames(f);
    BareInterfacesAccepted(f);
    BareProtocolAccepted(f);
  }

  // ---- the front end ----

  /** Whatever is compiled is writable and passes validation. */
  lemma CompiledIsAccepted(src: string)
    requires Compiled(src).Some?
    ensures Writable(Compiled(src).value) && Accepted(Compiled(src).value)
  {
    Image.ParsedIsWritable(src);
  }

  /** Compiling undoes printing: every layout of a writable, accepted file compiles to it. */
  lemma CompileUndoesPrint(f: File, t: Text)
    requires Writable(f) && Accepted(f) && LaidOut(t) && LexesOf(t) == Printing.PutFile(f)
    ensures Compiled(Chars(t)).Some? && Bare(Compiled(Chars(t)).value) == Bare(f)
  {
    hide Accepted;
    Printing.ParseUndoesPrint(f, t);
    BareAccepted(f);
    BareAccepted(Grammar.ParseText(Chars(t)).value);
  }

  /** A text compiles to a file, up to line numbers, exactly if it reads as tokens that declare such a
      file, writable and accepted. */
  lemma CompiledIffDeclared(src: string, g: File)
    ensures (Compiled(src).Some? && Bare(Compiled(src).value) == Bare(g)) <==>
            exists ls, f :: ReadAll(src, 0) == Ok(ls) && Language.Declares(ls, f) && Writable(f) && Accepted(f)
                            && Bare(f) == Bare(g)
  {
    hide Accepted, Writable, Language.Declares, Bare, Grammar.ParseText;
    if Compiled(src).Some? && Bare(Compiled(src).value) == Bare(g) {
      var ls := Recognition.ParsedIsDeclared(src);
    }
    if ls, f :| ReadAll(src, 0) == Ok(ls) && Language.Declares(ls, f) && Writable(f) && Accepted(f)
                && Bare(f) == Bare(g) {
      Language.DeclaredIsParsed(src, ls, f);
      BareAccepted(f);
      BareAccepted(Grammar.ParseText(src).value);
    }
  }

  /** The files that can be compiled are, up to line numbers, the writable accepted ones. */
  lemma CompilerImage(f: File)
    ensures Writable(f) && Accepted(f) <==> exists src :: Compiled(src).Some? && Bare(Compiled(src).value) == Bare(f)
  {
    hide Accepted, Writable;
    if Writable(f) && Accepted(f) {
      Printing.SpreadIsLayout(Printing.PutFile(f));
      CompileUndoesPrint(f, Printing.Spread(Printing.PutFile(f)));
    }
    if src :| Compiled(src).Some? && Bare(Compiled(src).value) == Bare(f) {
      CompiledIsAccepted(src);
      Image.BareIsWritable(Compiled(src).value, f);
      BareAccepted(f);
      BareAccepted(Compiled(src).value);
    }
  }

  // ---- descriptions that compile ----

  /** A description around one interface call command and one method. */
  function Around(call: CommandDecl, m: Method): File {
    File([EnumDecl("EIPCInterface", "uint8", [EnumMember("IUser", "1", 1)], 1)],
         [StructDecl("Header", [], 1)],
         [ProtocolDecl("IPC", "Header", [call], 1)],
         [Interface("IUser", [m], 1)])
  }

  /** Any accepted command and method stand in some text that compiles. */
  lemma SomethingCompiles(call: CommandDecl, m: Method) returns (src: string)
    requires CommandWritable(call) && call.name == "IPCInterfaceCall" && CommandAccepted(Around(call, m), call)
    requires MethodWritable(m) && MethodAccepted(m)
    ensures Compiled(src).Some? && Bare(Compiled(src).value) == Bare(Around(call, m))
  {
    var f := Around(call, m);
    AroundIsWritable(call, m);
    AroundIsAccepted(call, m);
    hide Around;
    CompilerImage(f);
    src :| Compiled(src).Some? && Bare(Compiled(src).value) == Bare(f);
  }

  lemma AroundIsWritable(call: CommandDecl, m: Method)
    requires CommandWritable(call) && MethodWritable(m)
    ensures Writable(Around(call, m))
  {
    WordsAreIdents();
    hide IsIdent, CommandWritable, MethodWritable;
    OneMember();
  }

  lemma OneMember()
    ensures MembersWritable([EnumMember("IUser", "1", 1)])
  {
  }

  lemma AroundIsAccepted(call: CommandDecl, m: Method)
    requires call.name == "IPCInterfaceCall" && CommandAccepted(Around(call, m), call) && MethodAccepted(m)
    ensures Accepted(Around(call, m))
  {
    var f := Around(call, m);
    hide CommandAccepted, MethodAccepted;
    assert f.structs[0].name == "Header";
    assert f.enums[0].members[0].name == "IUser";
    assert f.protocols[0].commands[0].name == "IPCInterfaceCall";
  }

  /** The interface call command with the payload where the diagnostic wants it, or elsewhere. */
  function Call(request: FrameDecl): CommandDecl {
    CommandDecl("IPCInterfaceCall", ["EIPCCommand", "InterfaceCall"], request,
                [FrameField(false, "Header", "header", 1), FrameField(true, "payload", "body", 1)], false, 1)
  }

  function UsualCall(): CommandDecl {
    Call([FrameField(false, "Header", "header", 1), FrameField(true, "payload", "body", 1),
      FrameField(false, "uint32", "fencepost", 1)])
  }

  function OddCall(): CommandDecl {
    Call([FrameField(true, "payload", "header", 1), FrameField(false, "uint32", "body", 1),
      FrameField(false, "uint32", "fencepost", 1)])
  }

  lemma CallsAreAccepted(m: Method)
    ensures CommandWritable(UsualCall()) && CommandAccepted(Around(UsualCall(), m), UsualCall())
    ensures CommandWritable(OddCall()) && CommandAccepted(Around(OddCall(), m), OddCall())
  {
    hide CommandWritable, CommandAccepted, UsualCall, OddCall;
    CallIsWritable(UsualCall());
    CallIsWritable(OddCall());
    CallIsAccepted(UsualCall(), m, 1);
    CallIsAccepted(OddCall(), m, 0);
  }

  lemma CallIsWritable(c: CommandDecl)
    requires c == UsualCall() || c == OddCall()
    ensures CommandWritable(c)
  {
    WordsAreIdents();
    hide IsIdent;
  }

  lemma CallIsAccepted(c: CommandDecl, m: Method, at: nat)
    requires (c == UsualCall() && at == 1) || (c == OddCall() && at == 0)
    ensures CommandAccepted(Around(c, m), c)
  {
    FramesAreAccepted(c, m);
    hide FrameAccepted;
    assert c.request[at].payload && c.response[1].payload;
    assert ScopedText(["EIPCCommand"]) == "EIPCCommand";
    assert c.enumValue[..1] == ["EIPCCommand"];
  }

  lemma FramesAreAccepted(c: CommandDecl, m: Method)
    requires c == UsualCall() || c == OddCall()
    ensures FrameAccepted(Around(c, m), c.request) && FrameAccepted(Around(c, m), c.response)
  {
    var f := Around(c, m);
    assert f.structs[0].name == "Header";
    assert Declares(f.structs, "Header");
    hide Declares;
  }

  /** A method that reads data of the length another parameter gives. */
  function Reader(length: Field, data: Dir): Method {
    Method("Read", "bool", [length, Field(data, "bytes", "data", length.name, 1)], 1)
  }

  lemma ReaderIsAccepted(length: Field, data: Dir)
    requires length.ty == "uint32" && length.lenRef == "" && length.name != "data" && IsIdent(length.name)
    ensures MethodWritable(Reader(length, data)) && MethodAccepted(Reader(length, data))
  {
    WordsAreIdents();
    var ps := Reader(length, data).params;
    assert ps[0].name == ps[1].lenRef && IsIntegral(ps[0].ty);
    assert length.name != "";
    hide IsIdent;
  }

  /** A text that compiles with this command and this method. */
  lemma ReaderCompiles(call: CommandDecl, length: Field, data: Dir) returns (src: string)
    requires call == UsualCall() || call == OddCall()
    requires length.ty == "uint32" && length.lenRef == "" && length.name != "data" && IsIdent(length.name)
    ensures Compiled(src).Some?
    ensures var f := Compiled(src).value;
            && |f.protocols| == 1 && |f.protocols[0].commands| == 1
            && BareCommand(f.protocols[0].commands[0]) == BareCommand(call)
            && |f.interfaces| == 1 && |f.interfaces[0].methods| == 1
            && BareMethod(f.interfaces[0].methods[0]) == BareMethod(Reader(length, data))
  {
    var m := Reader(length, data);
    ReaderIsAccepted(length, data);
    CallsAreAccepted(m);
    hide Compiled, CommandWritable, CommandAccepted, MethodWritable, MethodAccepted, BareCommand, BareMethod;
    hide UsualCall, OddCall, Reader;
    assert call.name == "IPCInterfaceCall" by { NameOfCall(); }
    src := SomethingCompiles(call, m);
    var f := Compiled(src).value;
    SameParts(f, call, m);
  }

  lemma NameOfCall()
    ensures UsualCall().name == OddCall().name == "IPCInterfaceCall"
  {
  }

  lemma SameParts(f: File, call: CommandDecl, m: Method)
    requires Bare(f) == Bare(Around(call, m))
    ensures |f.protocols| == 1 && |f.protocols[0].commands| == 1
    ensures BareCommand(f.protocols[0].commands[0]) == BareCommand(call)
    ensures |f.interfaces| == 1 && |f.interfaces[0].methods| == 1
    ensures BareMethod(f.interfaces[0].methods[0]) == BareMethod(m)
  {
    hide BareCommand, BareMethod;
    SameCommand(f.protocols, ProtocolDecl("IPC", "Header", [call], 1), call);
    SameMethod(f.interfaces, Interface("IUser", [m], 1), m);
  }

  lemma SameCommand(ds: seq<ProtocolDecl>, d: ProtocolDecl, call: CommandDecl)
    requires BareProtocols(ds) == BareProtocols([d]) && d.commands == [call]
    ensures |ds| == 1 && |ds[0].commands| == 1 && BareCommand(ds[0].commands[0]) == BareCommand(call)
  {
    hide BareCommand;
    assert BareProtocol(ds[0]) == BareProtocols(ds)[0] == BareProtocol(d);
    var cs := ds[0].commands;
    assert BareCommands(cs) == BareCommands([call]);
    assert BareCommand(cs[0]) == BareCommands(cs)[0] == BareCommand(call);
  }

  lemma SameMethod(ds: seq<Interface>, d: Interface, m: Method)
    requires BareInterfaces(ds) == BareInterfaces([d]) && d.methods == [m]
    ensures |ds| == 1 && |ds[0].methods| == 1 && BareMethod(ds[0].methods[0]) == BareMethod(m)
  {
    hide BareMethod;
    assert BareInterface(ds[0]) == BareInterfaces(ds)[0] == BareInterface(d);
    var ms := ds[0].methods;
    assert BareMethods(ms) == BareMethods([m]);
    assert BareMethod(ms[0]) == BareMethods(ms)[0] == BareMethod(m);
  }

  // ---- the payload of an interface call ----

  /** The diagnostic for IPCInterfaceCall asks for a request of header, payload body and
      fencepost and a response of header and payload body.  Accepted are just as well those
      whose payload stands elsewhere: the body is the payload exactly if no other field has
      that type. */
  lemma PayloadIsBody(c: CommandDecl)
    requires CommandWritable(c) && InterfaceCallAccepted(c)
    ensures c.request[1].payload && c.response[1].payload <==>
            c.request[0].ty != "payload" && c.request[2].ty != "payload" && c.response[0].ty != "payload"
  {
    var i :| 0 <= i < |c.request| && c.request[i].payload;
    var j :| 0 <= j < |c.response| && c.response[j].payload;
  }

  /** And a text whose interface call has its payload in front does compile. */
  lemma PayloadMayStandElsewhere() returns (src: string)
    ensures Compiled(src).Some?
    ensures var f := Compiled(src).value;
            && |f.protocols| == 1 && |f.protocols[0].commands| == 1
            && var c := f.protocols[0].commands[0];
               c.name == "IPCInterfaceCall" && |c.request| == 3 && c.request[0].payload && !c.request[1].payload
  {
    WordsAreIdents();
    src := ReaderCompiles(OddCall(), Field(Dir.In, "uint32", "size", "", 1), Dir.Out);
    var c := Compiled(src).value.protocols[0].commands[0];
    hide Compiled;
    assert BareFrame(c.request) == BareFrame(OddCall().request);
    assert BareFrame(c.request)[0].payload == c.request[0].payload
           && BareFrame(c.request)[1].payload == c.request[1].payload;
  }

  lemma WordsAreIdents()
    ensures IsIdent("IPCInterfaceCall") && IsIdent("EIPCCommand") && IsIdent("InterfaceCall") && IsIdent("payload")
    ensures IsIdent("header") && IsIdent("uint32") && IsIdent("body") && IsIdent("fencepost") && IsIdent("Header")
    ensures IsIdent("EIPCInterface") && IsIdent("uint8") && IsIdent("IUser") && IsIdent("IPC") && IsIdent("Read")
    ensures IsIdent("bool") && IsIdent("size") && IsIdent("data") && IsIdent("bytes") && IsIdent("returnValue")
  {
    hide IsIdent;
    CallWords();
    MethodWords();
  }

  lemma CallWords()
    ensures IsIdent("IPCInterfaceCall") && IsIdent("EIPCCommand") && IsIdent("InterfaceCall") && IsIdent("payload")
    ensures IsIdent("header") && IsIdent("uint32") && IsIdent("body") && IsIdent("fencepost") && IsIdent("Header")
  {
  }

  lemma MethodWords()
    ensures IsIdent("EIPCInterface") && IsIdent("uint8") && IsIdent("IUser") && IsIdent("IPC") && IsIdent("Read")
    ensures IsIdent("bool") && IsIdent("size") && IsIdent("data") && IsIdent("bytes") && IsIdent("returnValue")
  {
  }
}
