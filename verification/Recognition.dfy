/** The parser reads nothing but the language: whatever text it accepts, the tokens of that text
    declare the file it returns.  With Language, where every declaration is read, the accepted
    texts and their results are exactly those that the language says. */
module Recognition {
  import opened Outcomes
  import opened Lexing
  import opened Rendering
  import opened Descriptions
  import opened Grammar
  import opened Language
  import Image

  // ---- from the cursor behind a construct back to the one in front of it ----

  lemma Back(c: Cursor, next: Cursor, k: Lexes)
    requires c.tok.kind != End && Advance(c) == Ok(next) && Sees(next, k)
    ensures Sees(c, More(Lex(c.tok.kind, c.tok.text), k))
  {
  }

  lemma BackWord(c: Cursor, kind: Tok, k: Lexes)
    requires kind != End && Expect(c, kind).Ok? && Sees(Expect(c, kind).value.1, k)
    ensures Sees(c, More(Lex(kind, Expect(c, kind).value.0), k))
  {
    hide Sees;
    Back(c, Expect(c, kind).value.1, k);
  }

  lemma BackMark(c: Cursor, kind: Tok, k: Lexes)
    requires kind !in {Ident, Int, End} && Expect(c, kind).Ok? && Sees(Expect(c, kind).value.1, k)
    ensures Sees(c, Mark(kind, k))
  {
    hide Sees;
    BackWord(c, kind, k);
    assert IsLexeme(c.tok.kind, c.tok.text);
  }

  lemma BackSign(c: Cursor, next: Cursor, k: Lexes)
    requires c.tok.kind !in {Ident, Int, End} && Advance(c) == Ok(next) && Sees(next, k)
    ensures Sees(c, Mark(c.tok.kind, k))
  {
    hide Sees;
    Back(c, next, k);
    assert IsLexeme(c.tok.kind, c.tok.text);
  }

  lemma EndSeen(c: Cursor, k: Lexes) returns (end: Lexes)
    requires Close(c).Ok? && Sees(Close(c).value, k)
    ensures IsEnd(end, k) && Sees(c, end)
  {
    hide Sees;
    var c1 := Expect(c, RBrace).value.1;
    if c1.tok.kind == Semi {
      Back(c1, Close(c).value, k);
      end := Mark(RBrace, Mark(Semi, k));
    } else {
      end := Mark(RBrace, k);
    }
    BackMark(c, RBrace, end.tail);
  }

  lemma {:induction false} MembersSeen(c: Cursor, names: set<string>, acc: seq<EnumMember>, k: Lexes)
    returns (ms: seq<EnumMember>)
    requires Members(c, names, acc).Ok? && Sees(Members(c, names, acc).value.1, k)
    ensures Members(c, names, acc).value.0 == acc + ms && Sees(c, PutMembers(ms, k))
    decreases Left(c)
  {
    hide Sees, Expect, Lexical, MembersWritable, PutMembers;
    if c.tok.kind == RBrace {
      ms := [];
      NoMembers(k);
    } else {
      var (name, c1) := Expect(c, Ident).value;
      var (_, c2) := Expect(c1, Equal).value;
      var (value, c3) := Expect(c2, Int).value;
      var (_, c4) := Expect(c3, Semi).value;
      var m := EnumMember(name, value, c.tok.line);
      var rest := MembersSeen(c4, names + {name}, acc + [m], k);
      ms := [m] + rest;
      assert acc + [m] + rest == acc + ms;
      var l4 := PutMembers(rest, k);
      MemberInFront(m, rest, k);
      BackMark(c3, Semi, l4);
      BackWord(c2, Int, Mark(Semi, l4));
      BackMark(c1, Equal, More(Lex(Int, value), Mark(Semi, l4)));
      BackWord(c, Ident, Mark(Equal, More(Lex(Int, value), Mark(Semi, l4))));
    }
  }

  lemma NoMembers(k: Lexes)
    ensures PutMembers([], k) == k
  {
  }

  lemma MemberInFront(m: EnumMember, rest: seq<EnumMember>, k: Lexes)
    ensures PutMembers([m] + rest, k) ==
            Id(m.name, Mark(Equal, More(Lex(Int, m.value), Mark(Semi, PutMembers(rest, k)))))
  {
    assert ([m] + rest)[1..] == rest;
  }

  lemma EnumSeen(c: Cursor, k: Lexes) returns (ls: Lexes)
    requires Enum(c).Ok? && Sees(Enum(c).value.1, k)
    ensures Sees(c, ls) && IsEnum(ls, Enum(c).value.0, k)
  {
    hide Sees, Expect, Members, Close, Lexical, MembersWritable;
    var (name, c1) := Expect(c, Ident).value;
    var (_, c2) := Expect(c1, Colon).value;
    var (underlying, c3) := Expect(c2, Ident).value;
    var (_, c4) := Expect(c3, LBrace).value;
    var (members, c5) := Members(c4, {}, []).value;
    var end := EndSeen(c5, k);
    var ms := MembersSeen(c4, {}, [], end);
    assert [] + ms == ms;
    var l4 := PutMembers(ms, end);
    BackMark(c3, LBrace, l4);
    BackWord(c2, Ident, Mark(LBrace, l4));
    BackMark(c1, Colon, Id(underlying, Mark(LBrace, l4)));
    ls := Id(name, Mark(Colon, Id(underlying, Mark(LBrace, l4))));
    BackWord(c, Ident, ls.tail);
  }

  lemma LengthSeen(c: Cursor, k: Lexes) returns (ls: Lexes)
    requires LengthRef(c).Ok? && Sees(LengthRef(c).value.1, k)
    ensures var ref := LengthRef(c).value.0;
            Sees(c, ls) && ls == if ref == "" then k else Mark(LBrack, Id(ref, Mark(RBrack, k)))
  {
    hide Sees, Expect;
    if c.tok.kind == LBrack {
      var c1 := Advance(c).value;
      var (ref, c2) := Expect(c1, Ident).value;
      BackMark(c2, RBrack, k);
      BackWord(c1, Ident, Mark(RBrack, k));
      BackSign(c, c1, Id(ref, Mark(RBrack, k)));
      WordRead(c1);
      ls := Mark(LBrack, Id(ref, Mark(RBrack, k)));
    } else {
      ls := k;
    }
  }

  lemma WordRead(c: Cursor)
    requires Expect(c, Ident).Ok?
    ensures Expect(c, Ident).value.0 == c.tok.text && c.tok.kind == Ident && c.tok.text != ""
  {
    assert IsLexeme(c.tok.kind, c.tok.text);
  }

  /** A field: undirected, or a parameter. */
  lemma FieldSeen(c: Cursor, directed: bool, k: Lexes) returns (ls: Lexes)
    requires AField(c, directed).Ok? && Sees(AField(c, directed).value.1, k)
    ensures Sees(c, ls)
    ensures var f := AField(c, directed).value.0; if directed then IsParam(ls, f, k) else ls == PutField(f, k)
  {
    hide Sees, Expect, Lexical, LengthRef, FieldWritable;
    var (dir, c1) := Direction(c, directed).value;
    var (ty, c2) := Expect(c1, Ident).value;
    var (name, c3) := Expect(c2, Ident).value;
    var (ref, c4) := LengthRef(c3).value;
    var l3 := LengthSeen(c3, k);
    BackWord(c2, Ident, l3);
    BackWord(c1, Ident, Id(name, l3));
    var f := AField(c, directed).value.0;
    ls := PutField(f, k);
    assert ls == Id(ty, Id(name, l3));
    WordRead(c1);
    if IsDirection(c.tok) {
      Back(c, c1, ls);
      ls := Id(if f.dir == Dir.Out then "out" else "in", ls);
    }
  }

  lemma {:induction false} StructFieldsSeen(c: Cursor, names: set<string>, acc: seq<Field>, k: Lexes)
    returns (fs: seq<Field>)
    requires StructFields(c, names, acc).Ok? && Sees(StructFields(c, names, acc).value.1, k)
    ensures StructFields(c, names, acc).value.0 == acc + fs && Sees(c, PutStructFields(fs, k))
    decreases Left(c)
  {
    hide Sees, Expect, Lexical, AField, PutField, FieldsWritable, FieldWritable;
    if c.tok.kind == RBrace {
      fs := [];
    } else {
      var (field, c1) := AField(c, false).value;
      var (_, c2) := Expect(c1, Semi).value;
      var rest := StructFieldsSeen(c2, names + {field.name}, acc + [field], k);
      fs := [field] + rest;
      assert acc + [field] + rest == acc + fs && fs[1..] == rest;
      var l2 := PutStructFields(rest, k);
      BackMark(c1, Semi, l2);
      var ls := FieldSeen(c, false, Mark(Semi, l2));
    }
  }

  lemma StructSeen(c: Cursor, k: Lexes) returns (ls: Lexes)
    requires Struct(c).Ok? && Sees(Struct(c).value.1, k)
    ensures Sees(c, ls) && IsStruct(ls, Struct(c).value.0, k)
  {
    hide Sees, Expect, StructFields, Close, Lexical, FieldsWritable;
    var (name, c1) := Expect(c, Ident).value;
    var (_, c2) := Expect(c1, LBrace).value;
    var (fields, c3) := StructFields(c2, {}, []).value;
    var end := EndSeen(c3, k);
    var fs := StructFieldsSeen(c2, {}, [], end);
    assert [] + fs == fs;
    BackMark(c1, LBrace, PutStructFields(fs, end));
    ls := Id(name, Mark(LBrace, PutStructFields(fs, end)));
    BackWord(c, Ident, ls.tail);
  }

  lemma {:induction false} FrameFieldsSeen(c: Cursor, names: set<string>, hasPayload: bool, acc: FrameDecl, k: Lexes)
    returns (fs: FrameDecl)
    requires FrameFields(c, names, hasPayload, acc).Ok? && Sees(FrameFields(c, names, hasPayload, acc).value.1, k)
    ensures FrameFields(c, names, hasPayload, acc).value.0 == acc + fs && Sees(c, PutFrameFields(fs, k))
    decreases Left(c)
  {
    hide Sees, Expect, Lexical, FrameWritable, PutFrameFields;
    if c.tok.kind == RBrace {
      fs := [];
      NoFrameFields(k);
    } else {
      var (ty, c1) := Expect(c, Ident).value;
      var (name, c2) := Expect(c1, Ident).value;
      var (_, c3) := Expect(c2, Semi).value;
      var f := FrameField(ty == "payload", ty, name, c.tok.line);
      var rest := FrameFieldsSeen(c3, names + {name}, hasPayload || ty == "payload", acc + [f], k);
      fs := [f] + rest;
      assert acc + [f] + rest == acc + fs;
      var l3 := PutFrameFields(rest, k);
      FrameFieldInFront(f, rest, k);
      BackMark(c2, Semi, l3);
      BackWord(c1, Ident, Mark(Semi, l3));
      BackWord(c, Ident, Id(name, Mark(Semi, l3)));
    }
  }

  lemma NoFrameFields(k: Lexes)
    ensures PutFrameFields([], k) == k
  {
  }

  lemma FrameFieldInFront(f: FrameField, rest: FrameDecl, k: Lexes)
    ensures PutFrameFields([f] + rest, k) == Id(f.ty, Id(f.name, Mark(Semi, PutFrameFields(rest, k))))
  {
    assert ([f] + rest)[1..] == rest;
  }

  lemma FrameSeen(c: Cursor, k: Lexes)
    requires Frame(c).Ok? && Sees(Frame(c).value.1, k)
    ensures Sees(c, PutFrame(Frame(c).value.0, k))
  {
    hide Sees, Expect, FrameFields, Lexical, FrameWritable;
    var (_, c1) := Expect(c, LBrace).value;
    var (fields, c2) := FrameFields(c1, {}, false, []).value;
    BackMark(c2, RBrace, k);
    var fs := FrameFieldsSeen(c1, {}, false, [], Mark(RBrace, k));
    assert [] + fs == fs;
    BackMark(c, LBrace, PutFrameFields(fs, Mark(RBrace, k)));
  }

  lemma {:induction false} PartsSeen(c: Cursor, acc: seq<string>, k: Lexes) returns (parts: seq<string>)
    requires ScopedName(c, acc).Ok? && Sees(ScopedName(c, acc).value.1, k)
    ensures ScopedName(c, acc).value.0 == acc + parts && Sees(c, PutParts(parts, k))
    decreases Left(c)
  {
    hide Sees, Expect, Advance, Lexical, IsIdent;
    if c.tok.kind != Scope {
      parts := [];
    } else {
      var c1 := Advance(c).value;
      var (part, c2) := Expect(c1, Ident).value;
      var rest := PartsSeen(c2, acc + [part], k);
      parts := [part] + rest;
      assert acc + [part] + rest == acc + parts && parts[1..] == rest;
      BackWord(c1, Ident, PutParts(rest, k));
      BackSign(c, c1, Id(part, PutParts(rest, k)));
    }
  }

  lemma ResponseSeen(c: Cursor, d: CommandDecl, k: Lexes)
    requires Response(c).Ok? && Sees(Response(c).value.1, k)
    requires d.responseNone == Response(c).value.0.None?
    requires !d.responseNone ==> d.response == Response(c).value.0.value
    ensures Sees(c, PutResponse(d, k))
  {
    hide Sees, Expect, Frame, Lexical;
    if c.tok.kind == Ident && c.tok.text == "none" {
      var c1 := Advance(c).value;
      BackMark(c1, Semi, k);
      Back(c, c1, Mark(Semi, k));
    } else {
      FrameSeen(c, k);
    }
  }

  /** Both sections, from nothing. */
  lemma SectionsSeen(c: Cursor, d: CommandDecl, k: Lexes) returns (ls: Lexes)
    requires Sections(c, None, None).Ok? && Sees(Sections(c, None, None).value.2, k)
    requires Sections(c, None, None).value.0 == Some(d.request)
    requires var response := Sections(c, None, None).value.1;
             && response.Some? && d.responseNone == response.value.None?
             && (!d.responseNone ==> d.response == response.value.value)
    ensures Sees(c, ls) && IsSections(ls, d, k)
  {
    hide Sees, Expect, Frame, Response, Lexical, PutFrame, PutResponse, CommandWritable;
    var (section, c1) := Expect(c, Ident).value;
    if section == "request" {
      var (request, c2) := Frame(c1).value;
      var (second, c3) := Expect(c2, Ident).value;
      var (response, c4) := Response(c3).value;
      SectionsDone(c4, Some(request), Some(response));
      ResponseSeen(c3, d, k);
      BackWord(c2, Ident, PutResponse(d, k));
      FrameSeen(c1, Id("response", PutResponse(d, k)));
      ls := Id("request", PutFrame(d.request, Id("response", PutResponse(d, k))));
    } else {
      var (response, c2) := Response(c1).value;
      var (second, c3) := Expect(c2, Ident).value;
      var (request, c4) := Frame(c3).value;
      SectionsDone(c4, Some(request), Some(response));
      FrameSeen(c3, k);
      BackWord(c2, Ident, PutFrame(d.request, k));
      ResponseSeen(c1, d, Id("request", PutFrame(d.request, k)));
      ls := Id("response", PutResponse(d, Id("request", PutFrame(d.request, k))));
    }
    BackWord(c, Ident, ls.tail);
  }

  /** With both sections there, only the end is accepted. */
  lemma SectionsDone(c: Cursor, request: Option<FrameDecl>, response: Option<Option<FrameDecl>>)
    requires request.Some? && response.Some? && Sections(c, request, response).Ok?
    ensures Sections(c, request, response) == Ok((request, response, c))
  {
    hide Expect, Frame, Response;
  }

  lemma CommandSeen(c: Cursor, names: set<string>, k: Lexes) returns (ls: Lexes)
    requires Command(c, names).Ok? && Sees(Command(c, names).value.1, k)
    ensures Sees(c, ls) && IsCommand(ls, Command(c, names).value.0, k)
  {
    hide Sees, Expect, ScopedName, Sections, Close, Lexical, CommandWritable, PathWritable, PutParts;
    var (name, c1) := Expect(c, Ident).value;
    var (_, c2) := Expect(c1, Equal).value;
    var (head, c3) := Expect(c2, Ident).value;
    var (path, c4) := ScopedName(c3, [head]).value;
    var (_, c5) := Expect(c4, LBrace).value;
    var (request, response, c6) := Sections(c5, None, None).value;
    var d := Command(c, names).value.0;
    var end := EndSeen(c6, k);
    var sections := SectionsSeen(c5, d, end);
    BackMark(c4, LBrace, sections);
    var parts := PartsSeen(c3, [head], Mark(LBrace, sections));
    assert ([head] + parts)[1..] == parts;
    BackWord(c2, Ident, PutParts(parts, Mark(LBrace, sections)));
    BackMark(c1, Equal, PutPath(path, Mark(LBrace, sections)));
    ls := Id(name, Mark(Equal, PutPath(path, Mark(LBrace, sections))));
    BackWord(c, Ident, ls.tail);
  }

  lemma {:induction false} ItemsSeen(c: Cursor, names: set<string>, header: string, acc: seq<CommandDecl>, k: Lexes)
    returns (ls: Lexes, later: string, cs: seq<CommandDecl>)
    requires ProtocolItems(c, names, header, acc).Ok? && Sees(ProtocolItems(c, names, header, acc).value.2, k)
    ensures Sees(c, ls) && IsItems(ls, later, cs, k)
    ensures var (all, commands, _) := ProtocolItems(c, names, header, acc).value;
            commands == acc + cs && all == (if later == "" then header else later) && (header != "" ==> later == "")
    decreases Left(c)
  {
    hide Sees, Expect, Command, Lexical, IsItems;
    if c.tok.kind == RBrace {
      NoItems(k);
      ls, later, cs := k, "", [];
    } else {
      var (keyword, c1) := Expect(c, Ident).value;
      if keyword == "request" {
        var (ty, c2) := Expect(c1, Ident).value;
        var (_, c3) := Expect(c2, Semi).value;
        WordRead(c1);
        ls, later, cs := ItemsSeen(c3, names, ty, acc, k);
        HeaderInFront(ty, ls, cs, k);
        BackMark(c2, Semi, ls);
        BackWord(c1, Ident, Mark(Semi, ls));
        ls, later := Id("request", Id(ty, Mark(Semi, ls))), ty;
      } else {
        var (d, c2) := Command(c1, names).value;
        ls, later, cs := ItemsSeen(c2, names + {d.name}, header, acc + [d], k);
        assert acc + [d] + cs == acc + ([d] + cs);
        var command := CommandSeen(c1, names, ls);
        CommandInFront(command, d, ls, later, cs, k);
        ls, cs := Id("command", command), [d] + cs;
      }
      BackWord(c, Ident, ls.tail);
    }
  }

  lemma NoItems(k: Lexes)
    ensures IsItems(k, "", [], k)
  {
  }

  lemma HeaderInFront(header: string, rest: Lexes, cs: seq<CommandDecl>, k: Lexes)
    requires header != "" && IsItems(rest, "", cs, k)
    ensures IsItems(Id("request", Id(header, Mark(Semi, rest))), header, cs, k)
  {
    hide IsCommand, Lexical, IsIdent;
  }

  lemma CommandInFront(command: Lexes, d: CommandDecl, rest: Lexes, header: string, cs: seq<CommandDecl>, k: Lexes)
    requires IsCommand(command, d, rest) && IsItems(rest, header, cs, k)
    ensures IsItems(Id("command", command), header, [d] + cs, k)
  {
    hide IsCommand, Lexical, IsIdent;
    assert ([d] + cs)[1..] == cs;
  }

  lemma ProtocolSeen(c: Cursor, k: Lexes) returns (ls: Lexes)
    requires Protocol(c).Ok? && Sees(Protocol(c).value.1, k)
    ensures Sees(c, ls) && IsProtocol(ls, Protocol(c).value.0, k)
  {
    hide Sees, Expect, ProtocolItems, Close, Lexical, IsItems;
    var (name, c1) := Expect(c, Ident).value;
    var (_, c2) := Expect(c1, LBrace).value;
    var (header, commands, c3) := ProtocolItems(c2, {}, "", []).value;
    var end := EndSeen(c3, k);
    var items, later, cs := ItemsSeen(c2, {}, "", [], end);
    assert [] + cs == cs;
    BackMark(c1, LBrace, items);
    ls := Id(name, Mark(LBrace, items));
    BackWord(c, Ident, ls.tail);
  }

  lemma {:induction false} ParamsSeen(c: Cursor, names: set<string>, acc: seq<Field>, k: Lexes)
    returns (ls: Lexes, fs: seq<Field>)
    requires Params(c, names, acc).Ok? && Sees(Params(c, names, acc).value.1, k)
    ensures fs != [] && Params(c, names, acc).value.0 == acc + fs
    ensures Sees(c, ls) && IsParams(ls, fs, k)
    decreases Left(c)
  {
    hide Sees, AField, IsParam, Advance;
    var (field, c1) := AField(c, true).value;
    if c1.tok.kind != Comma {
      fs := [field];
      ls := FieldSeen(c, true, k);
    } else {
      var c2 := Advance(c1).value;
      var rest, more := ParamsSeen(c2, names + {field.name}, acc + [field], k);
      BackSign(c1, c2, rest);
      ls := FieldSeen(c, true, Mark(Comma, rest));
      fs := [field] + more;
      assert acc + [field] + more == acc + fs && fs[1..] == more;
    }
  }

  lemma MethodSeen(c: Cursor, k: Lexes) returns (ls: Lexes)
    requires AMethod(c).Ok? && Sees(AMethod(c).value.1, k)
    ensures Sees(c, ls) && IsMethod(ls, AMethod(c).value.0, k)
  {
    hide Sees, Expect, Params, Lexical, IsParams;
    var (ret, c1) := Expect(c, Ident).value;
    var (name, c2) := Expect(c1, Ident).value;
    var (_, c3) := Expect(c2, LParen).value;
    var (params, c4) := if c3.tok.kind == RParen then ([], c3) else Params(c3, {}, []).value;
    var (_, c5) := Expect(c4, RParen).value;
    BackMark(c5, Semi, k);
    var close := Mark(RParen, Mark(Semi, k));
    BackMark(c4, RParen, Mark(Semi, k));
    var ps := close;
    if c3.tok.kind == RParen {
      assert IsParams(close, [], close) by { NoParams(close); }
    } else {
      var fs;
      ps, fs := ParamsSeen(c3, {}, [], close);
      assert [] + fs == fs;
    }
    BackMark(c2, LParen, ps);
    BackWord(c1, Ident, Mark(LParen, ps));
    ls := Id(ret, Id(name, Mark(LParen, ps)));
    BackWord(c, Ident, ls.tail);
  }

  lemma NoParams(k: Lexes)
    ensures IsParams(k, [], k)
  {
  }

  lemma {:induction false} MethodsSeen(c: Cursor, names: set<string>, acc: seq<Method>, k: Lexes)
    returns (ls: Lexes, ms: seq<Method>)
    requires Methods(c, names, acc).Ok? && Sees(Methods(c, names, acc).value.1, k)
    ensures Methods(c, names, acc).value.0 == acc + ms && Sees(c, ls) && IsMethods(ls, ms, k)
    decreases Left(c)
  {
    hide Sees, AMethod, IsMethod;
    if c.tok.kind == RBrace {
      ls, ms := k, [];
    } else {
      var (m, c1) := AMethod(c).value;
      var rest, more := MethodsSeen(c1, names + {m.name}, acc + [m], k);
      ls := MethodSeen(c, rest);
      ms := [m] + more;
      assert acc + [m] + more == acc + ms && ms[1..] == more;
    }
  }

  lemma InterfaceSeen(c: Cursor, k: Lexes) returns (ls: Lexes)
    requires AnInterface(c).Ok? && Sees(AnInterface(c).value.1, k)
    ensures Sees(c, ls) && IsInterface(ls, AnInterface(c).value.0, k)
  {
    hide Sees, Expect, Methods, Close, Lexical, IsMethods;
    var (name, c1) := Expect(c, Ident).value;
    var (_, c2) := Expect(c1, LBrace).value;
    var (methods, c3) := Methods(c2, {}, []).value;
    var end := EndSeen(c3, k);
    var body, ms := MethodsSeen(c2, {}, [], end);
    assert [] + ms == ms;
    BackMark(c1, LBrace, body);
    ls := Id(name, Mark(LBrace, body));
    BackWord(c, Ident, ls.tail);
  }

  function Joined(a: File, b: File): File {
    File(a.enums + b.enums, a.structs + b.structs, a.protocols + b.protocols, a.interfaces + b.interfaces)
  }

  // One declaration, in front of what is declared behind it:

  lemma EnumInFront(c: Cursor, file: File, k: Lexes, g: File) returns (ls: Lexes, f: File)
    requires Enum(c).Ok? && Sees(Enum(c).value.1, k) && Declares(k, g)
    ensures Sees(c, ls) && Declares(Id("enum", ls), f)
    ensures Joined(file.(enums := file.enums + [Enum(c).value.0]), g) == Joined(file, f)
  {
    hide Sees, Enum, IsEnum, Lexical, IsIdent;
    var d := Enum(c).value.0;
    ls := EnumSeen(c, k);
    f := g.(enums := [d] + g.enums);
    assert f.(enums := f.enums[1..]) == g && file.enums + [d] + g.enums == file.enums + f.enums;
    assert Id("enum", ls).head.text == "enum";
  }

  lemma StructInFront(c: Cursor, file: File, k: Lexes, g: File) returns (ls: Lexes, f: File)
    requires Struct(c).Ok? && Sees(Struct(c).value.1, k) && Declares(k, g)
    ensures Sees(c, ls) && Declares(Id("struct", ls), f)
    ensures Joined(file.(structs := file.structs + [Struct(c).value.0]), g) == Joined(file, f)
  {
    hide Sees, Struct, IsStruct, Lexical, IsIdent;
    var d := Struct(c).value.0;
    ls := StructSeen(c, k);
    f := g.(structs := [d] + g.structs);
    assert f.(structs := f.structs[1..]) == g && file.structs + [d] + g.structs == file.structs + f.structs;
    assert Id("struct", ls).head.text == "struct";
  }

  lemma ProtocolInFront(c: Cursor, file: File, k: Lexes, g: File) returns (ls: Lexes, f: File)
    requires Protocol(c).Ok? && Sees(Protocol(c).value.1, k) && Declares(k, g)
    ensures Sees(c, ls) && Declares(Id("protocol", ls), f)
    ensures Joined(file.(protocols := file.protocols + [Protocol(c).value.0]), g) == Joined(file, f)
  {
    hide Sees, Protocol, IsProtocol, Lexical, IsIdent;
    var d := Protocol(c).value.0;
    ls := ProtocolSeen(c, k);
    f := g.(protocols := [d] + g.protocols);
    assert f.(protocols := f.protocols[1..]) == g && file.protocols + [d] + g.protocols == file.protocols + f.protocols;
    assert Id("protocol", ls).head.text == "protocol";
  }

  lemma InterfaceInFront(c: Cursor, file: File, k: Lexes, g: File) returns (ls: Lexes, f: File)
    requires AnInterface(c).Ok? && Sees(AnInterface(c).value.1, k) && Declares(k, g)
    ensures Sees(c, ls) && Declares(Id("interface", ls), f)
    ensures Joined(file.(interfaces := file.interfaces + [AnInterface(c).value.0]), g) == Joined(file, f)
  {
    hide Sees, AnInterface, IsInterface, Lexical, IsIdent;
    var d := AnInterface(c).value.0;
    ls := InterfaceSeen(c, k);
    f := g.(interfaces := [d] + g.interfaces);
    assert f.(interfaces := f.interfaces[1..]) == g;
    assert file.interfaces + [d] + g.interfaces == file.interfaces + f.interfaces;
    assert Id("interface", ls).head.text == "interface";
  }

  lemma DeclarationSeen(c: Cursor, keyword: string, line: nat, file: File, k: Lexes, g: File)
    returns (ls: Lexes, f: File)
    requires Declaration(c, keyword, line, file).Ok? && Sees(Declaration(c, keyword, line, file).value.1, k)
    requires Declares(k, g)
    ensures Sees(c, ls) && Declares(Id(keyword, ls), f)
    ensures Joined(Declaration(c, keyword, line, file).value.0, g) == Joined(file, f)
  {
    hide Sees, Enum, Struct, Protocol, AnInterface, Declares, Lexical, Joined, IsIdent;
    if keyword == "enum" {
      ls, f := EnumInFront(c, file, k, g);
    } else if keyword == "struct" {
      ls, f := StructInFront(c, file, k, g);
    } else if keyword == "protocol" {
      ls, f := ProtocolInFront(c, file, k, g);
    } else {
      ls, f := InterfaceInFront(c, file, k, g);
    }
  }

  lemma {:induction false} DeclarationsSeen(c: Cursor, file: File) returns (ls: Lexes, f: File)
    requires Declarations(c, file).Ok?
    ensures Sees(c, ls) && Declares(ls, f) && Declarations(c, file).value == Joined(file, f)
    decreases Left(c)
  {
    hide Expect, Declaration;
    if c.tok.kind == End {
      ls, f := Done, File([], [], [], []);
      assert Joined(file, f) == file;
    } else {
      hide Sees, Declares;
      var (keyword, c1) := Expect(c, Ident).value;
      var (file', c2) := Declaration(c1, keyword, c.tok.line, file).value;
      var k, g := DeclarationsSeen(c2, file');
      var d;
      d, f := DeclarationSeen(c1, keyword, c.tok.line, file, k, g);
      ls := Id(keyword, d);
      BackWord(c, Ident, d);
    }
  }

  // ---- texts and files ----

  /** Every text that parses reads as tokens that declare the file it parses to. */
  lemma ParsedIsDeclared(src: string) returns (ls: Lexes)
    requires ParseText(src).Ok?
    ensures ReadAll(src, 0) == Ok(ls) && Declares(ls, ParseText(src).value) && Writable(ParseText(src).value)
  {
    Image.ParsedIsWritable(src);
    hide Declarations, Declares, Writable;
    var none := File([], [], [], []);
    var f;
    ls, f := DeclarationsSeen(Start(src).value, none);
    assert Joined(none, f) == f;
  }

  /** The parser recognises the language, and returns what it declares: a text parses to a file, up
      to line numbers, exactly if it reads as tokens that declare such a file and its names are
      distinct where they have to be. */
  lemma ParsedIffDeclared(src: string, g: File)
    ensures (ParseText(src).Ok? && Bare(ParseText(src).value) == Bare(g)) <==>
            exists ls, f :: ReadAll(src, 0) == Ok(ls) && Declares(ls, f) && Writable(f) && Bare(f) == Bare(g)
  {
    hide ParseText, Declares, Writable, Bare;
    if ParseText(src).Ok? && Bare(ParseText(src).value) == Bare(g) {
      var ls := ParsedIsDeclared(src);
    }
    if ls, f :| ReadAll(src, 0) == Ok(ls) && Declares(ls, f) && Writable(f) && Bare(f) == Bare(g) {
      DeclaredIsParsed(src, ls, f);
    }
  }
}
