/** The language of descriptions: which sequences of tokens declare which file.  Semicolons behind a
    closing brace and the marker of an input are optional, the sections of a command, the items
    of a protocol and the declarations of a file come in any order.  The parser reads every
    sequence of the language as the file it declares; Recognition proves that it reads no other. */
module Language {
  import opened Outcomes
  import opened Lexing
  import opened Rendering
  import opened Descriptions
  import opened Grammar

  // Each function puts the tokens of one construct in front of the tokens that follow it.

  /** Every token is one the lexer can deliver. */
  predicate Lexical(ls: Lexes) {
    match ls
    case Done => true
    case More(lex, rest) => lex.kind != End && IsLexeme(lex.kind, lex.text) && Lexical(rest)
  }

  function Id(s: string, k: Lexes): (r: Lexes)
    ensures IsIdent(s) && Lexical(k) ==> Lexical(r)
  {
    More(Lex(Ident, s), k)
  }

  function Mark(kind: Tok, k: Lexes): (r: Lexes)
    ensures Spelling(kind) != "" && Lexical(k) ==> Lexical(r)
  {
    More(Lex(kind, Spelling(kind)), k)
  }

  function PutMembers(ms: seq<EnumMember>, k: Lexes): (r: Lexes)
    ensures MembersWritable(ms) && Lexical(k) ==> Lexical(r)
  {
    if ms == [] then k
    else Id(ms[0].name, Mark(Equal, More(Lex(Int, ms[0].value), Mark(Semi, PutMembers(ms[1..], k)))))
  }

  /** A field without its direction. */
  function PutField(f: Field, k: Lexes): (r: Lexes)
    ensures FieldWritable(f, true) && Lexical(k) ==> Lexical(r)
  {
    var ref := if f.lenRef == "" then k else Mark(LBrack, Id(f.lenRef, Mark(RBrack, k)));
    Id(f.ty, Id(f.name, ref))
  }

  function PutStructFields(fs: seq<Field>, k: Lexes): (r: Lexes)
    ensures FieldsWritable(fs, false) && Lexical(k) ==> Lexical(r)
  {
    if fs == [] then k else PutField(fs[0], Mark(Semi, PutStructFields(fs[1..], k)))
  }

  function PutFrameFields(fs: FrameDecl, k: Lexes): (r: Lexes)
    ensures FrameWritable(fs) && Lexical(k) ==> Lexical(r)
  {
    if fs == [] then k else Id(fs[0].ty, Id(fs[0].name, Mark(Semi, PutFrameFields(fs[1..], k))))
  }

  function PutFrame(fs: FrameDecl, k: Lexes): (r: Lexes)
    ensures FrameWritable(fs) && Lexical(k) ==> Lexical(r)
  {
    Mark(LBrace, PutFrameFields(fs, Mark(RBrace, k)))
  }

  function PutParts(parts: seq<string>, k: Lexes): (r: Lexes)
    ensures (forall s :: s in parts ==> IsIdent(s)) && Lexical(k) ==> Lexical(r)
  {
    if parts == [] then k else Mark(Scope, Id(parts[0], PutParts(parts[1..], k)))
  }

  function PutPath(path: seq<string>, k: Lexes): (r: Lexes)
    ensures PathWritable(path) && Lexical(k) ==> Lexical(r)
  {
    if path == [] then k else Id(path[0], PutParts(path[1..], k))
  }

  function PutResponse(c: CommandDecl, k: Lexes): (r: Lexes)
    ensures CommandWritable(c) && Lexical(k) ==> Lexical(r)
  {
    if c.responseNone then Id("none", Mark(Semi, k)) else PutFrame(c.response, k)
  }

  // ---- the language ----

  /** The end of a declaration. */
  predicate IsEnd(ls: Lexes, k: Lexes) {
    ls == Mark(RBrace, k) || ls == Mark(RBrace, Mark(Semi, k))
  }

  // What stands behind the keyword of a declaration, in front of k:

  ghost predicate IsEnum(ls: Lexes, d: EnumDecl, k: Lexes) {
    exists end :: IsEnd(end, k)
                  && ls == Id(d.name, Mark(Colon, Id(d.underlying, Mark(LBrace, PutMembers(d.members, end)))))
  }

  ghost predicate IsStruct(ls: Lexes, d: StructDecl, k: Lexes) {
    exists end :: IsEnd(end, k) && ls == Id(d.name, Mark(LBrace, PutStructFields(d.fields, end)))
  }

  /** The two sections of a command. */
  predicate IsSections(ls: Lexes, d: CommandDecl, k: Lexes) {
    || ls == Id("request", PutFrame(d.request, Id("response", PutResponse(d, k))))
    || ls == Id("response", PutResponse(d, Id("request", PutFrame(d.request, k))))
  }

  ghost predicate IsCommand(ls: Lexes, d: CommandDecl, k: Lexes) {
    exists sections, end :: IsEnd(end, k) && IsSections(sections, d, end)
                            && ls == Id(d.name, Mark(Equal, PutPath(d.enumValue, Mark(LBrace, sections))))
  }

  /** The items of a protocol: at most one request header, and its commands. */
  ghost predicate IsItems(ls: Lexes, header: string, cs: seq<CommandDecl>, k: Lexes)
    decreases |cs| + if header == "" then 0 else 1
  {
    || (header == "" && cs == [] && ls == k)
    || (header != "" && exists rest :: ls == Id("request", Id(header, Mark(Semi, rest))) && IsItems(rest, "", cs, k))
    || (cs != [] && exists command, rest ::
          ls == Id("command", command) && IsCommand(command, cs[0], rest) && IsItems(rest, header, cs[1..], k))
  }

  ghost predicate IsProtocol(ls: Lexes, d: ProtocolDecl, k: Lexes) {
    exists items, end :: IsEnd(end, k) && IsItems(items, d.requestHeader, d.commands, end)
                         && ls == Id(d.name, Mark(LBrace, items))
  }

  /** A parameter: with its direction, or an input without; a type called like a direction needs
      one in front of it. */
  predicate IsParam(ls: Lexes, f: Field, k: Lexes) {
    || ls == Id(if f.dir == Dir.Out then "out" else "in", PutField(f, k))
    || (f.dir == Dir.In && f.ty != "in" && f.ty != "out" && ls == PutField(f, k))
  }

  ghost predicate IsParams(ls: Lexes, fs: seq<Field>, k: Lexes)
    decreases |fs|
  {
    if fs == [] then ls == k
    else if |fs| == 1 then IsParam(ls, fs[0], k)
    else exists rest :: IsParam(ls, fs[0], Mark(Comma, rest)) && IsParams(rest, fs[1..], k)
  }

  ghost predicate IsMethod(ls: Lexes, m: Method, k: Lexes) {
    exists params :: IsParams(params, m.params, Mark(RParen, Mark(Semi, k)))
                     && ls == Id(m.retType, Id(m.name, Mark(LParen, params)))
  }

  ghost predicate IsMethods(ls: Lexes, ms: seq<Method>, k: Lexes)
    decreases |ms|
  {
    if ms == [] then ls == k
    else exists rest :: IsMethod(ls, ms[0], rest) && IsMethods(rest, ms[1..], k)
  }

  ghost predicate IsInterface(ls: Lexes, d: Interface, k: Lexes) {
    exists methods, end :: IsEnd(end, k) && IsMethods(methods, d.methods, end)
                           && ls == Id(d.name, Mark(LBrace, methods))
  }

  function Size(f: File): nat {
    |f.enums| + |f.structs| + |f.protocols| + |f.interfaces|
  }

  /** The token sequence ls declares the file f. */
  ghost predicate Declares(ls: Lexes, f: File)
    decreases Size(f)
  {
    if ls == Done then Size(f) == 0
    else
      && ls.head.kind == Ident
      && match ls.head.text
         case "enum" => f.enums != [] && exists rest ::
           IsEnum(ls.tail, f.enums[0], rest) && Declares(rest, f.(enums := f.enums[1..]))
         case "struct" => f.structs != [] && exists rest ::
           IsStruct(ls.tail, f.structs[0], rest) && Declares(rest, f.(structs := f.structs[1..]))
         case "protocol" => f.protocols != [] && exists rest ::
           IsProtocol(ls.tail, f.protocols[0], rest) && Declares(rest, f.(protocols := f.protocols[1..]))
         case "interface" => f.interfaces != [] && exists rest ::
           IsInterface(ls.tail, f.interfaces[0], rest) && Declares(rest, f.(interfaces := f.interfaces[1..]))
         case _ => false
  }

  // ---- the parser reads it, construct by construct ----

  /** The cursor looks at the first of these tokens and will be handed the others. */
  predicate Sees(c: Cursor, ls: Lexes) {
    match ls
    case Done => c.tok.kind == End
    case More(lex, rest) => lex == Lex(c.tok.kind, c.tok.text) && lex.kind != End && ReadAll(c.src, c.at) == Ok(rest)
  }

  /** One step: the cursor is on the first token, and consuming it leaves the others. */
  lemma Take(c: Cursor, ls: Lexes) returns (next: Cursor)
    requires ls.More? && Sees(c, ls)
    ensures c.tok.kind == ls.head.kind && c.tok.text == ls.head.text && c.tok.kind != End
    ensures Advance(c) == Ok(next) && Expect(c, ls.head.kind) == Ok((ls.head.text, next))
    ensures Sees(next, ls.tail)
  {
    var t := NextToken(c.src, c.at);
    assert t.Ok?;
    if t.value.0.kind != End {
      assert ReadAll(c.src, t.value.1).Ok?;
    }
    next := Advance(c).value;
  }

  /** A semicolon behind the end is part of it. */
  predicate NoSemi(k: Lexes) {
    k.More? ==> k.head.kind != Semi
  }

  lemma TakeEnd(c: Cursor, ls: Lexes, k: Lexes) returns (next: Cursor)
    requires IsEnd(ls, k) && Sees(c, ls) && NoSemi(k)
    ensures Close(c) == Ok(next) && Sees(next, k) && c.tok.kind == RBrace
  {
    next := Take(c, ls);
    if ls.tail != k {
      next := Take(next, ls.tail);
    } else if k.More? {
      var _ := Take(next, k);
    }
  }

  lemma BareMembersSplit(acc: seq<EnumMember>, d: EnumMember, ds: seq<EnumMember>)
    requires ds != [] && d == ds[0].(line := d.line)
    ensures BareMembers(acc + [d]) + BareMembers(ds[1..]) == BareMembers(acc) + BareMembers(ds)
  {
  }

  lemma BareMembersEmpty(acc: seq<EnumMember>)
    ensures BareMembers(acc) == BareMembers(acc) + BareMembers([])
  {
  }

  lemma {:induction false} MembersRead(c: Cursor, names: set<string>, acc: seq<EnumMember>, ms: seq<EnumMember>,
                                       k: Lexes)
    requires MembersWritable(ms) && forall i :: 0 <= i < |ms| ==> ms[i].name !in names
    requires Sees(c, PutMembers(ms, k)) && k.More? && k.head.kind == RBrace
    ensures var r := Members(c, names, acc);
            && r.Ok? && Sees(r.value.1, k)
            && BareMembers(r.value.0) == BareMembers(acc) + BareMembers(ms)
    decreases |ms|
  {
    hide Advance, Expect, Sees, Lexical, BareMembers;
    var ls := PutMembers(ms, k);
    var c1 := Take(c, ls);
    if ms != [] {
      var c2 := Take(c1, ls.tail);
      var c3 := Take(c2, ls.tail.tail);
      var c4 := Take(c3, ls.tail.tail.tail);
      var m := ms[0].(line := c.tok.line);
      MembersRead(c4, names + {m.name}, acc + [m], ms[1..], k);
      BareMembersSplit(acc, m, ms);
    } else {
      BareMembersEmpty(acc);
    }
  }

  lemma EnumRead(c: Cursor, ls: Lexes, d: EnumDecl, k: Lexes)
    requires EnumWritable(d) && IsEnum(ls, d, k) && Sees(c, ls) && NoSemi(k)
    ensures var r := Enum(c);
            r.Ok? && Sees(r.value.1, k) && BareEnum(r.value.0) == BareEnum(d)
  {
    hide Advance, Expect, Sees, Close, Lexical;
    var end :| IsEnd(end, k)
               && ls == Id(d.name, Mark(Colon, Id(d.underlying, Mark(LBrace, PutMembers(d.members, end)))));
    var c1 := Take(c, ls);
    var c2 := Take(c1, ls.tail);
    var c3 := Take(c2, ls.tail.tail);
    var c4 := Take(c3, ls.tail.tail.tail);
    MembersRead(c4, {}, [], d.members, end);
    var c5 := TakeEnd(Members(c4, {}, []).value.1, end, k);
  }

  lemma FieldRead(c: Cursor, f: Field, directed: bool, ls: Lexes, k: Lexes)
    requires FieldWritable(f, directed) && Sees(c, ls) && k.More? && k.head.kind != LBrack
    requires if directed then IsParam(ls, f, k) else ls == PutField(f, k)
    ensures var r := AField(c, directed);
            r.Ok? && Sees(r.value.1, k) && r.value.0 == f.(line := c.tok.line)
  {
    hide Advance, Expect, Sees, Lexical;
    var c1 := Take(c, ls);
    if !directed || (f.dir == Dir.In && f.ty != "in" && f.ty != "out" && ls == PutField(f, k)) {
      FieldBodyRead(c, f, k);
    } else {
      FieldBodyRead(c1, f, k);
    }
  }

  /** Type, name and length reference, behind the direction. */
  lemma FieldBodyRead(c: Cursor, f: Field, k: Lexes)
    requires FieldWritable(f, true) && Sees(c, PutField(f, k))
    requires k.More? && k.head.kind != LBrack
    ensures Expect(c, Ident).Ok? && Expect(c, Ident).value.0 == f.ty
    ensures var c1 := Expect(c, Ident).value.1;
            && Expect(c1, Ident).Ok? && Expect(c1, Ident).value.0 == f.name
            && var c2 := Expect(c1, Ident).value.1;
               LengthRef(c2).Ok? && LengthRef(c2).value.0 == f.lenRef && Sees(LengthRef(c2).value.1, k)
  {
    hide Advance, Expect, Sees, Lexical;
    var ls := PutField(f, k);
    var c1 := Take(c, ls);
    var c2 := Take(c1, ls.tail);
    var c3 := Take(c2, ls.tail.tail);
    if f.lenRef != "" {
      var c4 := Take(c3, ls.tail.tail.tail);
      var c5 := Take(c4, ls.tail.tail.tail.tail);
    }
  }

  lemma BareFieldsSplit(acc: seq<Field>, d: Field, ds: seq<Field>)
    requires ds != [] && d == ds[0].(line := d.line)
    ensures BareFields(acc + [d]) + BareFields(ds[1..]) == BareFields(acc) + BareFields(ds)
  {
  }

  lemma BareFieldsEmpty(acc: seq<Field>)
    ensures BareFields(acc) == BareFields(acc) + BareFields([])
  {
  }

  lemma {:induction false} StructFieldsRead(c: Cursor, names: set<string>, acc: seq<Field>, fs: seq<Field>, k: Lexes)
    requires FieldsWritable(fs, false) && forall i :: 0 <= i < |fs| ==> fs[i].name !in names
    requires Sees(c, PutStructFields(fs, k)) && k.More? && k.head.kind == RBrace
    ensures var r := StructFields(c, names, acc);
            && r.Ok? && Sees(r.value.1, k)
            && BareFields(r.value.0) == BareFields(acc) + BareFields(fs)
    decreases |fs|
  {
    hide Advance, Expect, Sees, AField, Lexical, FieldWritable, BareFields;
    var ls := PutStructFields(fs, k);
    var _ := Take(c, ls);
    if fs != [] {
      var rest := Mark(Semi, PutStructFields(fs[1..], k));
      FieldRead(c, fs[0], false, ls, rest);
      var f := fs[0].(line := c.tok.line);
      var c2 := Take(AField(c, false).value.1, rest);
      StructFieldsRead(c2, names + {f.name}, acc + [f], fs[1..], k);
      BareFieldsSplit(acc, f, fs);
    } else {
      BareFieldsEmpty(acc);
    }
  }

  lemma StructRead(c: Cursor, ls: Lexes, d: StructDecl, k: Lexes)
    requires StructWritable(d) && IsStruct(ls, d, k) && Sees(c, ls) && NoSemi(k)
    ensures var r := Struct(c);
            r.Ok? && Sees(r.value.1, k) && BareStruct(r.value.0) == BareStruct(d)
  {
    hide Advance, Expect, Sees, Close, Lexical;
    var end :| IsEnd(end, k) && ls == Id(d.name, Mark(LBrace, PutStructFields(d.fields, end)));
    var c1 := Take(c, ls);
    var c2 := Take(c1, ls.tail);
    StructFieldsRead(c2, {}, [], d.fields, end);
    var c3 := TakeEnd(StructFields(c2, {}, []).value.1, end, k);
  }

  lemma BareFrameSplit(acc: FrameDecl, d: FrameField, ds: FrameDecl)
    requires ds != [] && d == ds[0].(line := d.line)
    ensures BareFrame(acc + [d]) + BareFrame(ds[1..]) == BareFrame(acc) + BareFrame(ds)
  {
  }

  lemma BareFrameEmpty(acc: FrameDecl)
    ensures BareFrame(acc) == BareFrame(acc) + BareFrame([])
  {
  }

  lemma {:induction false} FrameFieldsRead(c: Cursor, names: set<string>, hasPayload: bool, acc: FrameDecl,
                                           fs: FrameDecl, k: Lexes)
    requires FrameWritable(fs)
    requires forall i :: 0 <= i < |fs| ==> fs[i].name !in names && !(hasPayload && fs[i].payload)
    requires Sees(c, PutFrameFields(fs, Mark(RBrace, k)))
    ensures var r := FrameFields(c, names, hasPayload, acc);
            && r.Ok? && Sees(r.value.1, Mark(RBrace, k))
            && BareFrame(r.value.0) == BareFrame(acc) + BareFrame(fs)
    decreases |fs|
  {
    hide Advance, Expect, Sees, Lexical, BareFrame;
    var ls := PutFrameFields(fs, Mark(RBrace, k));
    var c1 := Take(c, ls);
    if fs != [] {
      var c2 := Take(c1, ls.tail);
      var c3 := Take(c2, ls.tail.tail);
      var f := fs[0].(line := c.tok.line);
      FrameFieldsRead(c3, names + {f.name}, hasPayload || f.payload, acc + [f], fs[1..], k);
      BareFrameSplit(acc, f, fs);
    } else {
      BareFrameEmpty(acc);
    }
  }

  lemma FrameRead(c: Cursor, fs: FrameDecl, k: Lexes)
    requires FrameWritable(fs) && Sees(c, PutFrame(fs, k))
    ensures var r := Frame(c);
            r.Ok? && Sees(r.value.1, k) && BareFrame(r.value.0) == BareFrame(fs)
  {
    hide Advance, Expect, Sees, Lexical;
    var c1 := Take(c, PutFrame(fs, k));
    FrameFieldsRead(c1, {}, false, [], fs, k);
    var c2 := FrameFields(c1, {}, false, []).value.1;
    var c3 := Take(c2, Mark(RBrace, k));
  }

  lemma {:induction false} PartsRead(c: Cursor, acc: seq<string>, parts: seq<string>, k: Lexes)
    requires Sees(c, PutParts(parts, k)) && k.More? && k.head.kind != Scope
    ensures var r := ScopedName(c, acc);
            r.Ok? && Sees(r.value.1, k) && r.value.0 == acc + parts
    decreases |parts|
  {
    hide Advance, Expect, Sees, Lexical;
    var ls := PutParts(parts, k);
    var c1 := Take(c, ls);
    if parts != [] {
      var c2 := Take(c1, ls.tail);
      PartsRead(c2, acc + [parts[0]], parts[1..], k);
      assert acc + [parts[0]] + parts[1..] == acc + parts;
    } else {
      assert acc + parts == acc;
    }
  }

  lemma ResponseRead(c: Cursor, d: CommandDecl, k: Lexes)
    requires CommandWritable(d) && Sees(c, PutResponse(d, k))
    ensures var r := Response(c);
            && r.Ok? && Sees(r.value.1, k)
            && (if d.responseNone then r.value.0.None?
                else r.value.0.Some? && BareFrame(r.value.0.value) == BareFrame(d.response))
  {
    hide Advance, Expect, Sees, Frame, Lexical;
    var ls := PutResponse(d, k);
    var c1 := Take(c, ls);
    if d.responseNone {
      var c2 := Take(c1, ls.tail);
    } else {
      FrameRead(c, d.response, k);
    }
  }

  lemma SectionsRead(c: Cursor, ls: Lexes, d: CommandDecl, k: Lexes)
    requires CommandWritable(d) && IsSections(ls, d, k) && Sees(c, ls) && k.More? && k.head.kind == RBrace
    ensures var r := Sections(c, None, None);
            && r.Ok? && Sees(r.value.2, k)
            && r.value.0.Some? && BareFrame(r.value.0.value) == BareFrame(d.request)
            && r.value.1.Some?
            && (if d.responseNone then r.value.1.value.None?
                else r.value.1.value.Some? && BareFrame(r.value.1.value.value) == BareFrame(d.response))
  {
    hide Advance, Expect, Sees, Frame, Response, Lexical, PutFrame, PutResponse, CommandWritable;
    var c1 := Take(c, ls);
    if ls == Id("request", PutFrame(d.request, Id("response", PutResponse(d, k)))) {
      RequestRead(c1, d, Id("response", PutResponse(d, k)));
      var (request, c2) := Frame(c1).value;
      var c3 := Take(c2, Id("response", PutResponse(d, k)));
      ResponseRead(c3, d, k);
      var (response, c4) := Response(c3).value;
      var _ := Take(c4, k);
      assert Sections(c4, Some(request), Some(response)) == Ok((Some(request), Some(response), c4));
      assert Sections(c2, Some(request), None) == Sections(c4, Some(request), Some(response));
      assert Sections(c, None, None) == Sections(c2, Some(request), None);
    } else {
      ResponseRead(c1, d, Id("request", PutFrame(d.request, k)));
      var (response, c2) := Response(c1).value;
      var c3 := Take(c2, Id("request", PutFrame(d.request, k)));
      RequestRead(c3, d, k);
      var (request, c4) := Frame(c3).value;
      var _ := Take(c4, k);
      assert Sections(c4, Some(request), Some(response)) == Ok((Some(request), Some(response), c4));
      assert Sections(c2, None, Some(response)) == Sections(c4, Some(request), Some(response));
      assert Sections(c, None, None) == Sections(c2, None, Some(response));
    }
  }

  lemma RequestRead(c: Cursor, d: CommandDecl, k: Lexes)
    requires CommandWritable(d) && Sees(c, PutFrame(d.request, k))
    ensures var r := Frame(c);
            r.Ok? && Sees(r.value.1, k) && BareFrame(r.value.0) == BareFrame(d.request)
  {
    FrameRead(c, d.request, k);
  }

  lemma PathRead(c: Cursor, path: seq<string>, k: Lexes)
    requires path != [] && Sees(c, PutPath(path, k)) && k.More? && k.head.kind != Scope
    ensures Expect(c, Ident).Ok? && Expect(c, Ident).value.0 == path[0]
    ensures var r := ScopedName(Expect(c, Ident).value.1, [path[0]]);
            r.Ok? && Sees(r.value.1, k) && r.value.0 == path
  {
    hide Advance, Expect, Sees, Lexical, ScopedName, PutParts, PathWritable;
    var c1 := Take(c, PutPath(path, k));
    PartsRead(c1, [path[0]], path[1..], k);
    assert [path[0]] + path[1..] == path;
  }

  lemma CommandRead(c: Cursor, names: set<string>, ls: Lexes, d: CommandDecl, k: Lexes)
    requires CommandWritable(d) && d.name !in names && IsCommand(ls, d, k) && Sees(c, ls) && NoSemi(k)
    ensures var r := Command(c, names);
            r.Ok? && Sees(r.value.1, k) && r.value.0.name == d.name && BareCommand(r.value.0) == BareCommand(d)
  {
    hide Advance, Expect, Sees, Sections, Close, Lexical, ScopedName, PutFrame, PutResponse, PutParts, BareFrame,
         FrameWritable, IsIdent, IsSections, IsEnd;
    var sections, end :| IsEnd(end, k) && IsSections(sections, d, end)
                         && ls == Id(d.name, Mark(Equal, PutPath(d.enumValue, Mark(LBrace, sections))));
    hide PutPath;
    var c1 := Take(c, ls);
    var c2 := Take(c1, ls.tail);
    PathRead(c2, d.enumValue, Mark(LBrace, sections));
    var c3 := Expect(c2, Ident).value.1;
    var c4 := ScopedName(c3, [d.enumValue[0]]).value.1;
    var c5 := Take(c4, Mark(LBrace, sections));
    EndStarts(end, k);
    SectionsRead(c5, sections, d, end);
    var c6 := TakeEnd(Sections(c5, None, None).value.2, end, k);
  }

  lemma EndStarts(ls: Lexes, k: Lexes)
    requires IsEnd(ls, k)
    ensures ls.More? && ls.head == Lex(RBrace, "}")
  {
  }

  lemma BareCommandsSplit(acc: seq<CommandDecl>, d: CommandDecl, ds: seq<CommandDecl>)
    requires ds != [] && BareCommand(d) == BareCommand(ds[0])
    ensures BareCommands(acc + [d]) + BareCommands(ds[1..]) == BareCommands(acc) + BareCommands(ds)
  {
  }

  lemma BareCommandsEmpty(acc: seq<CommandDecl>)
    ensures BareCommands(acc) == BareCommands(acc) + BareCommands([])
  {
  }

  lemma ItemsStart(ls: Lexes, header: string, cs: seq<CommandDecl>, k: Lexes)
    requires IsItems(ls, header, cs, k) && NoSemi(k)
    ensures NoSemi(ls)
  {
    hide IsCommand;
  }

  lemma NoMoreItems(c: Cursor, names: set<string>, seen: string, acc: seq<CommandDecl>, k: Lexes)
    requires Sees(c, k) && k.More? && k.head.kind == RBrace
    ensures ProtocolItems(c, names, seen, acc) == Ok((seen, acc, c))
  {
    hide Sees;
    var _ := Take(c, k);
  }

  lemma HeaderRead(c: Cursor, names: set<string>, header: string, acc: seq<CommandDecl>, rest: Lexes)
    returns (next: Cursor)
    requires Sees(c, Id("request", Id(header, Mark(Semi, rest))))
    ensures Sees(next, rest) && ProtocolItems(c, names, "", acc) == ProtocolItems(next, names, header, acc)
  {
    hide Advance, Expect, Sees, Command, Lexical;
    var ls := Id("request", Id(header, Mark(Semi, rest)));
    var c1 := Take(c, ls);
    var c2 := Take(c1, ls.tail);
    next := Take(c2, ls.tail.tail);
  }

  lemma CommandItemRead(c: Cursor, names: set<string>, seen: string, acc: seq<CommandDecl>,
                        command: Lexes, of: CommandDecl, rest: Lexes)
    returns (d: CommandDecl, next: Cursor)
    requires CommandWritable(of) && of.name !in names && IsCommand(command, of, rest) && NoSemi(rest)
    requires Sees(c, Id("command", command))
    ensures Sees(next, rest) && d.name == of.name && BareCommand(d) == BareCommand(of)
    ensures ProtocolItems(c, names, seen, acc) == ProtocolItems(next, names + {d.name}, seen, acc + [d])
  {
    hide Advance, Expect, Sees, Command, Lexical, CommandWritable, BareCommand, IsCommand;
    var c1 := Take(c, Id("command", command));
    CommandRead(c1, names, command, of, rest);
    d, next := Command(c1, names).value.0, Command(c1, names).value.1;
  }

  lemma {:induction false} ItemsRead(c: Cursor, names: set<string>, seen: string, header: string,
                                     acc: seq<CommandDecl>, cs: seq<CommandDecl>, ls: Lexes, k: Lexes)
    requires CommandsWritable(cs) && forall i :: 0 <= i < |cs| ==> cs[i].name !in names
    requires (header == "" || IsIdent(header)) && (seen == "" || header == "")
    requires IsItems(ls, header, cs, k) && Sees(c, ls) && k.More? && k.head.kind == RBrace
    ensures var r := ProtocolItems(c, names, seen, acc);
            && r.Ok? && Sees(r.value.2, k) && r.value.0 == (if header == "" then seen else header)
            && BareCommands(r.value.1) == BareCommands(acc) + BareCommands(cs)
    decreases |cs| + if header == "" then 0 else 1
  {
    hide Sees, Lexical, CommandWritable, BareCommand, BareCommands, IsCommand, IsIdent, ProtocolItems;
    if header == "" && cs == [] && ls == k {
      NoMoreItems(c, names, seen, acc, k);
      BareCommandsEmpty(acc);
    } else if header != "" && exists rest ::
                ls == Id("request", Id(header, Mark(Semi, rest))) && IsItems(rest, "", cs, k) {
      var rest :| ls == Id("request", Id(header, Mark(Semi, rest))) && IsItems(rest, "", cs, k);
      var c3 := HeaderRead(c, names, header, acc, rest);
      ItemsRead(c3, names, header, "", acc, cs, rest, k);
    } else {
      var command, rest :| ls == Id("command", command) && IsCommand(command, cs[0], rest)
                           && IsItems(rest, header, cs[1..], k);
      ItemsStart(rest, header, cs[1..], k);
      var d, c2 := CommandItemRead(c, names, seen, acc, command, cs[0], rest);
      ItemsRead(c2, names + {d.name}, seen, header, acc + [d], cs[1..], rest, k);
      BareCommandsSplit(acc, d, cs);
    }
  }

  lemma ProtocolRead(c: Cursor, ls: Lexes, d: ProtocolDecl, k: Lexes)
    requires ProtocolWritable(d) && IsProtocol(ls, d, k) && Sees(c, ls) && NoSemi(k)
    ensures var r := Protocol(c);
            r.Ok? && Sees(r.value.1, k) && BareProtocol(r.value.0) == BareProtocol(d)
  {
    hide Advance, Expect, Sees, Close, Lexical, ProtocolItems, IsItems, IsEnd;
    var items, end :| IsEnd(end, k) && IsItems(items, d.requestHeader, d.commands, end)
                      && ls == Id(d.name, Mark(LBrace, items));
    var c1 := Take(c, ls);
    var c2 := Take(c1, ls.tail);
    EndStarts(end, k);
    ItemsRead(c2, {}, "", d.requestHeader, [], d.commands, items, end);
    var c3 := TakeEnd(ProtocolItems(c2, {}, "", []).value.2, end, k);
  }

  lemma {:induction false} ParamsRead(c: Cursor, names: set<string>, acc: seq<Field>, fs: seq<Field>,
                                      ls: Lexes, k: Lexes)
    requires fs != [] && FieldsWritable(fs, true) && forall i :: 0 <= i < |fs| ==> fs[i].name !in names
    requires IsParams(ls, fs, k) && Sees(c, ls) && k.More? && k.head.kind == RParen
    ensures var r := Params(c, names, acc);
            && r.Ok? && Sees(r.value.1, k)
            && BareFields(r.value.0) == BareFields(acc) + BareFields(fs)
    decreases |fs|
  {
    hide Advance, Expect, Sees, AField, Lexical, FieldWritable, BareFields, IsParam;
    var f := fs[0].(line := c.tok.line);
    BareFieldsSplit(acc, f, fs);
    if |fs| == 1 {
      FieldRead(c, fs[0], true, ls, k);
      var _ := Take(AField(c, true).value.1, k);
      assert fs[1..] == [];
      BareFieldsEmpty(acc + [f]);
    } else {
      var rest :| IsParam(ls, fs[0], Mark(Comma, rest)) && IsParams(rest, fs[1..], k);
      FieldRead(c, fs[0], true, ls, Mark(Comma, rest));
      var c2 := Take(AField(c, true).value.1, Mark(Comma, rest));
      ParamsRead(c2, names + {f.name}, acc + [f], fs[1..], rest, k);
    }
  }

  lemma ParameterListRead(c: Cursor, fs: seq<Field>, ls: Lexes, k: Lexes)
    requires FieldsWritable(fs, true) && IsParams(ls, fs, k) && Sees(c, ls) && k.More? && k.head.kind == RParen
    ensures var r := if c.tok.kind == RParen then Ok(([], c)) else Params(c, {}, []);
            r.Ok? && Sees(r.value.1, k) && BareFields(r.value.0) == BareFields(fs)
  {
    assert BareFields([]) == [] && BareFields([]) + BareFields(fs) == BareFields(fs);
    hide Advance, Expect, Sees, Params, Lexical, BareFields, FieldWritable;
    if fs == [] {
      var _ := Take(c, k);
    } else {
      ParamsStart(ls, fs, k);
      var _ := Take(c, ls);
      ParamsRead(c, {}, [], fs, ls, k);
    }
  }

  lemma ParamsStart(ls: Lexes, fs: seq<Field>, k: Lexes)
    requires fs != [] && IsParams(ls, fs, k)
    ensures ls.More? && ls.head.kind == Ident
  {
  }

  lemma MethodRead(c: Cursor, ls: Lexes, m: Method, k: Lexes)
    requires MethodWritable(m) && IsMethod(ls, m, k) && Sees(c, ls)
    ensures var r := AMethod(c);
            r.Ok? && Sees(r.value.1, k) && r.value.0.name == m.name && BareMethod(r.value.0) == BareMethod(m)
  {
    hide Advance, Expect, Sees, Params, Lexical, FieldsWritable, BareFields, IsParams;
    var close := Mark(RParen, Mark(Semi, k));
    var params :| IsParams(params, m.params, close) && ls == Id(m.retType, Id(m.name, Mark(LParen, params)));
    var c1 := Take(c, ls);
    var c2 := Take(c1, ls.tail);
    var c3 := Take(c2, ls.tail.tail);
    ParameterListRead(c3, m.params, params, close);
    var c4 := if c3.tok.kind == RParen then c3 else Params(c3, {}, []).value.1;
    var c5 := Take(c4, close);
    var c6 := Take(c5, close.tail);
  }

  lemma BareMethodsSplit(acc: seq<Method>, d: Method, ds: seq<Method>)
    requires ds != [] && BareMethod(d) == BareMethod(ds[0])
    ensures BareMethods(acc + [d]) + BareMethods(ds[1..]) == BareMethods(acc) + BareMethods(ds)
  {
  }

  lemma BareMethodsEmpty(acc: seq<Method>)
    ensures BareMethods(acc) == BareMethods(acc) + BareMethods([])
  {
  }

  lemma {:induction false} MethodsRead(c: Cursor, names: set<string>, acc: seq<Method>, ms: seq<Method>,
                                       ls: Lexes, k: Lexes)
    requires MethodsWritable(ms) && forall i :: 0 <= i < |ms| ==> ms[i].name !in names
    requires IsMethods(ls, ms, k) && Sees(c, ls) && k.More? && k.head.kind == RBrace
    ensures var r := Methods(c, names, acc);
            && r.Ok? && Sees(r.value.1, k)
            && BareMethods(r.value.0) == BareMethods(acc) + BareMethods(ms)
    decreases |ms|
  {
    hide Advance, Expect, Sees, AMethod, Lexical, MethodWritable, BareMethod, BareMethods, IsMethod;
    if ms != [] {
      var rest :| IsMethod(ls, ms[0], rest) && IsMethods(rest, ms[1..], k);
      MethodStarts(ls, ms[0], rest);
      var _ := Take(c, ls);
      MethodRead(c, ls, ms[0], rest);
      var (m, c1) := AMethod(c).value;
      MethodsRead(c1, names + {m.name}, acc + [m], ms[1..], rest, k);
      BareMethodsSplit(acc, m, ms);
    } else {
      var _ := Take(c, ls);
      BareMethodsEmpty(acc);
    }
  }

  lemma MethodStarts(ls: Lexes, m: Method, k: Lexes)
    requires IsMethod(ls, m, k)
    ensures ls.More? && ls.head.kind == Ident
  {
  }

  lemma InterfaceRead(c: Cursor, ls: Lexes, d: Interface, k: Lexes)
    requires InterfaceWritable(d) && IsInterface(ls, d, k) && Sees(c, ls) && NoSemi(k)
    ensures var r := AnInterface(c);
            r.Ok? && Sees(r.value.1, k) && BareInterface(r.value.0) == BareInterface(d)
  {
    hide Advance, Expect, Sees, Close, Lexical, Methods, IsMethods, IsEnd;
    var methods, end :| IsEnd(end, k) && IsMethods(methods, d.methods, end) && ls == Id(d.name, Mark(LBrace, methods));
    var c1 := Take(c, ls);
    var c2 := Take(c1, ls.tail);
    EndStarts(end, k);
    MethodsRead(c2, {}, [], d.methods, methods, end);
    var c3 := TakeEnd(Methods(c2, {}, []).value.1, end, k);
  }

  // ---- reading a file ----

  lemma DeclaresStart(ls: Lexes, f: File)
    requires Declares(ls, f)
    ensures NoSemi(ls)
  {
    hide IsEnum, IsStruct, IsProtocol, IsInterface;
  }

  /** One declaration further. */
  lemma Declared(c: Cursor, file: File, c1: Cursor, c2: Cursor)
    requires c.tok.kind == Ident && Advance(c) == Ok(c1)
    requires var r := Declaration(c1, c.tok.text, c.tok.line, file); r.Ok? && r.value.1 == c2
    ensures Declarations(c, file) == Declarations(c2, Declaration(c1, c.tok.text, c.tok.line, file).value.0)
  {
  }

  /** What is read behind these declarations, up to line numbers. */
  predicate Follows(file: File, f: File, result: File) {
    && BareEnums(result.enums) == BareEnums(file.enums) + BareEnums(f.enums)
    && BareStructs(result.structs) == BareStructs(file.structs) + BareStructs(f.structs)
    && BareProtocols(result.protocols) == BareProtocols(file.protocols) + BareProtocols(f.protocols)
    && BareInterfaces(result.interfaces) == BareInterfaces(file.interfaces) + BareInterfaces(f.interfaces)
  }

  lemma FollowsEnum(file: File, f: File, d: EnumDecl, result: File)
    requires f.enums != [] && BareEnum(d) == BareEnum(f.enums[0])
    requires Follows(file.(enums := file.enums + [d]), f.(enums := f.enums[1..]), result)
    ensures Follows(file, f, result)
  {
    hide BareEnum;
    assert BareEnums(file.enums + [d]) + BareEnums(f.enums[1..]) == BareEnums(file.enums) + BareEnums(f.enums);
  }

  lemma FollowsStruct(file: File, f: File, d: StructDecl, result: File)
    requires f.structs != [] && BareStruct(d) == BareStruct(f.structs[0])
    requires Follows(file.(structs := file.structs + [d]), f.(structs := f.structs[1..]), result)
    ensures Follows(file, f, result)
  {
    hide BareStruct;
    assert BareStructs(file.structs + [d]) + BareStructs(f.structs[1..]) ==
           BareStructs(file.structs) + BareStructs(f.structs);
  }

  lemma FollowsProtocol(file: File, f: File, d: ProtocolDecl, result: File)
    requires f.protocols != [] && BareProtocol(d) == BareProtocol(f.protocols[0])
    requires Follows(file.(protocols := file.protocols + [d]), f.(protocols := f.protocols[1..]), result)
    ensures Follows(file, f, result)
  {
    hide BareProtocol;
    assert BareProtocols(file.protocols + [d]) + BareProtocols(f.protocols[1..]) ==
           BareProtocols(file.protocols) + BareProtocols(f.protocols);
  }

  lemma FollowsInterface(file: File, f: File, d: Interface, result: File)
    requires f.interfaces != [] && BareInterface(d) == BareInterface(f.interfaces[0])
    requires Follows(file.(interfaces := file.interfaces + [d]), f.(interfaces := f.interfaces[1..]), result)
    ensures Follows(file, f, result)
  {
    hide BareInterface;
    assert BareInterfaces(file.interfaces + [d]) + BareInterfaces(f.interfaces[1..]) ==
           BareInterfaces(file.interfaces) + BareInterfaces(f.interfaces);
  }

  lemma FollowsNothing(file: File, f: File)
    requires Size(f) == 0
    ensures Follows(file, f, file)
  {
    assert BareEnums([]) == [] && BareStructs([]) == [] && BareProtocols([]) == [] && BareInterfaces([]) == [];
  }

  lemma EnumDeclared(c: Cursor, file: File, ls: Lexes, d: EnumDecl, k: Lexes) returns (next: Cursor, e: EnumDecl)
    requires EnumWritable(d) && ls.More? && ls.head == Lex(Ident, "enum") && IsEnum(ls.tail, d, k)
    requires Sees(c, ls) && NoSemi(k)
    ensures Declarations(c, file) == Declarations(next, file.(enums := file.enums + [e]))
    ensures Sees(next, k) && BareEnum(e) == BareEnum(d)
  {
    hide Advance, Expect, Sees, Lexical, Enum, Declarations, BareEnum, EnumWritable, IsEnum;
    var c1 := Take(c, ls);
    EnumRead(c1, ls.tail, d, k);
    e, next := Enum(c1).value.0, Enum(c1).value.1;
    Declared(c, file, c1, next);
  }

  lemma StructDeclared(c: Cursor, file: File, ls: Lexes, d: StructDecl, k: Lexes) returns (next: Cursor, e: StructDecl)
    requires StructWritable(d) && ls.More? && ls.head == Lex(Ident, "struct") && IsStruct(ls.tail, d, k)
    requires Sees(c, ls) && NoSemi(k)
    ensures Declarations(c, file) == Declarations(next, file.(structs := file.structs + [e]))
    ensures Sees(next, k) && BareStruct(e) == BareStruct(d)
  {
    hide Advance, Expect, Sees, Lexical, Struct, Declarations, BareStruct, StructWritable, IsStruct;
    var c1 := Take(c, ls);
    StructRead(c1, ls.tail, d, k);
    e, next := Struct(c1).value.0, Struct(c1).value.1;
    Declared(c, file, c1, next);
  }

  lemma ProtocolDeclared(c: Cursor, file: File, ls: Lexes, d: ProtocolDecl, k: Lexes)
    returns (next: Cursor, e: ProtocolDecl)
    requires ProtocolWritable(d) && ls.More? && ls.head == Lex(Ident, "protocol") && IsProtocol(ls.tail, d, k)
    requires Sees(c, ls) && NoSemi(k)
    ensures Declarations(c, file) == Declarations(next, file.(protocols := file.protocols + [e]))
    ensures Sees(next, k) && BareProtocol(e) == BareProtocol(d)
  {
    hide Advance, Expect, Sees, Lexical, Protocol, Declarations, BareProtocol, ProtocolWritable, IsProtocol;
    var c1 := Take(c, ls);
    ProtocolRead(c1, ls.tail, d, k);
    e, next := Protocol(c1).value.0, Protocol(c1).value.1;
    Declared(c, file, c1, next);
  }

  lemma InterfaceDeclared(c: Cursor, file: File, ls: Lexes, d: Interface, k: Lexes) returns (next: Cursor, e: Interface)
    requires InterfaceWritable(d) && ls.More? && ls.head == Lex(Ident, "interface") && IsInterface(ls.tail, d, k)
    requires Sees(c, ls) && NoSemi(k)
    ensures Declarations(c, file) == Declarations(next, file.(interfaces := file.interfaces + [e]))
    ensures Sees(next, k) && BareInterface(e) == BareInterface(d)
  {
    hide Advance, Expect, Sees, Lexical, AnInterface, Declarations, BareInterface, InterfaceWritable, IsInterface;
    var c1 := Take(c, ls);
    InterfaceRead(c1, ls.tail, d, k);
    e, next := AnInterface(c1).value.0, AnInterface(c1).value.1;
    Declared(c, file, c1, next);
  }

  lemma {:induction false} DeclarationsRead(c: Cursor, file: File, ls: Lexes, f: File)
    requires Writable(f) && Declares(ls, f) && Sees(c, ls)
    ensures var r := Declarations(c, file); r.Ok? && Follows(file, f, r.value)
    decreases Size(f)
  {
    hide Sees, Lexical, Declarations, Follows, EnumWritable, StructWritable, ProtocolWritable, InterfaceWritable;
    hide IsEnum, IsStruct, IsProtocol, IsInterface, BareEnum, BareStruct, BareProtocol, BareInterface;
    if ls == Done {
      AtEnd(c, file);
      FollowsNothing(file, f);
    } else if ls.head.text == "enum" {
      var g := f.(enums := f.enums[1..]);
      var rest :| IsEnum(ls.tail, f.enums[0], rest) && Declares(rest, g);
      DeclaresStart(rest, g);
      var next, e := EnumDeclared(c, file, ls, f.enums[0], rest);
      DeclarationsRead(next, file.(enums := file.enums + [e]), rest, g);
      FollowsEnum(file, f, e, Declarations(c, file).value);
    } else if ls.head.text == "struct" {
      var g := f.(structs := f.structs[1..]);
      var rest :| IsStruct(ls.tail, f.structs[0], rest) && Declares(rest, g);
      DeclaresStart(rest, g);
      var next, e := StructDeclared(c, file, ls, f.structs[0], rest);
      DeclarationsRead(next, file.(structs := file.structs + [e]), rest, g);
      FollowsStruct(file, f, e, Declarations(c, file).value);
    } else if ls.head.text == "protocol" {
      var g := f.(protocols := f.protocols[1..]);
      var rest :| IsProtocol(ls.tail, f.protocols[0], rest) && Declares(rest, g);
      DeclaresStart(rest, g);
      var next, e := ProtocolDeclared(c, file, ls, f.protocols[0], rest);
      DeclarationsRead(next, file.(protocols := file.protocols + [e]), rest, g);
      FollowsProtocol(file, f, e, Declarations(c, file).value);
    } else {
      var g := f.(interfaces := f.interfaces[1..]);
      var rest :| IsInterface(ls.tail, f.interfaces[0], rest) && Declares(rest, g);
      DeclaresStart(rest, g);
      var next, e := InterfaceDeclared(c, file, ls, f.interfaces[0], rest);
      DeclarationsRead(next, file.(interfaces := file.interfaces + [e]), rest, g);
      FollowsInterface(file, f, e, Declarations(c, file).value);
    }
  }

  lemma StartSees(src: string, ls: Lexes) returns (c: Cursor)
    requires ReadAll(src, 0) == Ok(ls)
    ensures Start(src) == Ok(c) && Sees(c, ls)
  {
    var t := NextToken(src, 0).value;
    c := Cursor(src, t.0, t.1);
  }

  lemma AtEnd(c: Cursor, file: File)
    requires Sees(c, Done)
    ensures Declarations(c, file) == Ok(file)
  {
  }

  /** A text that reads as tokens which declare a writable file parses to that file, whatever the
      layout, up to line numbers. */
  lemma DeclaredIsParsed(src: string, ls: Lexes, f: File)
    requires Writable(f) && ReadAll(src, 0) == Ok(ls) && Declares(ls, f)
    ensures ParseText(src).Ok? && Bare(ParseText(src).value) == Bare(f)
  {
    hide Declarations, Declares, Writable;
    var c := StartSees(src, ls);
    var none := File([], [], [], []);
    DeclarationsRead(c, none, ls, f);
    assert BareEnums([]) == [] && BareStructs([]) == [] && BareProtocols([]) == [] && BareInterfaces([]) == [];
  }
}
