/** The recursive-descent parser itself: an object that looks at one token and draws the
    next ones from a lexer.  Every method follows a function of module Grammar: it returns
    the same declaration and stops at the same cursor, or fails at the same place. */
module Parsing {
  import opened Outcomes
  import opened Lexing
  import opened Descriptions
  import G = Grammar

  class Parser {
    const lexer: Lexer
    var token: Token

    ghost predicate Valid()
      reads this, lexer
    {
      lexer.Valid() && IsLexeme(token.kind, token.text)
    }

    ghost function Here(): G.Cursor
      requires Valid()
      reads this, lexer
    {
      G.Cursor(lexer.src, token, lexer.pos)
    }

    /** r and the cursor left behind are those the grammar prescribes. */
    ghost predicate Follows<T(!new)>(r: Outcome<T>, spec: Outcome<(T, G.Cursor)>)
      reads this, lexer
    {
      match spec
      case Ok((value, next)) => r == Ok(value) && Valid() && Here() == next
      case Fail(line, col) => r == Fail(line, col)
    }

    ghost predicate Steps(r: Outcome<()>, spec: Outcome<G.Cursor>)
      reads this, lexer
    {
      match spec
      case Ok(next) => r == Ok(()) && Valid() && Here() == next
      case Fail(line, col) => r == Fail(line, col)
    }

    /** Before the first token is drawn the parser stands in front of the text. */
    constructor (src: string)
      ensures Valid() && fresh(lexer) && lexer.src == src && lexer.pos == 0
    {
      lexer := new Lexer(src);
      token := Token(End, "", 1, 1);
    }

    method Advance() returns (r: Outcome<()>)
      requires Valid()
      modifies this, lexer
      ensures Steps(r, G.Advance(old(Here())))
    {
      token :- lexer.Next();
      r := Ok(());
    }

    method Expect(kind: Tok) returns (r: Outcome<string>)
      requires Valid()
      modifies this, lexer
      ensures Follows(r, G.Expect(old(Here()), kind))
    {
      if token.kind != kind {
        return Fail(token.line, token.col);
      }
      var text := token.text;
      var _ :- Advance();
      return Ok(text);
    }

    method OptionalSemi() returns (r: Outcome<()>)
      requires Valid()
      modifies this, lexer
      ensures Steps(r, G.OptionalSemi(old(Here())))
    {
      hide G.Advance;
      if token.kind == Semi {
        var _ :- Advance();
      }
      return Ok(());
    }

    method Close() returns (r: Outcome<()>)
      requires Valid()
      modifies this, lexer
      ensures Steps(r, G.Close(old(Here())))
    {
      hide G.Expect, G.OptionalSemi;
      var _ :- Expect(RBrace);
      r := OptionalSemi();
    }

    method ParseMembers() returns (r: Outcome<seq<EnumMember>>)
      requires Valid()
      modifies this, lexer
      ensures Follows(r, G.Members(old(Here()), {}, []))
    {
      hide G.Expect;
      var members: seq<EnumMember> := [];
      var names: set<string> := {};
      while token.kind != RBrace
        invariant Valid()
        invariant G.Members(Here(), names, members) == G.Members(old(Here()), {}, [])
        decreases G.Left(Here())
      {
        var line := token.line;
        var name :- Expect(Ident);
        if name in names {
          return Fail(line, 1);
        }
        names := names + {name};
        var _ :- Expect(Equal);
        var value :- Expect(Int);
        var _ :- Expect(Semi);
        members := members + [EnumMember(name, value, line)];
      }
      return Ok(members);
    }

    method ParseEnum() returns (r: Outcome<EnumDecl>)
      requires Valid()
      modifies this, lexer
      ensures Follows(r, G.Enum(old(Here())))
    {
      hide G.Expect, G.Members, G.Close;
      var line := token.line;
      var name :- Expect(Ident);
      var _ :- Expect(Colon);
      var underlying :- Expect(Ident);
      var _ :- Expect(LBrace);
      var members :- ParseMembers();
      var _ :- Close();
      return Ok(EnumDecl(name, underlying, members, line));
    }

    method ParseField(directed: bool) returns (r: Outcome<Field>)
      requires Valid()
      modifies this, lexer
      ensures Follows(r, G.AField(old(Here()), directed))
    {
      hide G.Expect, G.Advance;
      var line := token.line;
      var dir := Dir.In;
      if token.kind == Ident && (token.text == "in" || token.text == "out") {
        if !directed {
          return Fail(token.line, token.col);
        }
        dir := if token.text == "out" then Dir.Out else Dir.In;
        var _ :- Advance();
      }
      var ty :- Expect(Ident);
      var name :- Expect(Ident);
      var lenRef := "";
      if token.kind == LBrack {
        var _ :- Advance();
        lenRef :- Expect(Ident);
        var _ :- Expect(RBrack);
      }
      if ty == "bytes" && lenRef == "" {
        return Fail(line, 1);
      }
      if ty != "bytes" && lenRef != "" {
        return Fail(line, 1);
      }
      return Ok(Field(dir, ty, name, lenRef, line));
    }

    method ParseStructFields() returns (r: Outcome<seq<Field>>)
      requires Valid()
      modifies this, lexer
      ensures Follows(r, G.StructFields(old(Here()), {}, []))
    {
      hide G.Expect, G.AField;
      var fields: seq<Field> := [];
      var names: set<string> := {};
      while token.kind != RBrace
        invariant Valid()
        invariant G.StructFields(Here(), names, fields) == G.StructFields(old(Here()), {}, [])
        decreases G.Left(Here())
      {
        var field :- ParseField(false);
        if field.name in names {
          return Fail(field.line, 1);
        }
        names := names + {field.name};
        var _ :- Expect(Semi);
        fields := fields + [field];
      }
      return Ok(fields);
    }

    method ParseStruct() returns (r: Outcome<StructDecl>)
      requires Valid()
      modifies this, lexer
      ensures Follows(r, G.Struct(old(Here())))
    {
      hide G.Expect, G.StructFields, G.Close;
      var line := token.line;
      var name :- Expect(Ident);
      var _ :- Expect(LBrace);
      var fields :- ParseStructFields();
      var _ :- Close();
      return Ok(StructDecl(name, fields, line));
    }

    method ParseFrameFields() returns (r: Outcome<FrameDecl>)
      requires Valid()
      modifies this, lexer
      ensures Follows(r, G.FrameFields(old(Here()), {}, false, []))
    {
      hide G.Expect;
      var fields: FrameDecl := [];
      var names: set<string> := {};
      var hasPayload := false;
      while token.kind != RBrace
        invariant Valid()
        invariant G.FrameFields(Here(), names, hasPayload, fields) == G.FrameFields(old(Here()), {}, false, [])
        decreases G.Left(Here())
      {
        var line := token.line;
        var ty :- Expect(Ident);
        var payload := ty == "payload";
        var name :- Expect(Ident);
        if name in names {
          return Fail(line, 1);
        }
        names := names + {name};
        if payload {
          if hasPayload {
            return Fail(line, 1);
          }
          hasPayload := true;
        }
        var _ :- Expect(Semi);
        fields := fields + [FrameField(payload, ty, name, line)];
      }
      return Ok(fields);
    }

    method ParseFrame() returns (r: Outcome<FrameDecl>)
      requires Valid()
      modifies this, lexer
      ensures Follows(r, G.Frame(old(Here())))
    {
      hide G.Expect, G.FrameFields;
      var _ :- Expect(LBrace);
      var fields :- ParseFrameFields();
      var _ :- Expect(RBrace);
      return Ok(fields);
    }

    method ParseScopedName(head: string) returns (r: Outcome<seq<string>>)
      requires Valid()
      modifies this, lexer
      ensures Follows(r, G.ScopedName(old(Here()), [head]))
    {
      hide G.Expect, G.Advance;
      var path := [head];
      while token.kind == Scope
        invariant Valid()
        invariant G.ScopedName(Here(), path) == G.ScopedName(old(Here()), [head])
        decreases G.Left(Here())
      {
        var _ :- Advance();
        var part :- Expect(Ident);
        path := path + [part];
      }
      return Ok(path);
    }

    method ParseResponse() returns (r: Outcome<Option<FrameDecl>>)
      requires Valid()
      modifies this, lexer
      ensures Follows(r, G.Response(old(Here())))
    {
      hide G.Expect, G.Advance, G.Frame;
      if token.kind == Ident && token.text == "none" {
        var _ :- Advance();
        var _ :- Expect(Semi);
        return Ok(None);
      }
      var frame :- ParseFrame();
      return Ok(Some(frame));
    }

    /** The request and response sections seen before the closing brace. */
    method ParseSections() returns (r: Outcome<(Option<FrameDecl>, Option<Option<FrameDecl>>)>)
      requires Valid()
      modifies this, lexer
      ensures match G.Sections(old(Here()), None, None)
              case Ok((request, response, next)) => r == Ok((request, response)) && Valid() && Here() == next
              case Fail(line, col) => r == Fail(line, col)
    {
      hide G.Expect, G.Response, G.Frame;
      var request: Option<FrameDecl> := None;
      var response: Option<Option<FrameDecl>> := None;
      while token.kind != RBrace
        invariant Valid()
        invariant G.Sections(Here(), request, response) == G.Sections(old(Here()), None, None)
        decreases G.Left(Here())
      {
        var line := token.line;
        var section :- Expect(Ident);
        if section == "request" {
          if request.Some? {
            return Fail(line, 1);
          }
          var frame :- ParseFrame();
          request := Some(frame);
        } else if section == "response" {
          if response.Some? {
            return Fail(line, 1);
          }
          var frame :- ParseResponse();
          response := Some(frame);
        } else {
          return Fail(line, 1);
        }
      }
      return Ok((request, response));
    }

    method ParseCommand(names: set<string>) returns (r: Outcome<CommandDecl>)
      requires Valid()
      modifies this, lexer
      ensures Follows(r, G.Command(old(Here()), names))
    {
      hide G.Expect, G.ScopedName, G.Sections, G.Close;
      var line := token.line;
      var name :- Expect(Ident);
      if name in names {
        return Fail(line, 1);
      }
      var _ :- Expect(Equal);
      var head :- Expect(Ident);
      var path :- ParseScopedName(head);
      var _ :- Expect(LBrace);
      var sections :- ParseSections();
      var (request, response) := sections;
      var _ :- Close();
      if request.None? || response.None? {
        return Fail(line, 1);
      }
      var frame := if response.value.None? then [] else response.value.value;
      return Ok(CommandDecl(name, path, request.value, frame, response.value.None?, line));
    }

    /** The request header, if one is declared, and the commands. */
    method ParseProtocolItems() returns (r: Outcome<(string, seq<CommandDecl>)>)
      requires Valid()
      modifies this, lexer
      ensures match G.ProtocolItems(old(Here()), {}, "", [])
              case Ok((header, commands, next)) => r == Ok((header, commands)) && Valid() && Here() == next
              case Fail(line, col) => r == Fail(line, col)
    {
      hide G.Expect, G.Command;
      var header := "";
      var commands: seq<CommandDecl> := [];
      var names: set<string> := {};
      while token.kind != RBrace
        invariant Valid()
        invariant G.ProtocolItems(Here(), names, header, commands) == G.ProtocolItems(old(Here()), {}, "", [])
        decreases G.Left(Here())
      {
        var line := token.line;
        var keyword :- Expect(Ident);
        if keyword == "request" {
          if header != "" {
            return Fail(line, 1);
          }
          header :- Expect(Ident);
          var _ :- Expect(Semi);
        } else {
          if keyword != "command" {
            return Fail(line, 1);
          }
          var command :- ParseCommand(names);
          names := names + {command.name};
          commands := commands + [command];
        }
      }
      return Ok((header, commands));
    }

    method ParseProtocol() returns (r: Outcome<ProtocolDecl>)
      requires Valid()
      modifies this, lexer
      ensures Follows(r, G.Protocol(old(Here())))
    {
      hide G.Expect, G.ProtocolItems, G.Close;
      var line := token.line;
      var name :- Expect(Ident);
      var _ :- Expect(LBrace);
      var items :- ParseProtocolItems();
      var (header, commands) := items;
      var _ :- Close();
      return Ok(ProtocolDecl(name, header, commands, line));
    }

    method ParseParams() returns (r: Outcome<seq<Field>>)
      requires Valid()
      modifies this, lexer
      ensures Follows(r, G.Params(old(Here()), {}, []))
    {
      hide G.Advance, G.AField;
      var params: seq<Field> := [];
      var names: set<string> := {};
      while true
        invariant Valid()
        invariant G.Params(Here(), names, params) == G.Params(old(Here()), {}, [])
        decreases G.Left(Here())
      {
        var field :- ParseField(true);
        if field.name in names {
          return Fail(field.line, 1);
        }
        names := names + {field.name};
        params := params + [field];
        if token.kind != Comma {
          return Ok(params);
        }
        var _ :- Advance();
      }
    }

    method ParseMethod() returns (r: Outcome<Method>)
      requires Valid()
      modifies this, lexer
      ensures Follows(r, G.AMethod(old(Here())))
    {
      hide G.Expect, G.Params;
      var line := token.line;
      var ret :- Expect(Ident);
      var name :- Expect(Ident);
      var _ :- Expect(LParen);
      var params: seq<Field> := [];
      if token.kind != RParen {
        params :- ParseParams();
      }
      var _ :- Expect(RParen);
      var _ :- Expect(Semi);
      return Ok(Method(name, ret, params, line));
    }

    method ParseMethods() returns (r: Outcome<seq<Method>>)
      requires Valid()
      modifies this, lexer
      ensures Follows(r, G.Methods(old(Here()), {}, []))
    {
      hide G.AMethod;
      var methods: seq<Method> := [];
      var names: set<string> := {};
      while token.kind != RBrace
        invariant Valid()
        invariant G.Methods(Here(), names, methods) == G.Methods(old(Here()), {}, [])
        decreases G.Left(Here())
      {
        var m :- ParseMethod();
        if m.name in names {
          return Fail(m.line, 1);
        }
        names := names + {m.name};
        methods := methods + [m];
      }
      return Ok(methods);
    }

    method ParseInterface() returns (r: Outcome<Interface>)
      requires Valid()
      modifies this, lexer
      ensures Follows(r, G.AnInterface(old(Here())))
    {
      hide G.Expect, G.Methods, G.Close;
      var line := token.line;
      var name :- Expect(Ident);
      var _ :- Expect(LBrace);
      var methods :- ParseMethods();
      var _ :- Close();
      return Ok(Interface(name, methods, line));
    }

    method ParseDeclaration(keyword: string, line: nat, file: File) returns (r: Outcome<File>)
      requires Valid()
      modifies this, lexer
      ensures Follows(r, G.Declaration(old(Here()), keyword, line, file))
    {
      hide G.Enum, G.Struct, G.Protocol, G.AnInterface;
      if keyword == "enum" {
        var d :- ParseEnum();
        return Ok(file.(enums := file.enums + [d]));
      } else if keyword == "struct" {
        var d :- ParseStruct();
        return Ok(file.(structs := file.structs + [d]));
      } else if keyword == "protocol" {
        var d :- ParseProtocol();
        return Ok(file.(protocols := file.protocols + [d]));
      } else if keyword == "interface" {
        var d :- ParseInterface();
        return Ok(file.(interfaces := file.interfaces + [d]));
      }
      return Fail(line, 1);
    }

    method ParseDeclarations() returns (r: Outcome<File>)
      requires Valid()
      modifies this, lexer
      ensures r == G.Declarations(old(Here()), File([], [], [], []))
    {
      hide G.Expect, G.Declaration;
      var file := File([], [], [], []);
      while token.kind != End
        invariant Valid()
        invariant G.Declarations(Here(), file) == G.Declarations(old(Here()), File([], [], [], []))
        decreases G.Left(Here())
      {
        var line := token.line;
        var keyword :- Expect(Ident);
        file :- ParseDeclaration(keyword, line, file);
      }
      return Ok(file);
    }
  }
}
