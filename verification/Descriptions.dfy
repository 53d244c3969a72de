/** The declarations of an IPC description, and which of them can be written down. */
module Descriptions {
  import opened Lexing

  datatype Dir = In | Out

  datatype Field = Field(dir: Dir, ty: string, name: string, lenRef: string, line: nat)

  datatype EnumMember = EnumMember(name: string, value: string, line: nat)

  datatype EnumDecl = EnumDecl(name: string, underlying: string, members: seq<EnumMember>, line: nat)

  datatype StructDecl = StructDecl(name: string, fields: seq<Field>, line: nat)

  datatype FrameField = FrameField(payload: bool, ty: string, name: string, line: nat)

  type FrameDecl = seq<FrameField>

  /** The enum value is kept as its path of identifiers; its text joins them with "::". */
  datatype CommandDecl = CommandDecl(name: string, enumValue: seq<string>, request: FrameDecl,
                                     response: FrameDecl, responseNone: bool, line: nat)

  datatype ProtocolDecl = ProtocolDecl(name: string, requestHeader: string, commands: seq<CommandDecl>, line: nat)

  datatype Method = Method(name: string, retType: string, params: seq<Field>, line: nat)

  datatype Interface = Interface(name: string, methods: seq<Method>, line: nat)

  datatype File = File(enums: seq<EnumDecl>, structs: seq<StructDecl>,
                       protocols: seq<ProtocolDecl>, interfaces: seq<Interface>)

  function ScopedText(path: seq<string>): string {
    if path == [] then ""
    else if |path| == 1 then path[0]
    else ScopedText(path[..|path| - 1]) + "::" + path[|path| - 1]
  }

  // ---- forgetting the line numbers ----

  function BareFields(fs: seq<Field>): seq<Field> {
    seq(|fs|, i requires 0 <= i < |fs| => fs[i].(line := 0))
  }

  function BareMembers(ms: seq<EnumMember>): seq<EnumMember> {
    seq(|ms|, i requires 0 <= i < |ms| => ms[i].(line := 0))
  }

  function BareFrame(fs: FrameDecl): FrameDecl {
    seq(|fs|, i requires 0 <= i < |fs| => fs[i].(line := 0))
  }

  function BareEnum(d: EnumDecl): EnumDecl {
    d.(members := BareMembers(d.members), line := 0)
  }

  function BareStruct(d: StructDecl): StructDecl {
    d.(fields := BareFields(d.fields), line := 0)
  }

  function BareCommand(c: CommandDecl): CommandDecl {
    c.(request := BareFrame(c.request), response := BareFrame(c.response), line := 0)
  }

  function BareCommands(cs: seq<CommandDecl>): seq<CommandDecl> {
    seq(|cs|, i requires 0 <= i < |cs| => BareCommand(cs[i]))
  }

  function BareProtocol(d: ProtocolDecl): ProtocolDecl {
    d.(commands := BareCommands(d.commands), line := 0)
  }

  function BareMethod(m: Method): Method {
    m.(params := BareFields(m.params), line := 0)
  }

  function BareMethods(ms: seq<Method>): seq<Method> {
    seq(|ms|, i requires 0 <= i < |ms| => BareMethod(ms[i]))
  }

  function BareInterface(d: Interface): Interface {
    d.(methods := BareMethods(d.methods), line := 0)
  }

  function BareEnums(ds: seq<EnumDecl>): seq<EnumDecl> {
    seq(|ds|, i requires 0 <= i < |ds| => BareEnum(ds[i]))
  }

  function BareStructs(ds: seq<StructDecl>): seq<StructDecl> {
    seq(|ds|, i requires 0 <= i < |ds| => BareStruct(ds[i]))
  }

  function BareProtocols(ds: seq<ProtocolDecl>): seq<ProtocolDecl> {
    seq(|ds|, i requires 0 <= i < |ds| => BareProtocol(ds[i]))
  }

  function BareInterfaces(ds: seq<Interface>): seq<Interface> {
    seq(|ds|, i requires 0 <= i < |ds| => BareInterface(ds[i]))
  }

  /** The same file with every line number forgotten. */
  function Bare(f: File): File {
    File(BareEnums(f.enums), BareStructs(f.structs), BareProtocols(f.protocols), BareInterfaces(f.interfaces))
  }

  // ---- which declarations some description text declares ----

  predicate IsIdent(s: string) {
    IsWord(Ident, s)
  }

  predicate FieldWritable(f: Field, directed: bool) {
    && IsIdent(f.ty) && IsIdent(f.name)
    && (f.lenRef == "" || IsIdent(f.lenRef))
    && (f.ty == "bytes" <==> f.lenRef != "")
    && (directed || (f.dir == In && f.ty != "in" && f.ty != "out"))
  }

  predicate FieldsWritable(fs: seq<Field>, directed: bool) {
    && (forall i :: 0 <= i < |fs| ==> FieldWritable(fs[i], directed))
    && (forall i, j :: 0 <= i < j < |fs| ==> fs[i].name != fs[j].name)
  }

  predicate MembersWritable(ms: seq<EnumMember>) {
    && (forall i :: 0 <= i < |ms| ==> IsIdent(ms[i].name) && IsWord(Int, ms[i].value))
    && (forall i, j :: 0 <= i < j < |ms| ==> ms[i].name != ms[j].name)
  }

  predicate EnumWritable(d: EnumDecl) {
    IsIdent(d.name) && IsIdent(d.underlying) && MembersWritable(d.members)
  }

  predicate StructWritable(d: StructDecl) {
    IsIdent(d.name) && FieldsWritable(d.fields, false)
  }

  predicate FrameWritable(fs: FrameDecl) {
    && (forall i :: 0 <= i < |fs| ==>
          IsIdent(fs[i].ty) && IsIdent(fs[i].name) && (fs[i].payload <==> fs[i].ty == "payload"))
    && (forall i, j :: 0 <= i < j < |fs| ==> fs[i].name != fs[j].name && !(fs[i].payload && fs[j].payload))
  }

  predicate PathWritable(path: seq<string>) {
    path != [] && forall s :: s in path ==> IsIdent(s)
  }

  predicate CommandWritable(c: CommandDecl) {
    && IsIdent(c.name) && PathWritable(c.enumValue)
    && FrameWritable(c.request) && FrameWritable(c.response)
    && (c.responseNone ==> c.response == [])
  }

  predicate CommandsWritable(cs: seq<CommandDecl>) {
    && (forall i :: 0 <= i < |cs| ==> CommandWritable(cs[i]))
    && (forall i, j :: 0 <= i < j < |cs| ==> cs[i].name != cs[j].name)
  }

  predicate ProtocolWritable(d: ProtocolDecl) {
    && IsIdent(d.name) && (d.requestHeader == "" || IsIdent(d.requestHeader))
    && CommandsWritable(d.commands)
  }

  predicate MethodWritable(m: Method) {
    IsIdent(m.name) && IsIdent(m.retType) && FieldsWritable(m.params, true)
  }

  predicate MethodsWritable(ms: seq<Method>) {
    && (forall i :: 0 <= i < |ms| ==> MethodWritable(ms[i]))
    && (forall i, j :: 0 <= i < j < |ms| ==> ms[i].name != ms[j].name)
  }

  predicate InterfaceWritable(d: Interface) {
    IsIdent(d.name) && MethodsWritable(d.methods)
  }

  predicate Writable(f: File) {
    && (forall i :: 0 <= i < |f.enums| ==> EnumWritable(f.enums[i]))
    && (forall i :: 0 <= i < |f.structs| ==> StructWritable(f.structs[i]))
    && (forall i :: 0 <= i < |f.protocols| ==> ProtocolWritable(f.protocols[i]))
    && (forall i :: 0 <= i < |f.interfaces| ==> InterfaceWritable(f.interfaces[i]))
  }
}
