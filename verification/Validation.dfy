/** The checks a parsed description must pass.  Each method is a loop of the original and is
    proved to decide a property of the whole description. */
module Validation {
  import opened Descriptions

  predicate IsIntegral(ty: string) {
    ty in {"bool", "byte", "uint8", "int8", "uint16", "int16",
           "uint32", "int32", "uint64", "int64", "size_t"}
  }

  // ---- the property decided ----

  /** A length reference names an earlier parameter, in whichever direction, of integral type. */
  predicate LengthResolves(ps: seq<Field>, i: nat)
    requires i < |ps|
  {
    ps[i].lenRef == "" || exists j :: 0 <= j < i && ps[j].name == ps[i].lenRef && IsIntegral(ps[j].ty)
  }

  /** No direction has two bytes parameters. */
  predicate OneBlobEach(ps: seq<Field>) {
    forall i, j :: 0 <= i < j < |ps| ==> ps[i].lenRef == "" || ps[j].lenRef == "" || ps[i].dir != ps[j].dir
  }

  predicate MethodAccepted(m: Method) {
    && (forall i :: 0 <= i < |m.params| ==> LengthResolves(m.params, i))
    && OneBlobEach(m.params)
  }

  predicate Declares(ds: seq<StructDecl>, name: string) {
    exists i :: 0 <= i < |ds| && ds[i].name == name
  }

  predicate FrameAccepted(f: File, frame: FrameDecl) {
    forall i :: 0 <= i < |frame| ==>
      frame[i].payload || Declares(f.structs, frame[i].ty) || IsIntegral(frame[i].ty)
  }

  predicate HasPayload(frame: FrameDecl) {
    exists i :: 0 <= i < |frame| && frame[i].payload
  }

  /** The shape demanded of the one command that carries interface calls.  Which of the three
      fields is the payload is not checked, only that one is. */
  predicate InterfaceCallAccepted(c: CommandDecl) {
    && ScopedText(c.enumValue) == "EIPCCommand::InterfaceCall"
    && !c.responseNone
    && HasPayload(c.request) && HasPayload(c.response)
    && |c.request| == 3 && c.request[0].name == "header" && c.request[1].name == "body"
    && c.request[2].name == "fencepost"
    && |c.response| == 2 && c.response[0].name == "header" && c.response[1].name == "body"
  }

  predicate CommandAccepted(f: File, c: CommandDecl) {
    && FrameAccepted(f, c.request)
    && (!c.responseNone ==> FrameAccepted(f, c.response))
    && (c.name == "IPCInterfaceCall" ==> InterfaceCallAccepted(c))
  }

  predicate Distinct(names: seq<string>) {
    forall i, j :: 0 <= i < j < |names| ==> names[i] != names[j]
  }

  function TypeNames(f: File): seq<string> {
    seq(|f.enums| + |f.structs|, i requires 0 <= i < |f.enums| + |f.structs| =>
      if i < |f.enums| then f.enums[i].name else f.structs[i - |f.enums|].name)
  }

  function InterfaceNames(f: File): seq<string> {
    seq(|f.interfaces|, i requires 0 <= i < |f.interfaces| => f.interfaces[i].name)
  }

  predicate IsInterfaceMember(f: File, name: string) {
    exists i, k :: 0 <= i < |f.enums| && f.enums[i].name == "EIPCInterface"
                   && 0 <= k < |f.enums[i].members| && f.enums[i].members[k].name == name
  }

  predicate InterfaceAccepted(f: File, d: Interface) {
    IsInterfaceMember(f, d.name) && forall k :: 0 <= k < |d.methods| ==> MethodAccepted(d.methods[k])
  }

  predicate InterfacesAccepted(f: File) {
    && (exists i :: 0 <= i < |f.enums| && f.enums[i].name == "EIPCInterface")
    && (forall i :: 0 <= i < |f.interfaces| ==> InterfaceAccepted(f, f.interfaces[i]))
  }

  predicate ProtocolAccepted(f: File) {
    && |f.protocols| == 1 && f.protocols[0].name == "IPC"
    && Declares(f.structs, f.protocols[0].requestHeader)
    && (forall i :: 0 <= i < |f.protocols[0].commands| ==> CommandAccepted(f, f.protocols[0].commands[i]))
    && (exists i :: 0 <= i < |f.protocols[0].commands| && f.protocols[0].commands[i].name == "IPCInterfaceCall")
  }

  predicate Accepted(f: File) {
    && Distinct(TypeNames(f)) && Distinct(InterfaceNames(f))
    && InterfacesAccepted(f) && ProtocolAccepted(f)
  }

  // ---- the loops that decide it ----

  method AllUnique(names: seq<string>) returns (ok: bool)
    ensures ok <==> Distinct(names)
  {
    var seen: set<string> := {};
    for i := 0 to |names|
      invariant seen == set k | 0 <= k < i :: names[k]
      invariant forall j, k :: 0 <= j < k < i ==> names[j] != names[k]
    {
      if names[i] in seen {
        return false;
      }
      seen := seen + {names[i]};
    }
    return true;
  }

  predicate IsPrior(prior: map<string, Field>, ps: seq<Field>, i: nat)
    requires i <= |ps|
  {
    && (forall k :: 0 <= k < i ==> ps[k].name in prior && prior[ps[k].name] == ps[k])
    && (forall n :: n in prior ==> exists k :: 0 <= k < i && ps[k].name == n)
  }

  predicate HasBlob(ps: seq<Field>, i: nat, dir: Dir)
    requires i <= |ps|
  {
    exists k :: 0 <= k < i && ps[k].lenRef != "" && ps[k].dir == dir
  }

  lemma Resolved(prior: map<string, Field>, ps: seq<Field>, i: nat)
    requires FieldsWritable(ps, true) && i < |ps| && IsPrior(prior, ps, i) && ps[i].lenRef != ""
    ensures LengthResolves(ps, i) <==> ps[i].lenRef in prior && IsIntegral(prior[ps[i].lenRef].ty)
  {
  }

  lemma PriorGrows(prior: map<string, Field>, ps: seq<Field>, i: nat)
    requires FieldsWritable(ps, true) && i < |ps| && IsPrior(prior, ps, i)
    ensures IsPrior(prior[ps[i].name := ps[i]], ps, i + 1)
  {
  }

  lemma BlobsGrow(ps: seq<Field>, i: nat)
    requires i < |ps| && OneBlobEach(ps[..i])
    ensures forall d :: HasBlob(ps, i + 1, d) <==> HasBlob(ps, i, d) || (ps[i].lenRef != "" && ps[i].dir == d)
    ensures OneBlobEach(ps[..i + 1]) <==> ps[i].lenRef == "" || !HasBlob(ps, i, ps[i].dir)
  {
    forall d ensures HasBlob(ps, i + 1, d) <==> HasBlob(ps, i, d) || (ps[i].lenRef != "" && ps[i].dir == d) {
      if HasBlob(ps, i, d) {
        var k :| 0 <= k < i && ps[k].lenRef != "" && ps[k].dir == d;
        assert 0 <= k < i + 1;
      }
    }
    if ps[i].lenRef != "" && HasBlob(ps, i, ps[i].dir) {
      var k :| 0 <= k < i && ps[k].lenRef != "" && ps[k].dir == ps[i].dir;
      assert ps[..i + 1][k] == ps[k] && ps[..i + 1][i] == ps[i];
    } else {
      forall j, k | 0 <= j < k < i + 1 ensures ps[j].lenRef == "" || ps[k].lenRef == "" || ps[j].dir != ps[k].dir {
        if k < i {
          assert ps[..i][j] == ps[j] && ps[..i][k] == ps[k];
        }
      }
    }
  }

  lemma BlobsFail(ps: seq<Field>, i: nat)
    requires i <= |ps| && !OneBlobEach(ps[..i])
    ensures !OneBlobEach(ps)
  {
    var j, k :| 0 <= j < k < i
        && !(ps[..i][j].lenRef == "" || ps[..i][k].lenRef == "" || ps[..i][j].dir != ps[..i][k].dir);
    assert ps[..i][j] == ps[j] && ps[..i][k] == ps[k];
  }

  /** Walks the parameters once, with the parameters so far by name and a blob count for
      each direction. */
  method ValidateMethod(m: Method) returns (ok: bool)
    requires MethodWritable(m)
    ensures ok <==> MethodAccepted(m)
  {
    hide LengthResolves, HasBlob, OneBlobEach, IsPrior, IsIntegral;
    var ps := m.params;
    var prior: map<string, Field> := map[];
    var inBlobs, outBlobs := 0, 0;
    Nothing(ps);
    for i := 0 to |ps|
      invariant IsPrior(prior, ps, i)
      invariant forall k :: 0 <= k < i ==> LengthResolves(ps, k)
      invariant inBlobs == (if HasBlob(ps, i, In) then 1 else 0)
      invariant outBlobs == (if HasBlob(ps, i, Out) then 1 else 0)
      invariant OneBlobEach(ps[..i])
    {
      var field := ps[i];
      BlobsGrow(ps, i);
      PriorGrows(prior, ps, i);
      if field.lenRef != "" {
        Resolved(prior, ps, i);
        if field.lenRef !in prior || !IsIntegral(prior[field.lenRef].ty) {
          return false;
        }
        if field.dir == In {
          inBlobs := inBlobs + 1;
        } else {
          outBlobs := outBlobs + 1;
        }
        if inBlobs > 1 || outBlobs > 1 {
          BlobsFail(ps, i + 1);
          return false;
        }
      } else {
        NoLength(ps, i);
      }
      prior := prior[field.name := field];
    }
    assert ps[..|ps|] == ps;
    return true;
  }

  lemma Nothing(ps: seq<Field>)
    ensures IsPrior(map[], ps, 0) && !HasBlob(ps, 0, In) && !HasBlob(ps, 0, Out) && OneBlobEach(ps[..0])
  {
  }

  lemma NoLength(ps: seq<Field>, i: nat)
    requires i < |ps| && ps[i].lenRef == ""
    ensures LengthResolves(ps, i)
  {
  }

  method FindStruct(f: File, name: string) returns (found: bool)
    ensures found <==> Declares(f.structs, name)
  {
    for i := 0 to |f.structs|
      invariant forall k :: 0 <= k < i ==> f.structs[k].name != name
    {
      if f.structs[i].name == name {
        return true;
      }
    }
    return false;
  }

  method ValidateFrame(f: File, frame: FrameDecl) returns (ok: bool)
    ensures ok <==> FrameAccepted(f, frame)
  {
    for i := 0 to |frame|
      invariant forall k :: 0 <= k < i ==>
                  frame[k].payload || Declares(f.structs, frame[k].ty) || IsIntegral(frame[k].ty)
    {
      var known := FindStruct(f, frame[i].ty);
      if !frame[i].payload && !known && !IsIntegral(frame[i].ty) {
        return false;
      }
    }
    return true;
  }

  method FramePayload(frame: FrameDecl) returns (found: bool)
    ensures found <==> HasPayload(frame)
  {
    for i := 0 to |frame|
      invariant forall k :: 0 <= k < i ==> !frame[k].payload
    {
      if frame[i].payload {
        return true;
      }
    }
    return false;
  }

  method ValidateInterfaceCall(c: CommandDecl) returns (ok: bool)
    ensures ok <==> InterfaceCallAccepted(c)
  {
    var inRequest := FramePayload(c.request);
    var inResponse := FramePayload(c.response);
    if ScopedText(c.enumValue) != "EIPCCommand::InterfaceCall" || c.responseNone || !inRequest || !inResponse {
      return false;
    }
    if |c.request| != 3 || c.request[0].name != "header" || c.request[1].name != "body"
       || c.request[2].name != "fencepost"
    {
      return false;
    }
    return |c.response| == 2 && c.response[0].name == "header" && c.response[1].name == "body";
  }

  method ValidateProtocol(f: File) returns (ok: bool)
    requires Writable(f)
    ensures ok <==> ProtocolAccepted(f)
  {
    if |f.protocols| != 1 || f.protocols[0].name != "IPC" {
      return false;
    }
    var commands := f.protocols[0].commands;
    assert ProtocolWritable(f.protocols[0]);
    var known := FindStruct(f, f.protocols[0].requestHeader);
    if !known {
      return false;
    }
    var call := |commands|;
    for i := 0 to |commands|
      invariant 0 <= call <= |commands| && (call < i || call == |commands|)
      invariant forall k :: 0 <= k < i ==> FrameAccepted(f, commands[k].request)
      invariant forall k :: 0 <= k < i && !commands[k].responseNone ==> FrameAccepted(f, commands[k].response)
      invariant call < |commands| ==> commands[call].name == "IPCInterfaceCall"
      invariant forall k :: 0 <= k < i && commands[k].name == "IPCInterfaceCall" ==> k == call
    {
      var requestOk := ValidateFrame(f, commands[i].request);
      if !requestOk {
        assert !CommandAccepted(f, commands[i]);
        return false;
      }
      if !commands[i].responseNone {
        var responseOk := ValidateFrame(f, commands[i].response);
        if !responseOk {
          assert !CommandAccepted(f, commands[i]);
          return false;
        }
      }
      if commands[i].name == "IPCInterfaceCall" {
        call := i;
      }
    }
    if call == |commands| {
      return false;
    }
    ok := ValidateInterfaceCall(commands[call]);
    assert ok <==> CommandAccepted(f, commands[call]);
  }

  method ValidateInterface(ghost f: File, members: set<string>, d: Interface) returns (ok: bool)
    requires InterfaceWritable(d) && forall name: string :: name in members <==> IsInterfaceMember(f, name)
    ensures ok <==> InterfaceAccepted(f, d)
  {
    hide IsInterfaceMember, MethodAccepted, MethodWritable;
    if d.name !in members {
      return false;
    }
    for n := 0 to |d.methods|
      invariant forall k :: 0 <= k < n ==> MethodAccepted(d.methods[k])
    {
      ok := ValidateMethod(d.methods[n]);
      if !ok {
        return;
      }
    }
    return true;
  }

  method FindEnum(f: File, name: string) returns (at: nat)
    ensures at <= |f.enums| && (at < |f.enums| ==> f.enums[at].name == name)
    ensures forall k :: 0 <= k < at ==> f.enums[k].name != name
  {
    at := 0;
    while at < |f.enums| && f.enums[at].name != name
      invariant at <= |f.enums|
      invariant forall k :: 0 <= k < at ==> f.enums[k].name != name
    {
      at := at + 1;
    }
  }

  method ValidateInterfaces(f: File) returns (ok: bool)
    requires Writable(f) && Distinct(TypeNames(f))
    ensures ok <==> InterfacesAccepted(f)
  {
    var at := FindEnum(f, "EIPCInterface");
    if at == |f.enums| {
      return false;
    }
    assert forall i :: 0 <= i < |f.interfaces| ==> InterfaceWritable(f.interfaces[i]);
    hide InterfaceWritable;
    var members := set k | 0 <= k < |f.enums[at].members| :: f.enums[at].members[k].name;
    OnlyInterfaceEnum(f, at);
    hide Writable, IsInterfaceMember, InterfaceAccepted, Distinct;
    for i := 0 to |f.interfaces|
      invariant forall k :: 0 <= k < i ==> InterfaceAccepted(f, f.interfaces[k])
    {
      ok := ValidateInterface(f, members, f.interfaces[i]);
      if !ok {
        return;
      }
    }
    return true;
  }

  lemma OnlyInterfaceEnum(f: File, at: nat)
    requires Distinct(TypeNames(f)) && at < |f.enums| && f.enums[at].name == "EIPCInterface"
    ensures forall name: string ::
              IsInterfaceMember(f, name) <==>
                name in set k | 0 <= k < |f.enums[at].members| :: f.enums[at].members[k].name
  {
    forall k | 0 <= k < |f.enums| && f.enums[k].name == f.enums[at].name ensures k == at {
      assert TypeNames(f)[k] == TypeNames(f)[at];
    }
  }

  method Validate(f: File) returns (ok: bool)
    requires Writable(f)
    ensures ok <==> Accepted(f)
  {
    ok := AllUnique(TypeNames(f));
    if !ok {
      return;
    }
    ok := AllUnique(InterfaceNames(f));
    if !ok {
      return;
    }
    ok := ValidateInterfaces(f);
    if !ok {
      return;
    }
    ok := ValidateProtocol(f);
  }

  // ---- what is accepted, spelled out ----

  /** Types have names of their own, and so have interfaces. */
  lemma NamesMean(f: File)
    ensures Distinct(TypeNames(f)) && Distinct(InterfaceNames(f)) <==>
            && (forall i, j :: 0 <= i < j < |f.enums| ==> f.enums[i].name != f.enums[j].name)
            && (forall i, j :: 0 <= i < j < |f.structs| ==> f.structs[i].name != f.structs[j].name)
            && (forall i, j :: 0 <= i < |f.enums| && 0 <= j < |f.structs| ==> f.enums[i].name != f.structs[j].name)
            && (forall i, j :: 0 <= i < j < |f.interfaces| ==> f.interfaces[i].name != f.interfaces[j].name)
  {
    var names, n := TypeNames(f), |f.enums|;
    assert forall i :: 0 <= i < n ==> names[i] == f.enums[i].name;
    assert forall j :: 0 <= j < |f.structs| ==> names[n + j] == f.structs[j].name;
    assert forall i :: 0 <= i < |f.interfaces| ==> InterfaceNames(f)[i] == f.interfaces[i].name;
  }

  /** Every length of a method is an earlier parameter of an integral type, and no two blobs go the
      same way. */
  lemma MethodMeans(m: Method)
    ensures MethodAccepted(m) <==>
            && (forall i :: 0 <= i < |m.params| && m.params[i].lenRef != "" ==>
                  exists j :: 0 <= j < i && m.params[j].name == m.params[i].lenRef
                              && m.params[j].ty in ["bool", "byte", "uint8", "int8", "uint16", "int16", "uint32",
                                                    "int32", "uint64", "int64", "size_t"])
            && (forall i, j :: 0 <= i < j < |m.params| && m.params[i].lenRef != "" && m.params[j].lenRef != "" ==>
                  m.params[i].dir != m.params[j].dir)
  {
    forall i | 0 <= i < |m.params| && m.params[i].lenRef != ""
      ensures LengthResolves(m.params, i) <==>
              exists j :: 0 <= j < i && m.params[j].name == m.params[i].lenRef
                          && m.params[j].ty in ["bool", "byte", "uint8", "int8", "uint16", "int16", "uint32",
                                                "int32", "uint64", "int64", "size_t"]
    {
    }
  }

  /** Every interface is a member of that enumeration. */
  predicate NamesInterfaces(d: EnumDecl, interfaces: seq<Interface>) {
    forall i :: 0 <= i < |interfaces| ==> HasMember(d, interfaces[i].name)
  }

  predicate HasMember(d: EnumDecl, name: string) {
    exists k :: 0 <= k < |d.members| && d.members[k].name == name
  }

  /** There is an enumeration of interfaces, and it names every interface. */
  lemma InterfacesMean(f: File)
    requires Distinct(TypeNames(f))
    ensures InterfacesAccepted(f) <==>
            && (exists e :: 0 <= e < |f.enums| && f.enums[e].name == "EIPCInterface"
                            && NamesInterfaces(f.enums[e], f.interfaces))
            && (forall i, k :: 0 <= i < |f.interfaces| && 0 <= k < |f.interfaces[i].methods| ==>
                  MethodAccepted(f.interfaces[i].methods[k]))
  {
    hide MethodAccepted, IsInterfaceMember, Distinct;
    if InterfacesAccepted(f) {
      var e :| 0 <= e < |f.enums| && f.enums[e].name == "EIPCInterface";
      forall i | 0 <= i < |f.interfaces| ensures HasMember(f.enums[e], f.interfaces[i].name) {
        assert InterfaceAccepted(f, f.interfaces[i]);
        OneInterfaceEnum(f, e, f.interfaces[i].name);
      }
      forall i, k | 0 <= i < |f.interfaces| && 0 <= k < |f.interfaces[i].methods|
        ensures MethodAccepted(f.interfaces[i].methods[k])
      {
        assert InterfaceAccepted(f, f.interfaces[i]);
      }
    } else if e :| 0 <= e < |f.enums| && f.enums[e].name == "EIPCInterface"
                   && NamesInterfaces(f.enums[e], f.interfaces)
    {
      var i :| 0 <= i < |f.interfaces| && !InterfaceAccepted(f, f.interfaces[i]);
      OneInterfaceEnum(f, e, f.interfaces[i].name);
    }
  }

  lemma OneInterfaceEnum(f: File, e: nat, name: string)
    requires Distinct(TypeNames(f)) && e < |f.enums| && f.enums[e].name == "EIPCInterface"
    ensures IsInterfaceMember(f, name) <==> HasMember(f.enums[e], name)
  {
    forall i | 0 <= i < |f.enums| && f.enums[i].name == "EIPCInterface" ensures i == e {
      assert TypeNames(f)[i] == f.enums[i].name && TypeNames(f)[e] == f.enums[e].name;
    }
  }

  predicate KnownFrame(f: File, frame: FrameDecl) {
    forall i :: 0 <= i < |frame| ==>
      || frame[i].payload
      || (exists s :: 0 <= s < |f.structs| && f.structs[s].name == frame[i].ty)
      || frame[i].ty in ["bool", "byte", "uint8", "int8", "uint16", "int16", "uint32", "int32", "uint64", "int64",
                         "size_t"]
  }

  /** There is one protocol, for IPC, with a declared request header; all frames are of known types;
      and it has the command that carries interface calls, of the one shape there is for it. */
  lemma ProtocolMeans(f: File)
    ensures ProtocolAccepted(f) <==>
            && |f.protocols| == 1 && f.protocols[0].name == "IPC"
            && (exists s :: 0 <= s < |f.structs| && f.structs[s].name == f.protocols[0].requestHeader)
            && var cs := f.protocols[0].commands;
            && (exists i :: 0 <= i < |cs| && cs[i].name == "IPCInterfaceCall")
            && forall i :: 0 <= i < |cs| ==>
                 && KnownFrame(f, cs[i].request) && (cs[i].responseNone || KnownFrame(f, cs[i].response))
                 && (cs[i].name == "IPCInterfaceCall" ==>
                       && ScopedText(cs[i].enumValue) == "EIPCCommand::InterfaceCall" && !cs[i].responseNone
                       && |cs[i].request| == 3 && |cs[i].response| == 2
                       && cs[i].request[0].name == "header" && cs[i].request[1].name == "body"
                       && cs[i].request[2].name == "fencepost"
                       && cs[i].response[0].name == "header" && cs[i].response[1].name == "body"
                       && (exists k :: 0 <= k < 3 && cs[i].request[k].payload)
                       && (exists k :: 0 <= k < 2 && cs[i].response[k].payload))
  {
    forall frame: FrameDecl ensures KnownFrame(f, frame) <==> FrameAccepted(f, frame) {
      FrameMeans(f, frame);
    }
    if |f.protocols| == 1 {
      var cs := f.protocols[0].commands;
      forall i | 0 <= i < |cs| {
        CallMeans(cs[i]);
      }
      hide InterfaceCallAccepted, FrameAccepted, KnownFrame, ScopedText;
    }
  }

  lemma FrameMeans(f: File, frame: FrameDecl)
    ensures KnownFrame(f, frame) <==> FrameAccepted(f, frame)
  {
  }

  lemma CallMeans(c: CommandDecl)
    ensures InterfaceCallAccepted(c) <==>
            && ScopedText(c.enumValue) == "EIPCCommand::InterfaceCall" && !c.responseNone
            && |c.request| == 3 && |c.response| == 2
            && c.request[0].name == "header" && c.request[1].name == "body" && c.request[2].name == "fencepost"
            && c.response[0].name == "header" && c.response[1].name == "body"
            && (exists k :: 0 <= k < 3 && c.request[k].payload) && (exists k :: 0 <= k < 2 && c.response[k].payload)
  {
  }
}
