/** The request and response views emitted for a method, over a packet in memory: which
    fields they have, how they nest inside the transport envelopes, and the setters that
    change the packet in place. */
module Views {
  import opened Bytes
  import opened Descriptions
  import opened Validation
  import opened Layout
  import FrontEnd

  // ---- the fields of a view ----

  function FieldsFor(ps: seq<Field>, dir: Dir): seq<Field> {
    if ps == [] then []
    else FieldsFor(ps[..|ps| - 1], dir) + if ps[|ps| - 1].dir == dir then [ps[|ps| - 1]] else []
  }

  function RequestFields(m: Method): seq<Field> {
    FieldsFor(m.params, Dir.In)
  }

  function ResponseFields(m: Method): seq<Field> {
    (if m.retType == "void" then [] else [Field(Dir.In, m.retType, "returnValue", "", 0)])
    + FieldsFor(m.params, Dir.Out)
  }

  /** The names of the lengths that the constructor of a view is handed, in order. */
  function ExternalRefs(fields: seq<Field>): seq<string> {
    Externals(fields, |fields|)
  }

  function Externals(fields: seq<Field>, n: nat): seq<string>
    requires n <= |fields|
  {
    if n == 0 then []
    else
      var before := Externals(fields, n - 1);
      var ref := fields[n - 1].lenRef;
      if ref == "" || Find(fields, ref) < |fields| || ref in before then before else before + [ref]
  }

  /** Where in the parameter list each field of a view stands. */
  function Origins(ps: seq<Field>, dir: Dir): seq<nat> {
    if ps == [] then []
    else Origins(ps[..|ps| - 1], dir) + if ps[|ps| - 1].dir == dir then [|ps| - 1] else []
  }

  lemma {:induction false} OriginsRise(ps: seq<Field>, dir: Dir)
    ensures var o := Origins(ps, dir);
            && |o| == |FieldsFor(ps, dir)|
            && (forall i :: 0 <= i < |o| ==> o[i] < |ps| && FieldsFor(ps, dir)[i] == ps[o[i]] && ps[o[i]].dir == dir)
            && (forall i, j :: 0 <= i < j < |o| ==> o[i] < o[j])
  {
    if ps != [] {
      OriginsRise(ps[..|ps| - 1], dir);
    }
  }

  /** A captured name that C++ would reject: the length of a blob is called returnValue, so
      the emitted code reads the return value, and that is itself of type bytes. */
  predicate CapturesBytes(m: Method) {
    && m.retType == "bytes"
    && exists i :: 0 <= i < |m.params| && m.params[i].dir == Dir.Out && m.params[i].lenRef == "returnValue"
  }

  /** The part of being grounded that concerns the fields alone. */
  predicate FieldsGrounded(fs: seq<Field>) {
    && (forall i, j :: 0 <= i < |fs| && 0 <= j < |fs| && Names(fs, i, j) ==> j < i && fs[j].ty != "bytes")
    && (forall i, j :: 0 <= i < j < |fs| ==> fs[i].lenRef == "" || fs[j].lenRef == "")
    && (forall i :: 0 <= i < |fs| ==> fs[i].lenRef != "" ==> fs[i].ty == "bytes")
  }

  lemma FilteredIsGrounded(m: Method, dir: Dir)
    requires MethodWritable(m) && MethodAccepted(m)
    ensures FieldsGrounded(FieldsFor(m.params, dir))
  {
    var fs, o := FieldsFor(m.params, dir), Origins(m.params, dir);
    OriginsRise(m.params, dir);
    forall i, j | 0 <= i < |fs| && 0 <= j < |fs| && Names(fs, i, j) ensures j < i && fs[j].ty != "bytes" {
      assert LengthResolves(m.params, o[i]);
    }
    forall i, j | 0 <= i < j < |fs| ensures fs[i].lenRef == "" || fs[j].lenRef == "" {
      assert m.params[o[i]].dir == m.params[o[j]].dir;
    }
    forall i | 0 <= i < |fs| && fs[i].lenRef != "" ensures fs[i].ty == "bytes" {
      assert FieldWritable(m.params[o[i]], true);
    }
  }

  lemma PrependIsGrounded(first: Field, rest: seq<Field>)
    requires FieldsGrounded(rest) && first.lenRef == ""
    requires first.ty == "bytes" ==> forall i :: 0 <= i < |rest| ==> rest[i].lenRef != first.name
    ensures FieldsGrounded([first] + rest)
  {
    var fs := [first] + rest;
    assert forall i :: 0 < i < |fs| ==> fs[i] == rest[i - 1];
    forall i, j | 0 <= i < |fs| && 0 <= j < |fs| && Names(fs, i, j) ensures j < i && fs[j].ty != "bytes" {
      if j > 0 {
        assert Names(rest, i - 1, j - 1);
      }
    }
  }

  lemma RequestIsGrounded(abi: Abi, m: Method)
    requires MethodWritable(m) && MethodAccepted(m)
    ensures Grounded(View(abi, RequestFields(m), map[]))
  {
    FilteredIsGrounded(m, Dir.In);
    assert FieldsGrounded(RequestFields(m));
  }

  /** The response view runs in no circles exactly unless a length's name is captured so. */
  lemma ResponseIsGrounded(abi: Abi, m: Method, external: map<string, nat>)
    requires MethodWritable(m) && MethodAccepted(m)
    requires forall name :: name in external ==> external[name] <= abi.Max()
    ensures Grounded(View(abi, ResponseFields(m), external)) <==> !CapturesBytes(m)
  {
    if CapturesBytes(m) {
      CaptureIsNotGrounded(m);
    } else {
      ResponseFieldsGrounded(m);
    }
  }

  lemma CaptureIsNotGrounded(m: Method)
    requires CapturesBytes(m)
    ensures !FieldsGrounded(ResponseFields(m))
  {
    var i :| 0 <= i < |m.params| && m.params[i].dir == Dir.Out && m.params[i].lenRef == "returnValue";
    var fs, o := ResponseFields(m), Origins(m.params, Dir.Out);
    ResponseOrigins(m);
    FilterKeeps(m.params, Dir.Out, i);
    var k :| 0 <= k < |o| && o[k] == i;
    assert fs[k + 1] == m.params[i] && fs[0].ty == "bytes";
    assert Names(fs, k + 1, 0);
  }

  lemma ResponseFieldsGrounded(m: Method)
    requires MethodWritable(m) && MethodAccepted(m) && !CapturesBytes(m)
    ensures FieldsGrounded(ResponseFields(m))
  {
    hide FieldsGrounded, MethodAccepted, MethodWritable;
    FilteredIsGrounded(m, Dir.Out);
    var rest := FieldsFor(m.params, Dir.Out);
    OriginsRise(m.params, Dir.Out);
    if m.retType == "void" {
      assert ResponseFields(m) == rest;
    } else {
      forall i | 0 <= i < |rest| && m.retType == "bytes" ensures rest[i].lenRef != "returnValue" {
        assert rest[i] == m.params[Origins(m.params, Dir.Out)[i]];
      }
      PrependIsGrounded(Field(Dir.In, m.retType, "returnValue", "", 0), rest);
    }
  }

  /** The constructor asks for exactly the lengths that no field of the view holds, once each. */
  lemma {:induction false} ExternalsAreMissing(fields: seq<Field>, n: nat)
    requires n <= |fields|
    ensures forall ref :: ref in Externals(fields, n) <==>
              ref != "" && Find(fields, ref) == |fields| && exists k :: 0 <= k < n && fields[k].lenRef == ref
    ensures forall i, j :: 0 <= i < j < |Externals(fields, n)| ==> Externals(fields, n)[i] != Externals(fields, n)[j]
  {
    if n > 0 {
      ExternalsAreMissing(fields, n - 1);
      forall ref | ref in Externals(fields, n)
        ensures exists k :: 0 <= k < n && fields[k].lenRef == ref
      {
        if ref in Externals(fields, n - 1) {
          var k :| 0 <= k < n - 1 && fields[k].lenRef == ref;
          assert 0 <= k < n;
        } else {
          assert fields[n - 1].lenRef == ref;
        }
      }
    }
  }

  /** They are asked for in the order in which blobs first refer to them. */
  lemma {:induction false} ExternalsInOrder(fields: seq<Field>, m: nat, n: nat)
    requires m <= n <= |fields|
    ensures Externals(fields, m) <= Externals(fields, n)
  {
    if m < n {
      ExternalsInOrder(fields, m, n - 1);
    }
  }

  predicate NameCaptured(m: Method, ref: string) {
    m.retType != "void" && ref == "returnValue"
  }

  /** How many fields of a response come before its output parameters. */
  function Lead(m: Method): nat {
    if m.retType == "void" then 0 else 1
  }

  /** The response finds the length called ref where parameter j puts it: in the response,
      behind the return value, if j is an output; handed to the constructor if j is an input. */
  predicate SuppliedBy(m: Method, ref: string, j: nat)
    requires j < |m.params|
  {
    var fs := ResponseFields(m);
    var at := Find(fs, ref);
    && m.params[j].name == ref
    && if m.params[j].dir == Dir.Out then Lead(m) <= at < |fs| && fs[at] == m.params[j]
       else at == |fs| && ref in ExternalRefs(fs)
  }

  lemma ResponseOrigins(m: Method)
    ensures var fs, o := ResponseFields(m), Origins(m.params, Dir.Out);
            && |fs| == Lead(m) + |o|
            && (m.retType != "void" ==> fs[0].name == "returnValue")
            && forall k :: Lead(m) <= k < |fs| ==>
                 o[k - Lead(m)] < |m.params| && fs[k] == m.params[o[k - Lead(m)]] && fs[k].dir == Dir.Out
  {
    OriginsRise(m.params, Dir.Out);
    assert forall k :: Lead(m) <= k < |ResponseFields(m)| ==>
             ResponseFields(m)[k] == FieldsFor(m.params, Dir.Out)[k - Lead(m)];
  }

  /** An output blob takes its length from the earlier parameter it names exactly unless the
      return value of the method captures that name. */
  lemma LengthComesFromParameter(m: Method, i: nat)
    requires MethodWritable(m) && MethodAccepted(m) && i < |m.params|
    requires m.params[i].dir == Dir.Out && m.params[i].lenRef != ""
    ensures !NameCaptured(m, m.params[i].lenRef) <==> exists j :: 0 <= j < i && SuppliedBy(m, m.params[i].lenRef, j)
  {
    hide FieldWritable, ResponseFields, Origins, OneBlobEach, ExternalRefs;
    var fs, ref, o := ResponseFields(m), m.params[i].lenRef, Origins(m.params, Dir.Out);
    var at := Find(fs, ref);
    ResponseOrigins(m);
    assert LengthResolves(m.params, i);
    var j :| 0 <= j < i && m.params[j].name == ref && IsIntegral(m.params[j].ty);
    if NameCaptured(m, ref) {
      assert at == 0;
    } else {
      assert at < |fs| ==> at >= Lead(m) && o[at - Lead(m)] == j;
      if m.params[j].dir == Dir.Out {
        FilterKeeps(m.params, Dir.Out, j);
        var k :| 0 <= k < |o| && o[k] == j;
        assert fs[Lead(m) + k].name == ref;
      } else {
        FilterKeeps(m.params, Dir.Out, i);
        var k :| 0 <= k < |o| && o[k] == i;
        RefIsExternal(fs, Lead(m) + k);
      }
      assert SuppliedBy(m, ref, j);
    }
  }

  /** Does parameter i take its length from an output? */
  predicate NamesOutput(m: Method, i: nat)
    requires i < |m.params|
  {
    exists j :: 0 <= j < i && m.params[j].name == m.params[i].lenRef && m.params[j].dir == Dir.Out
  }

  /** An input blob takes its length from the earlier parameter it names exactly if that is an
      input.  Validation accepts an output as well: then the request has no length for the
      blob, and its getter is empty whatever the packet. */
  lemma InputLengthComesFromParameter(abi: Abi, m: Method, i: nat, k: nat, body: seq<byte>)
    requires MethodWritable(m) && MethodAccepted(m) && i < |m.params| && m.params[i].lenRef != ""
    requires k < |RequestFields(m)| && RequestFields(m)[k] == m.params[i] && m.params[i].dir == Dir.In
    ensures !NamesOutput(m, i) <==>
            exists j :: 0 <= j < i && m.params[j].name == m.params[i].lenRef
                        && var at := Find(RequestFields(m), m.params[i].lenRef);
                           at < |RequestFields(m)| && RequestFields(m)[at] == m.params[j]
    ensures Grounded(View(abi, RequestFields(m), map[]))
    ensures NamesOutput(m, i) ==> Get(View(abi, RequestFields(m), map[]), body, k) == []
  {
    RequestIsGrounded(abi, m);
    var j := NamedParameter(m, i);
    if m.params[j].dir == Dir.Out {
      assert FieldWritable(m.params[i], true);
      hide Find, RequestFields, Get, Width;
      NoLength(View(abi, RequestFields(m), map[]), body, k);
    }
  }

  /** The one parameter a length reference names, and where the request view has it. */
  lemma NamedParameter(m: Method, i: nat) returns (j: nat)
    requires MethodWritable(m) && MethodAccepted(m) && i < |m.params| && m.params[i].lenRef != ""
    ensures j < i && m.params[j].name == m.params[i].lenRef
    ensures forall n :: 0 <= n < |m.params| && m.params[n].name == m.params[i].lenRef ==> n == j
    ensures var fs, at := RequestFields(m), Find(RequestFields(m), m.params[i].lenRef);
            if m.params[j].dir == Dir.In then at < |fs| && fs[at] == m.params[j] else at == |fs|
  {
    hide FieldWritable, OneBlobEach, Origins, FieldsFor, IsIntegral;
    var fs, ref, o := RequestFields(m), m.params[i].lenRef, Origins(m.params, Dir.In);
    OriginsRise(m.params, Dir.In);
    assert LengthResolves(m.params, i);
    j :| 0 <= j < i && m.params[j].name == ref && IsIntegral(m.params[j].ty);
    var at := Find(fs, ref);
    assert at < |fs| ==> o[at] == j;
    if m.params[j].dir == Dir.In {
      FilterKeeps(m.params, Dir.In, j);
      var n :| 0 <= n < |o| && o[n] == j;
      assert fs[n].name == ref;
    }
  }

  /** A blob whose length is nowhere is empty. */
  lemma NoLength(v: View, body: seq<byte>, k: nat)
    requires k < |v.fields| && IsBlob(v, k) && v.fields[k].lenRef != ""
    requires Find(v.fields, v.fields[k].lenRef) == |v.fields| && v.fields[k].lenRef !in v.external
    ensures Width(v, body, k) == 0 && Get(v, body, k) == []
  {
  }

  lemma RefIsExternal(fields: seq<Field>, k: nat)
    requires k < |fields| && fields[k].lenRef != "" && Find(fields, fields[k].lenRef) == |fields|
    ensures fields[k].lenRef in ExternalRefs(fields)
  {
    ExternalsAreMissing(fields, |fields|);
  }

  lemma {:induction false} FilterKeeps(ps: seq<Field>, dir: Dir, i: nat)
    requires i < |ps| && ps[i].dir == dir
    ensures exists k :: 0 <= k < |Origins(ps, dir)| && Origins(ps, dir)[k] == i
  {
    var o := Origins(ps, dir);
    if i == |ps| - 1 {
      assert o[|o| - 1] == i;
    } else {
      FilterKeeps(ps[..|ps| - 1], dir, i);
      var k :| 0 <= k < |Origins(ps[..|ps| - 1], dir)| && Origins(ps[..|ps| - 1], dir)[k] == i;
      assert o[k] == i;
    }
  }

  /** Every method of a compiled description has grounded views. */
  lemma CompiledMethods(src: string, i: nat, k: nat)
    requires FrontEnd.Compiled(src).Some? && i < |FrontEnd.Compiled(src).value.interfaces|
    requires k < |FrontEnd.Compiled(src).value.interfaces[i].methods|
    ensures var m := FrontEnd.Compiled(src).value.interfaces[i].methods[k];
            MethodWritable(m) && MethodAccepted(m)
  {
    FrontEnd.CompiledIsAccepted(src);
    assert InterfaceWritable(FrontEnd.Compiled(src).value.interfaces[i]);
  }

  // ---- envelopes ----

  const FENCE := 4

  /** The packed headers around a body: their sizes, and where in them the fields are that
      say which message this is. */
  datatype Envelope = Envelope(request: nat, commandAt: nat, command: seq<byte>,
                               call: nat, interfaceAt: nat, interfaceID: seq<byte>, response: nat)

  /** The body of an IPCRequest, and of an IPCResponse with its own header size. */
  function AfterHeader(packet: seq<byte>, header: nat): seq<byte> {
    Slice(packet, header, if |packet| >= header then |packet| - header else 0)
  }

  /** The body of an IPCInterfaceCall: between its header and the fencepost. */
  function CallBody(call: seq<byte>, header: nat): seq<byte> {
    Slice(call, header, if |call| >= header + FENCE then |call| - header - FENCE else 0)
  }

  function RequestBody(e: Envelope, packet: seq<byte>): seq<byte> {
    CallBody(AfterHeader(packet, e.request), e.call)
  }

  /** ok() of an emitted request view. */
  predicate RequestOk(e: Envelope, v: View, packet: seq<byte>) {
    var call := AfterHeader(packet, e.request);
    && |packet| >= e.request
    && ReadAt(packet, e.commandAt, |e.command|) == e.command
    && |call| >= e.call + FENCE
    && ReadAt(call, e.interfaceAt, |e.interfaceID|) == e.interfaceID
    && Fits(v, RequestBody(e, packet))
  }

  /** A request view is ok exactly for the packets that hold both headers and the fencepost, name this
      command and this interface in them, and have a body in between that the fields fit. */
  lemma RequestOkIs(e: Envelope, v: View, packet: seq<byte>)
    requires e.commandAt + |e.command| <= e.request && e.interfaceAt + |e.interfaceID| <= e.call
    ensures RequestOk(e, v, packet) <==>
            && |packet| >= e.request + e.call + 4
            && e.command <= packet[e.commandAt..] && e.interfaceID <= packet[e.request + e.interfaceAt..]
            && Fits(v, packet[e.request + e.call..|packet| - 4])
  {
    if |packet| >= e.request + e.call + 4 {
      BodyIsMiddle(e, packet);
      hide Fits, RequestBody;
      var call := AfterHeader(packet, e.request);
      assert call == packet[e.request..];
      PrefixIsRead(packet, e.commandAt, e.command);
      PrefixIsRead(call, e.interfaceAt, e.interfaceID);
      assert call[e.interfaceAt..] == packet[e.request + e.interfaceAt..];
    }
  }

  lemma PrefixIsRead(b: seq<byte>, at: nat, value: seq<byte>)
    requires at + |value| <= |b|
    ensures ReadAt(b, at, |value|) == value <==> value <= b[at..]
  {
    assert b[at..][..|value|] == b[at..at + |value|];
  }

  function Fencepost(call: seq<byte>): seq<byte> {
    ReadAt(call, if |call| >= FENCE then |call| - FENCE else 0, FENCE)
  }

  function SetFencepost(call: seq<byte>, value: seq<byte>): seq<byte>
    requires |value| == FENCE
  {
    if |call| >= FENCE then WriteAt(call, |call| - FENCE, value) else call
  }

  /** Writing into a part of a packet and putting the part back is writing into the packet. */
  lemma PatchPart(packet: seq<byte>, at: nat, len: nat, offset: nat, value: seq<byte>)
    requires at + len <= |packet|
    ensures var part := WriteAt(packet[at..at + len], offset, value);
            Patch(packet, at, part) == if offset + |value| <= len then Patch(packet, at + offset, value) else packet
  {
    var part := WriteAt(packet[at..at + len], offset, value);
    var whole := Patch(packet, at, part);
    var direct := if offset + |value| <= len then Patch(packet, at + offset, value) else packet;
    forall k | 0 <= k < |packet| ensures whole[k] == direct[k] {
      if at <= k < at + len {
        assert whole[k] == part[k - at];
      }
    }
  }

  function BodyAt(e: Envelope, packet: seq<byte>): (at: nat)
    ensures at + |RequestBody(e, packet)| <= |packet|
  {
    if |RequestBody(e, packet)| == 0 then 0 else e.request + e.call
  }

  /** The packet after the setter of field i of the request view. */
  function SetInRequest(e: Envelope, v: View, packet: seq<byte>, i: nat, value: seq<byte>): seq<byte>
    requires i < |v.fields| && (IsBlob(v, i) || |value| == v.abi.SizeOf(v.fields[i].ty))
  {
    Patch(packet, BodyAt(e, packet), Set(v, RequestBody(e, packet), i, value))
  }

  function SetInResponse(e: Envelope, v: View, packet: seq<byte>, i: nat, value: seq<byte>): seq<byte>
    requires i < |v.fields| && (IsBlob(v, i) || |value| == v.abi.SizeOf(v.fields[i].ty))
  {
    var body := AfterHeader(packet, e.response);
    Patch(packet, |packet| - |body|, Set(v, body, i, value))
  }

  // ---- soundness over whole packets ----

  /** For every method of a compiled description: if the request view of its packet is ok, its
      fields lie end to end in the body, from the header to no further than the fencepost,
      and the getters together read the body up to its size. */
  lemma RequestSound(src: string, i: nat, k: nat, abi: Abi, e: Envelope, packet: seq<byte>)
    requires FrontEnd.Compiled(src).Some? && i < |FrontEnd.Compiled(src).value.interfaces|
    requires k < |FrontEnd.Compiled(src).value.interfaces[i].methods|
    ensures Grounded(View(abi, RequestFields(FrontEnd.Compiled(src).value.interfaces[i].methods[k]), map[]))
    ensures var v := View(abi, RequestFields(FrontEnd.Compiled(src).value.interfaces[i].methods[k]), map[]);
            var body := RequestBody(e, packet);
            RequestOk(e, v, packet) ==>
              && e.request + e.call + BodySize(v, body) + FENCE <= |packet|
              && body == packet[e.request + e.call..|packet| - FENCE]
              && AllFields(v, body, |v.fields|) == body[..BodySize(v, body)]
              && forall n :: 0 <= n < |v.fields| ==>
                   Offset(v, body, n + 1) == Offset(v, body, n) + Width(v, body, n)
  {
    CompiledMethods(src, i, k);
    var m := FrontEnd.Compiled(src).value.interfaces[i].methods[k];
    RequestIsGrounded(abi, m);
    var v: View := View(abi, RequestFields(m), map[]);
    if RequestOk(e, v, packet) {
      BodyIsMiddle(e, packet);
      LayoutSound(v, RequestBody(e, packet));
      FieldsCover(v, RequestBody(e, packet), |v.fields|);
    }
  }

  lemma BodyIsMiddle(e: Envelope, packet: seq<byte>)
    requires |packet| >= e.request + e.call + FENCE
    ensures RequestBody(e, packet) == packet[e.request + e.call..|packet| - FENCE]
  {
    assert AfterHeader(packet, e.request) == packet[e.request..];
    assert packet[e.request..][e.call..|packet| - e.request - FENCE] == packet[e.request + e.call..|packet| - FENCE];
  }

  /** Any setter of a request view works on the body alone: the size of the packet, both
      headers and the fencepost stay, and the new body is what Set makes of the old. */
  lemma RequestSetterStaysInside(e: Envelope, v: View, packet: seq<byte>, i: nat, value: seq<byte>)
    requires i < |v.fields| && (IsBlob(v, i) || |value| == v.abi.SizeOf(v.fields[i].ty))
    ensures var after := SetInRequest(e, v, packet, i, value);
            && |after| == |packet|
            && RequestBody(e, after) == Set(v, RequestBody(e, packet), i, value)
            && (|packet| >= e.request + e.call + FENCE ==>
                  && after[..e.request + e.call] == packet[..e.request + e.call]
                  && after[|packet| - FENCE..] == packet[|packet| - FENCE..])
            && (|packet| < e.request + e.call + FENCE ==> after == packet)
            && Fencepost(AfterHeader(after, e.request)) == Fencepost(AfterHeader(packet, e.request))
  {
    hide Patch, Set, AfterHeader, RequestBody, Fencepost;
    var after := SetInRequest(e, v, packet, i, value);
    var body := Set(v, RequestBody(e, packet), i, value);
    if |packet| >= e.request + e.call + FENCE {
      var at := e.request + e.call;
      BodyIsMiddle(e, packet);
      BodyIsMiddle(e, after);
      EmptyPatch(packet);
      assert after == Patch(packet, at, body);
      PatchSlices(packet, at, body);
      FencepostIsLast(e, packet);
      FencepostIsLast(e, after);
    } else {
      NoBody(e, packet);
      EmptyPatch(packet);
    }
  }

  lemma NoBody(e: Envelope, packet: seq<byte>)
    requires |packet| < e.request + e.call + FENCE
    ensures RequestBody(e, packet) == []
  {
  }

  lemma FencepostIsLast(e: Envelope, packet: seq<byte>)
    requires |packet| >= e.request + FENCE
    ensures Fencepost(AfterHeader(packet, e.request)) == packet[|packet| - FENCE..]
  {
    assert AfterHeader(packet, e.request) == packet[e.request..];
    assert packet[e.request..][|packet| - e.request - FENCE..] == packet[|packet| - FENCE..];
  }

  lemma ResponseSetterStaysInside(e: Envelope, v: View, packet: seq<byte>, i: nat, value: seq<byte>)
    requires i < |v.fields| && (IsBlob(v, i) || |value| == v.abi.SizeOf(v.fields[i].ty))
    ensures var after := SetInResponse(e, v, packet, i, value);
            && |after| == |packet|
            && AfterHeader(after, e.response) == Set(v, AfterHeader(packet, e.response), i, value)
            && (|packet| >= e.response ==> after[..e.response] == packet[..e.response])
            && (|packet| < e.response ==> after == packet)
  {
    var after := SetInResponse(e, v, packet, i, value);
    if |packet| >= e.response {
      assert AfterHeader(packet, e.response) == packet[e.response..];
      assert AfterHeader(after, e.response) == after[e.response..];
    }
  }

  /** Setting the fencepost of any call is read back if the call holds one, and changes nothing
      but the last four bytes of the packet: neither headers nor body. */
  lemma FencepostSetter(e: Envelope, packet: seq<byte>, value: seq<byte>)
    requires |value| == FENCE && |packet| >= e.request
    ensures var call := SetFencepost(AfterHeader(packet, e.request), value);
            var after := Patch(packet, e.request, call);
            && RequestBody(e, after) == RequestBody(e, packet)
            && (|packet| >= e.request + FENCE ==>
                  Fencepost(AfterHeader(after, e.request)) == value
                    && after[..|packet| - FENCE] == packet[..|packet| - FENCE])
            && (|packet| < e.request + FENCE ==> after == packet)
  {
    var call := SetFencepost(AfterHeader(packet, e.request), value);
    var after := Patch(packet, e.request, call);
    assert AfterHeader(packet, e.request) == packet[e.request..];
    assert AfterHeader(after, e.request) == call;
    if |packet| >= e.request + FENCE {
      assert after[..|packet| - FENCE] == packet[..|packet| - FENCE];
      FencepostIsLast(e, after);
      assert after[|packet| - FENCE..] == value;
      FencepostKeepsBody(e, packet, after);
    } else {
      assert after == packet;
    }
  }

  lemma FencepostKeepsBody(e: Envelope, packet: seq<byte>, after: seq<byte>)
    requires |after| == |packet| && |packet| >= e.request + FENCE
             && after[..|packet| - FENCE] == packet[..|packet| - FENCE]
    ensures RequestBody(e, after) == RequestBody(e, packet)
  {
    if |packet| >= e.request + e.call + FENCE {
      BodyIsMiddle(e, packet);
      BodyIsMiddle(e, after);
      var a, b := RequestBody(e, after), RequestBody(e, packet);
      forall k | 0 <= k < |a| ensures a[k] == b[k] {
        var n := e.request + e.call + k;
        assert after[..|packet| - FENCE][n] == packet[..|packet| - FENCE][n];
      }
    } else {
      NoBody(e, packet);
      NoBody(e, after);
    }
  }

  /** A field of a packed header: set_command and set_result, at their place in the outermost
      header.  The value is read back if the packet holds it; no other part of the header and
      nothing behind the header changes. */
  lemma HeaderSetter(packet: seq<byte>, header: nat, at: nat, value: seq<byte>, other: nat, size: nat)
    requires at + |value| <= header
    requires other + size <= at || at + |value| <= other
    ensures var after := WriteAt(packet, at, value);
            && AfterHeader(after, header) == AfterHeader(packet, header)
            && (at + |value| <= |packet| ==> ReadAt(after, at, |value|) == value)
            && (at + |value| > |packet| ==> after == packet)
            && ReadAt(after, other, size) == ReadAt(packet, other, size)
  {
    var after := WriteAt(packet, at, value);
    WriteElsewhere(packet, at, value, other, size);
    if |packet| >= header {
      assert after[header..] == packet[header..];
    }
  }

  /** Does a value at this place of a call leave the bytes of its fencepost as they are?  It does
      if it does not reach them, or is not written because the call is too short to hold it, or
      has those bytes itself. */
  predicate SparesFencepost(call: seq<byte>, at: nat, value: seq<byte>) {
    |call| < FENCE || at + |value| > |call| ||
    forall k :: at <= k < at + |value| && k >= |call| - FENCE ==> value[k - at] == call[k]
  }

  /** The setters of an interface call, through the request around it: set_interfaceID,
      set_hSteamUser and set_funcHash.  In a call shorter than its header and fencepost the two
      overlap, and a setter may change the fencepost. */
  lemma CallHeaderSetter(e: Envelope, packet: seq<byte>, at: nat, value: seq<byte>, other: nat, size: nat)
    requires at + |value| <= e.call
    requires other + size <= at || at + |value| <= other
    ensures var call := AfterHeader(packet, e.request);
            var front := |packet| - |call|;
            var after := Patch(packet, front, WriteAt(call, at, value));
            && RequestBody(e, after) == RequestBody(e, packet)
            && after[..front] == packet[..front]
            && (at + |value| <= |call| ==> ReadAt(AfterHeader(after, e.request), at, |value|) == value)
            && (at + |value| > |call| ==> after == packet)
            && ReadAt(AfterHeader(after, e.request), other, size) == ReadAt(call, other, size)
            && (Fencepost(AfterHeader(after, e.request)) == Fencepost(call) <==> SparesFencepost(call, at, value))
  {
    hide Patch, AfterHeader, ReadAt, WriteAt, Fencepost, CallBody, SparesFencepost;
    var call := AfterHeader(packet, e.request);
    HeaderEnds(packet, e.request);
    PutBack(packet, e.request, WriteAt(call, at, value));
    WriteInCall(call, e.call, at, value);
    WriteElsewhere(call, at, value, other, size);
    FencepostSpared(call, at, value);
  }

  lemma HeaderEnds(packet: seq<byte>, header: nat)
    ensures |AfterHeader(packet, header)| <= |packet|
    ensures AfterHeader(packet, header) == packet[|packet| - |AfterHeader(packet, header)|..]
  {
  }

  /** Another body of the same size behind a header. */
  lemma PutBack(packet: seq<byte>, header: nat, body: seq<byte>)
    requires |body| == |AfterHeader(packet, header)|
    ensures var front := |packet| - |body|; var after := Patch(packet, front, body);
            && AfterHeader(after, header) == body && after[..front] == packet[..front]
            && (body == AfterHeader(packet, header) ==> after == packet)
  {
    var front := |packet| - |body|;
    PatchSlices(packet, front, body);
    assert packet == packet[..front] + packet[front..];
  }

  lemma WriteInCall(call: seq<byte>, header: nat, at: nat, value: seq<byte>)
    requires at + |value| <= header
    ensures var written := WriteAt(call, at, value);
            && CallBody(written, header) == CallBody(call, header)
            && (at + |value| <= |call| ==> ReadAt(written, at, |value|) == value)
            && (at + |value| > |call| ==> written == call)
  {
    WriteElsewhere(call, at, value, header, if |call| >= header + FENCE then |call| - header - FENCE else 0);
  }

  lemma FencepostSpared(call: seq<byte>, at: nat, value: seq<byte>)
    ensures Fencepost(WriteAt(call, at, value)) == Fencepost(call) <==> SparesFencepost(call, at, value)
  {
    var written := WriteAt(call, at, value);
    if |call| >= FENCE && at + |value| <= |call| {
      var first := |call| - FENCE;
      assert Fencepost(written) == written[first..] && Fencepost(call) == call[first..];
      assert forall k :: at <= k < at + |value| ==> written[k] == value[k - at];
      assert forall k :: 0 <= k < |call| && !(at <= k < at + |value|) ==> written[k] == call[k];
      if Fencepost(written) == Fencepost(call) {
        forall k | at <= k < at + |value| && k >= first ensures value[k - at] == call[k] {
          assert written[first..][k - first] == call[first..][k - first];
        }
      }
    }
  }

  /** Round trip and non-interference through the nested views of a request. */
  lemma RequestRoundTrip(e: Envelope, v: View, packet: seq<byte>, i: nat, value: seq<byte>, j: nat)
    requires i < |v.fields| && (IsBlob(v, i) || |value| == v.abi.SizeOf(v.fields[i].ty))
    requires |packet| < v.abi.Max() && InRange(v, RequestBody(e, packet), i)
    requires j < |v.fields| && (forall k :: 0 <= k <= j ==> !Measures(v, i, k))
    ensures var after := RequestBody(e, SetInRequest(e, v, packet, i, value));
            Get(v, after, j) == if i == j then Fitted(value, Width(v, RequestBody(e, packet), i))
                                else Get(v, RequestBody(e, packet), j)
  {
    RequestSetterStaysInside(e, v, packet, i, value);
    if i == j {
      SetThenGet(v, RequestBody(e, packet), i, value);
    } else {
      SetLeavesOthers(v, RequestBody(e, packet), i, value, j);
    }
  }

  lemma ResponseRoundTrip(e: Envelope, v: View, packet: seq<byte>, i: nat, value: seq<byte>, j: nat)
    requires i < |v.fields| && (IsBlob(v, i) || |value| == v.abi.SizeOf(v.fields[i].ty))
    requires |packet| < v.abi.Max() && InRange(v, AfterHeader(packet, e.response), i)
    requires j < |v.fields| && (forall k :: 0 <= k <= j ==> !Measures(v, i, k))
    ensures var after := AfterHeader(SetInResponse(e, v, packet, i, value), e.response);
            Get(v, after, j) == if i == j then Fitted(value, Width(v, AfterHeader(packet, e.response), i))
                                else Get(v, AfterHeader(packet, e.response), j)
  {
    ResponseSetterStaysInside(e, v, packet, i, value);
    if i == j {
      SetThenGet(v, AfterHeader(packet, e.response), i, value);
    } else {
      SetLeavesOthers(v, AfterHeader(packet, e.response), i, value, j);
    }
  }

  // ---- the setters, in place ----

  /** A stretch of memory. */
  datatype Span = Span(data: array<byte>, start: nat, len: nat) {
    ghost predicate Valid() {
      start + len <= data.Length
    }

    ghost function Bytes(): (b: seq<byte>)
      requires Valid()
      reads data
      ensures |b| == len
    {
      data[start..start + len]
    }

    /** The emitted Slice on memory. */
    function Sub(offset: nat, size: nat): (s: Span)
      requires start + len <= data.Length
      ensures s.Valid() && s.data == data
      ensures s.len > 0 ==> s.start == start + offset && s.start + s.len <= start + len
    {
      if offset > len || size > len - offset then Span(data, start, 0) else Span(data, start + offset, size)
    }
  }

  /** The emitted Write. */
  method Write(s: Span, offset: nat, value: seq<byte>)
    requires s.Valid()
    modifies s.data
    ensures s.data[..] == Patch(old(s.data[..]), s.start, WriteAt(old(s.Bytes()), offset, value))
  {
    hide WriteAt, Patch;
    SpanBytes(s);
    PatchPart(s.data[..], s.start, s.len, offset, value);
    if offset <= s.len && |value| <= s.len - offset {
      MemCopy(s.data, s.start + offset, value);
    }
  }

  lemma SpanBytes(s: Span)
    requires s.Valid()
    ensures s.Bytes() == s.data[..][s.start..s.start + s.len]
  {
  }

  /** The emitted CopyBytes: copy what fits, clear the rest of the capacity. */
  method CopyBytes(s: Span, offset: nat, capacity: nat, value: seq<byte>) returns (ok: bool)
    requires s.Valid()
    modifies s.data
    ensures ok <==> capacity == 0 || offset + capacity <= s.len
    ensures s.data[..] == Patch(old(s.data[..]), s.start, WriteAt(old(s.Bytes()), offset, Fitted(value, capacity)))
  {
    hide WriteAt, Patch, Fitted, Span.Bytes;
    SpanBytes(s);
    PatchPart(s.data[..], s.start, s.len, offset, Fitted(value, capacity));
    var dst := s.Sub(offset, capacity);
    if dst.len != capacity {
      return false;
    }
    var count := if dst.len < |value| then dst.len else |value|;
    FittedParts(s.data[..], if capacity == 0 then s.start + offset else dst.start, value, count, capacity);
    if count > 0 {
      MemCopy(s.data, dst.start, value[..count]);
    }
    if count < dst.len {
      MemCopy(s.data, dst.start + count, Zeros(dst.len - count));
    }
    return true;
  }

  /** What the two halves of CopyBytes write is the fitted value. */
  lemma FittedParts(data: seq<byte>, at: nat, value: seq<byte>, count: nat, capacity: nat)
    requires count == if capacity < |value| then capacity else |value|
    ensures capacity == 0 && at <= |data| ==> Patch(data, at, Fitted(value, capacity)) == data
    ensures at + capacity <= |data| && 0 < count < capacity ==>
              Patch(Patch(data, at, value[..count]), at + count, Zeros(capacity - count)) ==
                Patch(data, at, Fitted(value, capacity))
    ensures count == capacity ==> value[..count] == Fitted(value, capacity)
    ensures count == 0 ==> Zeros(capacity) == Fitted(value, capacity)
  {
    assert value[..count] + Zeros(capacity - count) == Fitted(value, capacity);
    if at + capacity <= |data| {
      PatchTwice(data, at, value[..count], Zeros(capacity - count));
    }
  }

  /** The setter of field i of a request view over a packet that fills an array. */
  method SetRequestField(e: Envelope, v: View, packet: array<byte>, i: nat, value: seq<byte>) returns (ok: bool)
    requires i < |v.fields| && (IsBlob(v, i) || |value| == v.abi.SizeOf(v.fields[i].ty))
    modifies packet
    ensures packet[..] == SetInRequest(e, v, old(packet[..]), i, value)
    ensures var body := RequestBody(e, old(packet[..]));
            IsBlob(v, i) ==> (ok <==> Width(v, body, i) == 0 || InRange(v, body, i))
  {
    var request := Span(packet, 0, packet.Length);
    var call := request.Sub(e.request, if request.len >= e.request then request.len - e.request else 0);
    var body := call.Sub(e.call, if call.len >= e.call + FENCE then call.len - e.call - FENCE else 0);
    var bytes := packet[..][body.start..body.start + body.len];
    NestedSpans(e, packet, call, body);
    var offset := Offset(v, bytes, i);
    if IsBlob(v, i) {
      ok := CopyBytes(body, offset, Width(v, bytes, i), value);
    } else {
      ok := true;
      Write(body, offset, value);
    }
  }

  /** The spans of the nested views hold the bodies of the envelopes. */
  lemma NestedSpans(e: Envelope, packet: array<byte>, call: Span, body: Span)
    requires call == Span(packet, 0, packet.Length).Sub(
               e.request, if packet.Length >= e.request then packet.Length - e.request else 0)
    requires body == call.Sub(e.call, if call.len >= e.call + FENCE then call.len - e.call - FENCE else 0)
    ensures body.Bytes() == packet[..][body.start..body.start + body.len] == RequestBody(e, packet[..])
    ensures forall part: seq<byte> :: |part| == body.len ==>
              Patch(packet[..], body.start, part) == Patch(packet[..], BodyAt(e, packet[..]), part)
  {
    hide Patch, RequestBody;
    var p := packet[..];
    SpanBytes(body);
    EmptyPatch(p);
    if packet.Length >= e.request + e.call + FENCE {
      assert body == Span(packet, e.request + e.call, packet.Length - e.request - e.call - FENCE);
      BodyIsMiddle(e, p);
    } else {
      NoBody(e, p);
      assert body.len == 0;
    }
  }
}
