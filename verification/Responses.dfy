/** What the ok() of an emitted response view is worth.  It checks a minimum: every width but that
    of a blob whose length the body itself holds.  Here is exactly when that is enough, and what
    descriptions that compile can make of it. */
module Responses {
  import opened Bytes
  import opened Descriptions
  import opened Validation
  import opened Layout
  import opened Views
  import FrontEnd

  predicate SelfMeasured(v: View, i: nat)
    requires i < |v.fields|
  {
    IsBlob(v, i) && v.fields[i].lenRef != "" && Find(v.fields, v.fields[i].lenRef) < |v.fields|
  }

  /** The sum of the widths that ok() checks. */
  function MinimumWidths(v: View, body: seq<byte>, n: nat): nat
    requires n <= |v.fields|
  {
    if n == 0 then 0
    else MinimumWidths(v, body, n - 1) + if SelfMeasured(v, n - 1) then 0 else Width(v, body, n - 1)
  }

  /** ok() of an emitted response view. */
  predicate ResponseOk(e: Envelope, v: View, packet: seq<byte>) {
    var body := AfterHeader(packet, e.response);
    var size := Saturate(MinimumWidths(v, body, |v.fields|), v.abi.Max());
    |packet| >= e.response && size != v.abi.Max() && |body| >= size
  }

  predicate AllInRange(v: View, body: seq<byte>) {
    forall i :: 0 <= i < |v.fields| ==> InRange(v, body, i)
  }

  predicate NoneSelfMeasured(v: View) {
    forall k :: 0 <= k < |v.fields| ==> !SelfMeasured(v, k)
  }

  /** No self-measured blob is longer than what the body has beyond the minimum. */
  predicate BlobsFit(v: View, body: seq<byte>) {
    forall k :: 0 <= k < |v.fields| && SelfMeasured(v, k) ==>
                  MinimumWidths(v, body, |v.fields|) + Width(v, body, k) <= |body|
  }

  // ---- one packet ----

  /** There is at most one self-measured blob, and it is all the minimum leaves out. */
  lemma {:induction false} ExtentSplits(v: View, body: seq<byte>, k: nat, n: nat)
    requires k < |v.fields| && SelfMeasured(v, k) && n <= |v.fields|
    ensures Extent(v, body, n) == MinimumWidths(v, body, n) + if k < n then Width(v, body, k) else 0
    decreases n
  {
    hide Width;
    if n > 0 {
      ExtentSplits(v, body, k, n - 1);
    }
  }

  lemma {:induction false} ExtentIsMinimum(v: View, body: seq<byte>, n: nat)
    requires n <= |v.fields| && forall i :: 0 <= i < n ==> !SelfMeasured(v, i)
    ensures Extent(v, body, n) == MinimumWidths(v, body, n)
    decreases n
  {
    hide Width;
    if n > 0 {
      ExtentIsMinimum(v, body, n - 1);
    }
  }

  lemma AllInsideIsExtent(v: View, body: seq<byte>)
    requires |body| < v.abi.Max()
    ensures AllInRange(v, body) <==> Extent(v, body, |v.fields|) <= |body|
  {
    hide Width;
    var n := |v.fields|;
    if AllInRange(v, body) && n > 0 {
      assert InRange(v, body, n - 1);
    }
    if Extent(v, body, n) <= |body| {
      forall i | 0 <= i < n ensures InRange(v, body, i) {
        ExtentGrows(v, body, i + 1, n);
      }
    }
  }

  /** If a response view is ok, all its fields lie inside the body exactly if the self-measured
      blob, should there be one, is no longer than what the body has beyond the minimum. */
  lemma ResponseSound(e: Envelope, v: View, packet: seq<byte>)
    requires ResponseOk(e, v, packet) && |packet| < v.abi.Max()
    ensures var body := AfterHeader(packet, e.response);
            AllInRange(v, body) <==> BlobsFit(v, body)
  {
    var body, n := AfterHeader(packet, e.response), |v.fields|;
    AllInsideIsExtent(v, body);
    hide Extent, MinimumWidths, Width, AllInRange;
    if k :| 0 <= k < n && SelfMeasured(v, k) {
      ExtentSplits(v, body, k, n);
      OnlyOne(v, k);
    } else {
      ExtentIsMinimum(v, body, n);
    }
  }

  lemma OnlyOne(v: View, k: nat)
    requires k < |v.fields| && SelfMeasured(v, k)
    ensures forall i :: 0 <= i < |v.fields| && SelfMeasured(v, i) ==> i == k
  {
  }

  lemma {:induction false} MinimumGrows(v: View, body: seq<byte>, i: nat, n: nat)
    requires i <= n <= |v.fields|
    ensures MinimumWidths(v, body, i) <= MinimumWidths(v, body, n)
    decreases n
  {
    hide Width;
    if i < n {
      MinimumGrows(v, body, i, n - 1);
    }
  }

  /** A response view is ok exactly for the packets that hold the header and behind it as many bytes
      as all fields take together, without the self-measured blob if there is one. */
  lemma ResponseOkIs(e: Envelope, v: View, packet: seq<byte>)
    ensures NoneSelfMeasured(v) ==>
              (ResponseOk(e, v, packet) <==> |packet| >= e.response && Fits(v, packet[e.response..]))
    ensures forall k :: 0 <= k < |v.fields| && SelfMeasured(v, k) ==>
              (ResponseOk(e, v, packet) <==>
               && |packet| >= e.response
               && var body := packet[e.response..];
                  var size := Extent(v, body, |v.fields|) - Width(v, body, k);
                  size < v.abi.Max() && size <= |body|)
  {
    if |packet| >= e.response {
      var body := AfterHeader(packet, e.response);
      assert body == packet[e.response..];
      hide Extent, MinimumWidths, Width, SelfMeasured;
      if NoneSelfMeasured(v) {
        ExtentIsMinimum(v, body, |v.fields|);
      }
      forall k | 0 <= k < |v.fields| && SelfMeasured(v, k) {
        ExtentSplits(v, body, k, |v.fields|);
      }
    }
  }

  /** In any case every field in front of that blob lies inside, at its exact offset. */
  lemma FrontInside(e: Envelope, v: View, packet: seq<byte>, i: nat)
    requires ResponseOk(e, v, packet) && i < |v.fields| && |packet| < v.abi.Max()
    requires forall k :: 0 <= k <= i ==> !SelfMeasured(v, k)
    ensures var body := AfterHeader(packet, e.response);
            InRange(v, body, i) && Offset(v, body, i) == Extent(v, body, i)
  {
    var body := AfterHeader(packet, e.response);
    assert Extent(v, body, i + 1) == Extent(v, body, i) + Width(v, body, i);
    hide Extent, MinimumWidths, Width, SelfMeasured;
    MinimumGrows(v, body, i + 1, |v.fields|);
    ExtentIsMinimum(v, body, i + 1);
  }

  // ---- all packets ----

  /** What the static assertion of ByteCount demands of the emitted code. */
  predicate LengthsIntegral(v: View) {
    forall k :: 0 <= k < |v.fields| && SelfMeasured(v, k) ==>
      IsIntegral(v.fields[Find(v.fields, v.fields[k].lenRef)].ty)
  }

  /** The minimum does not depend on the body. */
  lemma {:induction false} MinimumSame(v: View, a: seq<byte>, b: seq<byte>, n: nat)
    requires n <= |v.fields|
    ensures MinimumWidths(v, a, n) == MinimumWidths(v, b, n)
  {
    if n > 0 {
      MinimumSame(v, a, b, n - 1);
      if !SelfMeasured(v, n - 1) {
        SameWidth(v, a, b, n - 1);
      }
    }
  }

  lemma SameWidth(v: View, a: seq<byte>, b: seq<byte>, i: nat)
    requires i < |v.fields| && !SelfMeasured(v, i)
    ensures Width(v, a, i) == Width(v, b, i)
  {
  }

  function Ones(n: nat): seq<byte> {
    seq(n, _ => 1)
  }

  /** The shortest packet of which ok() holds, with every byte set to one. */
  function ShortestPacket(e: Envelope, v: View): seq<byte> {
    Ones(e.response + MinimumWidths(v, [], |v.fields|))
  }

  lemma ShortestIsOk(e: Envelope, v: View)
    requires e.response + MinimumWidths(v, [], |v.fields|) < v.abi.Max()
    ensures var packet := ShortestPacket(e, v);
            && ResponseOk(e, v, packet) && |packet| < v.abi.Max()
            && AfterHeader(packet, e.response) == Ones(MinimumWidths(v, [], |v.fields|))
  {
    hide MinimumWidths;
    var packet, size := ShortestPacket(e, v), MinimumWidths(v, [], |v.fields|);
    assert AfterHeader(packet, e.response) == packet[e.response..] == Ones(size);
    MinimumSame(v, [], AfterHeader(packet, e.response), |v.fields|);
  }

  /** A length of which every byte is one is no zero length, in any integral type. */
  lemma OnesCount(abi: Abi, ty: string)
    requires IsIntegral(ty)
    ensures ByteCount(abi, ty, Ones(abi.SizeOf(ty))) > 0
  {
    var value := Ones(abi.SizeOf(ty));
    assert FromLE(value) == value[0] + 0x100 * FromLE(value[1..]);
    assert value[|value| - 1] == 1;
    LowByte(FromLE(value[1..]), abi);
  }

  lemma LowByte(high: nat, abi: Abi)
    ensures (1 + 0x100 * high) % (abi.Max() + 1) > 0
  {
    var m, n := abi.Max() + 1, 1 + 0x100 * high;
    assert n == n / m * m + n % m;
    if abi.word == Word32 {
      assert m == 0x100 * 0x100_0000;
      NotMultiple(high, n / m, 0x100_0000);
    } else {
      assert m == 0x100 * 0x100_0000_0000_0000;
      NotMultiple(high, n / m, 0x100_0000_0000_0000);
    }
  }

  lemma NotMultiple(high: nat, q: nat, m: nat)
    ensures 1 + 0x100 * high != q * (0x100 * m)
  {
    assert q * (0x100 * m) == 0x100 * (q * m);
  }

  /** In the shortest packet a self-measured blob has a length, and no room. */
  lemma ShortestHasLength(e: Envelope, v: View, k: nat)
    requires e.response + MinimumWidths(v, [], |v.fields|) < v.abi.Max() && LengthsIntegral(v)
    requires k < |v.fields| && SelfMeasured(v, k)
    ensures !BlobsFit(v, AfterHeader(ShortestPacket(e, v), e.response))
  {
    hide MinimumWidths, ResponseOk, ByteCount;
    var body := AfterHeader(ShortestPacket(e, v), e.response);
    var j := Find(v.fields, v.fields[k].lenRef);
    ShortestIsOk(e, v);
    assert Names(v.fields, k, j);
    OnlyOne(v, k);
    FrontInside(e, v, ShortestPacket(e, v), j);
    assert ReadAt(body, Offset(v, body, j), v.abi.SizeOf(v.fields[j].ty)) == Ones(v.abi.SizeOf(v.fields[j].ty));
    OnesCount(v.abi, v.fields[j].ty);
    MinimumSame(v, [], body, |v.fields|);
    assert Width(v, body, k) > 0;
  }

  /** The ok() of a view answers for all its fields, in every packet, exactly if none of them is
      measured by the body. */
  lemma OkIsEnough(e: Envelope, v: View)
    requires e.response + MinimumWidths(v, [], |v.fields|) < v.abi.Max() && LengthsIntegral(v)
    ensures NoneSelfMeasured(v) <==>
            forall packet :: |packet| < v.abi.Max() && ResponseOk(e, v, packet) ==>
              AllInRange(v, AfterHeader(packet, e.response))
  {
    hide MinimumWidths, ResponseOk, AllInRange, SelfMeasured;
    if NoneSelfMeasured(v) {
      forall packet | |packet| < v.abi.Max() && ResponseOk(e, v, packet)
        ensures AllInRange(v, AfterHeader(packet, e.response))
      {
        ResponseSound(e, v, packet);
      }
    } else {
      var k :| 0 <= k < |v.fields| && SelfMeasured(v, k);
      var packet := ShortestPacket(e, v);
      ShortestIsOk(e, v);
      ShortestHasLength(e, v, k);
      ResponseSound(e, v, packet);
    }
  }

  // ---- descriptions that compile ----

  /** The one method of a description with one interface. */
  function OnlyMethod(src: string): Method
    requires FrontEnd.Compiled(src).Some?
    requires |FrontEnd.Compiled(src).value.interfaces| == 1 && |FrontEnd.Compiled(src).value.interfaces[0].methods| == 1
  {
    FrontEnd.Compiled(src).value.interfaces[0].methods[0]
  }

  lemma ReaderParts(m: Method, length: Field, data: Dir)
    requires BareMethod(m) == BareMethod(FrontEnd.Reader(length, data))
    ensures m.retType == "bool" && |m.params| == 2
    ensures m.params[0] == length.(line := m.params[0].line)
    ensures m.params[1] == Field(data, "bytes", "data", length.name, m.params[1].line)
  {
    var r := FrontEnd.Reader(length, data);
    assert BareFields(m.params) == BareFields(r.params);
    assert BareFields(m.params)[0] == BareFields(r.params)[0] && BareFields(m.params)[1] == BareFields(r.params)[1];
  }

  /** A text that compiles, and an ok response of its method whose blob is not inside. */
  lemma OkWithFieldOutside(abi: Abi, e: Envelope) returns (src: string, packet: seq<byte>)
    requires e.response + 5 < abi.Max()
    ensures FrontEnd.Compiled(src).Some?
    ensures |FrontEnd.Compiled(src).value.interfaces| == 1 && |FrontEnd.Compiled(src).value.interfaces[0].methods| == 1
    ensures Grounded(Layout.View(abi, ResponseFields(OnlyMethod(src)), map[]))
    ensures ResponseOk(e, Layout.View(abi, ResponseFields(OnlyMethod(src)), map[]), packet)
    ensures !AllInRange(Layout.View(abi, ResponseFields(OnlyMethod(src)), map[]), AfterHeader(packet, e.response))
  {
    FrontEnd.WordsAreIdents();
    var length := Field(Dir.Out, "uint32", "size", "", 1);
    src := FrontEnd.ReaderCompiles(FrontEnd.UsualCall(), length, Dir.Out);
    var m := OnlyMethod(src);
    CompiledMethods(src, 0, 0);
    hide FrontEnd.Compiled;
    ReaderParts(m, length, Dir.Out);
    ResponseIsGrounded(abi, m, map[]);
    var v: View := Layout.View(abi, ResponseFields(m), map[]);
    OutsideOfReader(m, v);
    packet := ShortestPacket(e, v);
    hide MinimumWidths, ResponseOk, AllInRange;
    ShortestIsOk(e, v);
    ShortestHasLength(e, v, 2);
    ResponseSound(e, v, packet);
  }

  lemma OutsideOfReader(m: Method, v: View)
    requires m.retType == "bool" && |m.params| == 2 && v.fields == ResponseFields(m)
    requires m.params[0] == Field(Dir.Out, "uint32", "size", "", m.params[0].line)
    requires m.params[1] == Field(Dir.Out, "bytes", "data", "size", m.params[1].line)
    ensures |v.fields| == 3 && SelfMeasured(v, 2) && LengthsIntegral(v) && MinimumWidths(v, [], 3) == 5
  {
    var ps := m.params;
    assert ps[..1] == [ps[0]] && ps[..1][..0] == [];
    assert FieldsFor(ps[..1], Dir.Out) == [ps[0]];
    assert FieldsFor(ps, Dir.Out) == [ps[0], ps[1]];
    assert v.fields == [Field(Dir.In, "bool", "returnValue", "", 0), ps[0], ps[1]];
    assert Find(v.fields, "size") == 1;
    assert MinimumWidths(v, [], 1) == 1;
    assert MinimumWidths(v, [], 2) == 5;
  }

  /** A text that compiles whose output blob is measured by the return value, and one whose
      input blob is measured by an output. */
  lemma CaptureCompiles() returns (src: string)
    ensures FrontEnd.Compiled(src).Some?
    ensures |FrontEnd.Compiled(src).value.interfaces| == 1 && |FrontEnd.Compiled(src).value.interfaces[0].methods| == 1
    ensures var m := OnlyMethod(src);
            |m.params| == 2 && m.params[1].dir == Dir.Out && m.params[1].lenRef != ""
              && NameCaptured(m, m.params[1].lenRef)
  {
    FrontEnd.WordsAreIdents();
    var length := Field(Dir.In, "uint32", "returnValue", "", 1);
    src := FrontEnd.ReaderCompiles(FrontEnd.UsualCall(), length, Dir.Out);
    ReaderParts(OnlyMethod(src), length, Dir.Out);
  }

  lemma OutputLengthCompiles() returns (src: string)
    ensures FrontEnd.Compiled(src).Some?
    ensures |FrontEnd.Compiled(src).value.interfaces| == 1 && |FrontEnd.Compiled(src).value.interfaces[0].methods| == 1
    ensures var m := OnlyMethod(src);
            |m.params| == 2 && m.params[1].dir == Dir.In && m.params[1].lenRef != "" && NamesOutput(m, 1)
  {
    FrontEnd.WordsAreIdents();
    var length := Field(Dir.Out, "uint32", "size", "", 1);
    src := FrontEnd.ReaderCompiles(FrontEnd.UsualCall(), length, Dir.In);
    ReaderParts(OnlyMethod(src), length, Dir.In);
  }
}
