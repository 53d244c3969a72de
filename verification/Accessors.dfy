/** What the emitted accessors promise a caller, without the arithmetic that delivers it: how long
    a blob is, where a field stands, and that what a writer lays down end to end is read. */
module Accessors {
  import opened Bytes
  import opened Descriptions
  import opened Validation
  import opened Layout
  import opened Views

  // ---- numbers ----

  /** The integral types and their numbers. */
  lemma IntegralTypes(abi: Abi, ty: string, n: int)
    ensures IsIntegral(ty) && Represents(abi, ty, n) <==>
            || (ty == "bool" && 0 <= n <= 1)
            || (ty in {"byte", "uint8"} && 0 <= n < 0x100) || (ty == "int8" && -0x80 <= n < 0x80)
            || (ty == "uint16" && 0 <= n < 0x1_0000) || (ty == "int16" && -0x8000 <= n < 0x8000)
            || (ty == "uint32" && 0 <= n < 0x1_0000_0000) || (ty == "int32" && -0x8000_0000 <= n < 0x8000_0000)
            || (ty == "uint64" && 0 <= n < 0x1_0000_0000_0000_0000)
            || (ty == "int64" && -0x8000_0000_0000_0000 <= n < 0x8000_0000_0000_0000)
            || (ty == "size_t" && 0 <= n <= abi.Max())
    ensures abi.Max() == if abi.word == Word32 then 0xFFFF_FFFF else 0xFFFF_FFFF_FFFF_FFFF
    ensures abi.SizeOf("bool") == 1
  {
    Powers();
  }

  lemma Powers()
    ensures Pow256(1) == 0x100 && Pow256(2) == 0x1_0000 && Pow256(3) == 0x100_0000
    ensures Pow256(4) == 0x1_0000_0000 && Pow256(7) == 0x100_0000_0000_0000
    ensures Pow256(8) == 0x1_0000_0000_0000_0000
  {
    assert Pow256(4) == 0x100 * Pow256(3);
    assert Pow256(7) == 0x100 * (0x100 * (0x100 * Pow256(4)));
  }

  /** A number is stored as its residue, in as many bytes as its type has. */
  lemma StoredIs(abi: Abi, ty: string, n: int)
    requires IsIntegral(ty) && Represents(abi, ty, n)
    ensures |Stored(abi, ty, n)| == abi.SizeOf(ty)
    ensures FromLE(Stored(abi, ty, n)) == if n < 0 then n + Pow256(abi.SizeOf(ty)) else n
  {
    IntegralTypes(abi, ty, n);
    Powers();
    FromToLE(if n < 0 then n + Pow256(abi.SizeOf(ty)) else n, abi.SizeOf(ty));
  }

  // ---- one field ----

  /** The bytes from o on of which there are n, or what stands for them if there are not. */
  function Part(body: seq<byte>, o: nat, n: nat, otherwise: seq<byte>): seq<byte> {
    if o + n <= |body| then body[o..o + n] else otherwise
  }

  /** Fields follow one another from the start.  A value takes the size of its type; a blob takes
      exactly as many bytes as the length says that it refers to: the number that the first field
      of that name holds, if the view has one -- or else the number handed to the constructor.
      Without either it is empty.  What does not lie inside the body is read as nothing, or zero. */
  lemma BlobIsAsLongAsItsLength(v: View, body: seq<byte>, k: nat)
    requires k < |v.fields| && |body| < v.abi.Max()
    ensures Offset(v, body, 0) == 0
    ensures var f, o, next := v.fields[k], Offset(v, body, k), Offset(v, body, k + 1);
            if f.ty != "bytes" then
              Get(v, body, k) == Part(body, o, v.abi.SizeOf(f.ty), Zeros(v.abi.SizeOf(f.ty)))
              && next == Saturate(o + v.abi.SizeOf(f.ty), v.abi.Max())
            else if f.lenRef == "" then Get(v, body, k) == [] && next == o
            else
              && (forall j :: 0 <= j < |v.fields| && v.fields[j].name == f.lenRef && IsIntegral(v.fields[j].ty)
                              && (forall i :: 0 <= i < j ==> v.fields[i].name != f.lenRef) ==>
                    forall n :: Represents(v.abi, v.fields[j].ty, n)
                                && Get(v, body, j) == Stored(v.abi, v.fields[j].ty, n) ==>
                      var m := if n < 0 then v.abi.Max() else n % (v.abi.Max() + 1);
                      Get(v, body, k) == Part(body, o, m, []) && next == Saturate(o + m, v.abi.Max()))
              && ((forall i :: 0 <= i < |v.fields| ==> v.fields[i].name != f.lenRef) ==>
                    var m := if f.lenRef in v.external then v.external[f.lenRef] else 0;
                    Get(v, body, k) == Part(body, o, m, []) && next == Saturate(o + m, v.abi.Max()))
  {
    var f := v.fields[k];
    NextOffset(v, body, k);
    if f.ty == "bytes" && f.lenRef != "" {
      forall j, n | 0 <= j < |v.fields| && v.fields[j].name == f.lenRef && IsIntegral(v.fields[j].ty)
                    && (forall i :: 0 <= i < j ==> v.fields[i].name != f.lenRef)
                    && Represents(v.abi, v.fields[j].ty, n) && Get(v, body, j) == Stored(v.abi, v.fields[j].ty, n)
        ensures Width(v, body, k) == if n < 0 then v.abi.Max() else n % (v.abi.Max() + 1)
      {
        WidthFromField(v, body, k, j, n);
      }
    }
    hide Width, Represents, Stored, IsIntegral;
  }

  /** The width of a blob is the number in the field that its length names. */
  lemma WidthFromField(v: View, body: seq<byte>, k: nat, j: nat, n: int)
    requires k < |v.fields| && v.fields[k].ty == "bytes" && v.fields[k].lenRef != ""
    requires j < |v.fields| && v.fields[j].name == v.fields[k].lenRef && IsIntegral(v.fields[j].ty)
    requires forall i :: 0 <= i < j ==> v.fields[i].name != v.fields[k].lenRef
    requires Represents(v.abi, v.fields[j].ty, n) && Get(v, body, j) == Stored(v.abi, v.fields[j].ty, n)
    ensures Width(v, body, k) == if n < 0 then v.abi.Max() else n % (v.abi.Max() + 1)
  {
    assert Find(v.fields, v.fields[k].lenRef) == j && Names(v.fields, k, j);
    CountOfLength(v.abi, v.fields[j].ty, n);
    hide Represents, Stored, ByteCount, IsIntegral;
  }

  lemma NextOffset(v: View, body: seq<byte>, k: nat)
    requires k < |v.fields| && |body| < v.abi.Max()
    ensures Offset(v, body, k + 1) == Saturate(Offset(v, body, k) + Width(v, body, k), v.abi.Max())
    ensures IsBlob(v, k) ==> Get(v, body, k) == Part(body, Offset(v, body, k), Width(v, body, k), [])
    ensures !IsBlob(v, k) ==>
              Get(v, body, k) == Part(body, Offset(v, body, k), Width(v, body, k), Zeros(Width(v, body, k)))
  {
    assert Extent(v, body, k + 1) == Extent(v, body, k) + Width(v, body, k);
    assert !IsBlob(v, k) ==> Width(v, body, k) == v.abi.SizeOf(v.fields[k].ty);
    hide Extent, Width;
  }

  // ---- a whole body ----

  function Joined(parts: seq<seq<byte>>): seq<byte> {
    if parts == [] then [] else Joined(parts[..|parts| - 1]) + parts[|parts| - 1]
  }

  lemma {:induction false} JoinedSplit(parts: seq<seq<byte>>, i: nat)
    requires i < |parts|
    ensures |Joined(parts[..i])| + |parts[i]| <= |Joined(parts)|
    ensures Joined(parts)[|Joined(parts[..i])|..|Joined(parts[..i])| + |parts[i]|] == parts[i]
  {
    var front, last := parts[..|parts| - 1], parts[|parts| - 1];
    var a := |Joined(parts[..i])|;
    assert Joined(parts) == Joined(front) + last;
    if i < |parts| - 1 {
      JoinedSplit(front, i);
      assert front[..i] == parts[..i] && front[i] == parts[i];
      assert (Joined(front) + last)[a..a + |parts[i]|] == Joined(front)[a..a + |parts[i]|];
    } else {
      assert parts[..i] == front;
      assert (Joined(front) + last)[a..a + |last|] == last;
    }
  }

  /** Each part is as long as the accessors will take it to be. */
  ghost predicate LaidOut(v: View, parts: seq<seq<byte>>)
    requires |parts| == |v.fields|
  {
    && (forall i :: 0 <= i < |parts| && v.fields[i].ty != "bytes" ==> |parts[i]| == v.abi.SizeOf(v.fields[i].ty))
    && forall i :: 0 <= i < |parts| && v.fields[i].ty == "bytes" ==> BlobLaidOut(v, parts, i)
  }

  ghost predicate BlobLaidOut(v: View, parts: seq<seq<byte>>, i: nat)
    requires i < |parts| == |v.fields|
  {
    var ref := v.fields[i].lenRef;
    if ref == "" then parts[i] == []
    else if forall j :: 0 <= j < |parts| ==> v.fields[j].name != ref then
      ref in v.external && |parts[i]| == v.external[ref]
    else exists j :: 0 <= j < |parts| && HoldsLength(v, parts, j, ref, |parts[i]|)
  }

  /** Does part j hold that length under that name? */
  ghost predicate HoldsLength(v: View, parts: seq<seq<byte>>, j: nat, ref: string, n: nat)
    requires j < |parts| == |v.fields|
  {
    && v.fields[j].name == ref && (forall k :: 0 <= k < j ==> v.fields[k].name != ref)
    && IsIntegral(v.fields[j].ty) && Represents(v.abi, v.fields[j].ty, n)
    && parts[j] == Stored(v.abi, v.fields[j].ty, n)
  }

  lemma {:induction false} PartIsRead(v: View, parts: seq<seq<byte>>, tail: seq<byte>, i: nat)
    requires |parts| == |v.fields| && |Joined(parts)| + |tail| < v.abi.Max() && LaidOut(v, parts) && i < |parts|
    ensures var body := Joined(parts) + tail;
            && Extent(v, body, i) == |Joined(parts[..i])|
            && Extent(v, body, i + 1) == |Joined(parts[..i + 1])| <= |body|
            && Get(v, body, i) == parts[i]
    decreases i, 1
  {
    hide LaidOut, Width;
    var body := Joined(parts) + tail;
    assert parts[..i + 1][..i] == parts[..i];
    JoinedSplit(parts, i);
    if i > 0 {
      PartIsRead(v, parts, tail, i - 1);
      assert Extent(v, body, i) == |Joined(parts[..i])|;
    } else {
      assert Extent(v, body, 0) == 0 && parts[..0] == [];
    }
    PartWidth(v, parts, tail, i);
    PartAt(v, parts, tail, i);
  }

  lemma PartAt(v: View, parts: seq<seq<byte>>, tail: seq<byte>, i: nat)
    requires i < |parts| == |v.fields| && |Joined(parts)| + |tail| < v.abi.Max()
    requires var body := Joined(parts) + tail;
             Extent(v, body, i) == |Joined(parts[..i])| && Width(v, body, i) == |parts[i]|
    ensures Get(v, Joined(parts) + tail, i) == parts[i]
  {
    var body, o := Joined(parts) + tail, |Joined(parts[..i])|;
    JoinedSplit(parts, i);
    NextOffset(v, body, i);
    hide Width, Get, Joined;
    assert body[o..o + |parts[i]|] == Joined(parts)[o..o + |parts[i]|] == parts[i];
  }

  lemma {:induction false} PartWidth(v: View, parts: seq<seq<byte>>, tail: seq<byte>, i: nat)
    requires |parts| == |v.fields| && |Joined(parts)| + |tail| < v.abi.Max() && LaidOut(v, parts) && i < |parts|
    ensures Width(v, Joined(parts) + tail, i) == |parts[i]|
    decreases i, 0
  {
    hide LaidOut, Joined, Get, Width, HoldsLength;
    if v.fields[i].ty != "bytes" || v.fields[i].lenRef == "" {
      NoLengthNeeded(v, parts, Joined(parts) + tail, i);
    } else {
      var j := LengthHeld(v, parts, i);
      if j == i {
        NoneHolds(v, Joined(parts) + tail, i);
      } else {
        PartIsRead(v, parts, tail, j);
        JoinedSplit(parts, i);
        LengthFromField(v, parts, Joined(parts) + tail, i, j);
      }
    }
  }

  lemma NoLengthNeeded(v: View, parts: seq<seq<byte>>, body: seq<byte>, i: nat)
    requires |parts| == |v.fields| && LaidOut(v, parts) && i < |parts|
    requires v.fields[i].ty != "bytes" || v.fields[i].lenRef == ""
    ensures Width(v, body, i) == |parts[i]|
  {
    assert v.fields[i].ty == "bytes" ==> BlobLaidOut(v, parts, i);
  }

  /** Where the length of blob i is held, in front of it; i itself if the constructor has it. */
  lemma LengthHeld(v: View, parts: seq<seq<byte>>, i: nat) returns (j: nat)
    requires |parts| == |v.fields| && LaidOut(v, parts) && i < |parts|
    requires v.fields[i].ty == "bytes" && v.fields[i].lenRef != ""
    ensures j <= i && (j < i ==> HoldsLength(v, parts, j, v.fields[i].lenRef, |parts[i]|))
    ensures j == i ==>
              && (forall k :: 0 <= k < |parts| ==> v.fields[k].name != v.fields[i].lenRef)
              && v.fields[i].lenRef in v.external && |parts[i]| == v.external[v.fields[i].lenRef]
  {
    assert BlobLaidOut(v, parts, i);
    var ref := v.fields[i].lenRef;
    if forall k :: 0 <= k < |parts| ==> v.fields[k].name != ref {
      j := i;
    } else {
      j :| 0 <= j < |parts| && HoldsLength(v, parts, j, ref, |parts[i]|);
      assert Names(v.fields, i, j);
    }
  }

  lemma LengthFromField(v: View, parts: seq<seq<byte>>, body: seq<byte>, i: nat, j: nat)
    requires j < i < |parts| == |v.fields| && HoldsLength(v, parts, j, v.fields[i].lenRef, |parts[i]|)
    requires v.fields[i].ty == "bytes" && v.fields[i].lenRef != ""
    requires Get(v, body, j) == parts[j] && |parts[i]| < v.abi.Max()
    ensures Width(v, body, i) == |parts[i]|
  {
    hide Width, Get, Represents, Stored;
    WidthFromField(v, body, i, j, |parts[i]|);
  }

  lemma NoneHolds(v: View, body: seq<byte>, k: nat)
    requires k < |v.fields| && v.fields[k].ty == "bytes" && v.fields[k].lenRef in v.external && v.fields[k].lenRef != ""
    requires forall j :: 0 <= j < |v.fields| ==> v.fields[j].name != v.fields[k].lenRef
    ensures Width(v, body, k) == v.external[v.fields[k].lenRef]
  {
  }

  /** What a writer lays down end to end -- values of their size, blobs of the length that the field
      in front of them says, or that the constructor is handed -- is a body that fits, in which
      every accessor reads its part, and finds it behind the parts in front of it. */
  lemma WrittenIsRead(v: View, parts: seq<seq<byte>>, tail: seq<byte>)
    requires |parts| == |v.fields| && |Joined(parts)| + |tail| < v.abi.Max()
    requires forall i :: 0 <= i < |parts| && v.fields[i].ty != "bytes" ==> |parts[i]| == v.abi.SizeOf(v.fields[i].ty)
    requires forall i :: 0 <= i < |parts| && v.fields[i].ty == "bytes" ==>
               var ref := v.fields[i].lenRef;
               if ref == "" then parts[i] == []
               else if forall j :: 0 <= j < |parts| ==> v.fields[j].name != ref then
                 ref in v.external && |parts[i]| == v.external[ref]
               else
                 exists j :: && 0 <= j < |parts| && v.fields[j].name == ref
                             && (forall k :: 0 <= k < j ==> v.fields[k].name != ref)
                             && IsIntegral(v.fields[j].ty) && Represents(v.abi, v.fields[j].ty, |parts[i]|)
                             && parts[j] == Stored(v.abi, v.fields[j].ty, |parts[i]|)
    ensures var body := Joined(parts) + tail;
            && Fits(v, body) && BodySize(v, body) == |Joined(parts)|
            && forall i :: 0 <= i < |parts| ==>
                 Get(v, body, i) == parts[i] && Offset(v, body, i) == |Joined(parts[..i])|
  {
    hide Width, Stored, Represents, IsIntegral, Joined;
    var body, n := Joined(parts) + tail, |parts|;
    forall i | 0 <= i < n && v.fields[i].ty == "bytes" ensures BlobLaidOut(v, parts, i) {
      var ref := v.fields[i].lenRef;
      if j :| && 0 <= j < |parts| && v.fields[j].name == ref
              && (forall k :: 0 <= k < j ==> v.fields[k].name != ref)
              && IsIntegral(v.fields[j].ty) && Represents(v.abi, v.fields[j].ty, |parts[i]|)
              && parts[j] == Stored(v.abi, v.fields[j].ty, |parts[i]|)
      {
        assert HoldsLength(v, parts, j, ref, |parts[i]|);
      }
    }
    AllRead(v, parts, tail);
  }

  lemma AllRead(v: View, parts: seq<seq<byte>>, tail: seq<byte>)
    requires |parts| == |v.fields| && |Joined(parts)| + |tail| < v.abi.Max() && LaidOut(v, parts)
    ensures var body := Joined(parts) + tail;
            && Fits(v, body) && BodySize(v, body) == |Joined(parts)|
            && forall i :: 0 <= i < |parts| ==>
                 Get(v, body, i) == parts[i] && Offset(v, body, i) == |Joined(parts[..i])|
  {
    hide LaidOut, Width, Get;
    var body, n := Joined(parts) + tail, |parts|;
    forall i | 0 <= i < n
      ensures Get(v, body, i) == parts[i] && Offset(v, body, i) == |Joined(parts[..i])|
    {
      PartIsRead(v, parts, tail, i);
    }
    assert parts[..n] == parts;
    if n > 0 {
      PartIsRead(v, parts, tail, n - 1);
    }
  }

  // ---- the blobs of a method ----

  /** Blob k is as long as the number that field p of the view holds. */
  ghost predicate AsLongAs(v: View, body: seq<byte>, k: nat, p: nat)
    requires k < |v.fields| && p < |v.fields|
  {
    forall n :: Represents(v.abi, v.fields[p].ty, n) && Get(v, body, p) == Stored(v.abi, v.fields[p].ty, n) ==>
                  var m := if n < 0 then v.abi.Max() else n % (v.abi.Max() + 1);
                  Get(v, body, k) == Part(body, Offset(v, body, k), m, [])
  }

  /** In the response of an accepted method the blob that parameter i describes is as long as the
      earlier parameter that it names: an input is handed to the constructor, an output stands in
      front of it.  Where the return value captures the name, it is the return value instead. */
  lemma ResponseBlob(abi: Abi, m: Method, external: map<string, nat>, i: nat, k: nat, body: seq<byte>)
    requires MethodWritable(m) && MethodAccepted(m) && !CapturesBytes(m) && |body| < abi.Max()
    requires forall name :: name in external ==> external[name] <= abi.Max()
    requires forall ref :: ref in ExternalRefs(ResponseFields(m)) ==> ref in external
    requires i < |m.params| && m.params[i].lenRef != ""
    requires k < |ResponseFields(m)| && ResponseFields(m)[k] == m.params[i]
    ensures Grounded(View(abi, ResponseFields(m), external))
    ensures var v: View := View(abi, ResponseFields(m), external);
            var fs, ref := v.fields, m.params[i].lenRef;
            if m.retType != "void" && ref == "returnValue" then
              IsIntegral(m.retType) ==> AsLongAs(v, body, k, 0)
            else
              exists j :: 0 <= j < i && m.params[j].name == ref && IsIntegral(m.params[j].ty)
                          && if m.params[j].dir == Dir.In then
                               ref in external && Get(v, body, k) == Part(body, Offset(v, body, k), external[ref], [])
                             else
                               exists p :: 0 <= p < k && fs[p] == m.params[j] && AsLongAs(v, body, k, p)
  {
    hide Get, Offset, IsIntegral, Represents, Stored, Part, ExternalRefs, AsLongAs, Find, ResponseFields;
    ResponseIsGrounded(abi, m, external);
    var v: View := View(abi, ResponseFields(m), external);
    OutputBlob(m, i, k);
    var fs, ref := v.fields, m.params[i].lenRef;
    if m.retType != "void" && ref == "returnValue" {
      ReturnIsFirst(m);
      if IsIntegral(m.retType) {
        NamedField(v, body, k, 0);
      }
    } else {
      LengthComesFromParameter(m, i);
      var j :| 0 <= j < i && SuppliedBy(m, ref, j);
      ParameterIsIntegral(m, i, j);
      if m.params[j].dir == Dir.In {
        HandedOver(v, body, k);
      } else {
        NamedField(v, body, k, Find(fs, ref));
      }
    }
  }

  lemma OutputBlob(m: Method, i: nat, k: nat)
    requires MethodWritable(m) && i < |m.params| && m.params[i].lenRef != ""
    requires k < |ResponseFields(m)| && ResponseFields(m)[k] == m.params[i]
    ensures m.params[i].ty == "bytes" && m.params[i].dir == Dir.Out
  {
    assert FieldWritable(m.params[i], true);
    ResponseOrigins(m);
  }

  lemma ReturnIsFirst(m: Method)
    requires m.retType != "void"
    ensures |ResponseFields(m)| > 0 && ResponseFields(m)[0].ty == m.retType
    ensures Find(ResponseFields(m), "returnValue") == 0
  {
  }

  lemma ParameterIsIntegral(m: Method, i: nat, j: nat)
    requires MethodWritable(m) && MethodAccepted(m) && j < i < |m.params| && m.params[i].lenRef != ""
    requires m.params[j].name == m.params[i].lenRef
    ensures IsIntegral(m.params[j].ty)
  {
    hide FieldWritable, IsIntegral, OneBlobEach;
    assert LengthResolves(m.params, i);
  }

  lemma NamedField(v: View, body: seq<byte>, k: nat, p: nat)
    requires k < |v.fields| && v.fields[k].ty == "bytes" && v.fields[k].lenRef != "" && |body| < v.abi.Max()
    requires p < |v.fields| && Find(v.fields, v.fields[k].lenRef) == p && IsIntegral(v.fields[p].ty)
    ensures p < k && AsLongAs(v, body, k, p)
  {
    assert Names(v.fields, k, p);
    hide Get, Offset, Represents, Stored, Part, IsIntegral;
    BlobIsAsLongAsItsLength(v, body, k);
  }

  lemma HandedOver(v: View, body: seq<byte>, k: nat)
    requires k < |v.fields| && v.fields[k].ty == "bytes" && v.fields[k].lenRef != "" && |body| < v.abi.Max()
    requires Find(v.fields, v.fields[k].lenRef) == |v.fields| && v.fields[k].lenRef in v.external
    ensures Get(v, body, k) == Part(body, Offset(v, body, k), v.external[v.fields[k].lenRef], [])
  {
    hide Get, Offset, Represents, Stored, Part, IsIntegral;
    BlobIsAsLongAsItsLength(v, body, k);
  }

  /** In a request the blob is as long as the earlier input that it names, and empty if it names
      an output. */
  lemma RequestBlob(abi: Abi, m: Method, i: nat, k: nat, body: seq<byte>)
    requires MethodWritable(m) && MethodAccepted(m) && |body| < abi.Max() && i < |m.params| && m.params[i].lenRef != ""
    requires k < |RequestFields(m)| && RequestFields(m)[k] == m.params[i] && m.params[i].dir == Dir.In
    ensures Grounded(View(abi, RequestFields(m), map[]))
    ensures var v: View := View(abi, RequestFields(m), map[]);
            exists j :: 0 <= j < i && m.params[j].name == m.params[i].lenRef && IsIntegral(m.params[j].ty)
                        && if m.params[j].dir == Dir.Out then Get(v, body, k) == []
                           else exists p :: 0 <= p < k && v.fields[p] == m.params[j] && AsLongAs(v, body, k, p)
  {
    hide Get, Offset, IsIntegral, Represents, Stored, Part, AsLongAs, Find, RequestFields;
    RequestIsGrounded(abi, m);
    var v: View := View(abi, RequestFields(m), map[]);
    assert m.params[i].ty == "bytes" by {
      assert FieldWritable(m.params[i], true);
    }
    var j := NamedParameter(m, i);
    ParameterIsIntegral(m, i, j);
    if m.params[j].dir == Dir.Out {
      Views.NoLength(v, body, k);
    } else {
      NamedField(v, body, k, Find(v.fields, m.params[i].lenRef));
    }
  }
}
