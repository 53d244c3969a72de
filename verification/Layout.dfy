/** What the emitted request and response accessors mean over a byte sequence: where each
    field lies, what its getter reads and what its setter leaves behind.  Offsets are
    saturating sums of sizes, and the size of a bytes field may be a number that another
    field of the same bytes holds. */
module Layout {
  import opened Bytes
  import opened Descriptions
  import opened Validation

  datatype Word = Word32 | Word64

  /** The target: its size_t and the sizes of the types a description names but does not define. */
  datatype Abi = Abi(word: Word, named: string -> nat) {
    function Max(): nat {
      if word == Word32 then 0xFFFF_FFFF else 0xFFFF_FFFF_FFFF_FFFF
    }

    function SizeOf(ty: string): nat {
      if ty in {"bool", "byte", "uint8", "int8"} then 1
      else if ty in {"uint16", "int16"} then 2
      else if ty in {"uint32", "int32"} then 4
      else if ty in {"uint64", "int64"} then 8
      else if ty == "size_t" then if word == Word32 then 4 else 8
      else named(ty)
    }
  }

  predicate IsSigned(ty: string) {
    ty in {"int8", "int16", "int32", "int64"}
  }

  /** A length as a size_t: a negative one counts as the largest, a wider one is truncated. */
  function ByteCount(abi: Abi, ty: string, value: seq<byte>): (n: nat)
    ensures n <= abi.Max()
  {
    if ty == "bool" then if FromLE(value) == 0 then 0 else 1
    else if IsSigned(ty) && value != [] && value[|value| - 1] >= 0x80 then abi.Max()
    else FromLE(value) % (abi.Max() + 1)
  }

  /** The numbers of an integral type. */
  predicate Represents(abi: Abi, ty: string, n: int) {
    if ty == "bool" then 0 <= n <= 1
    else if IsSigned(ty) then -0x80 * Pow256(abi.SizeOf(ty) - 1) <= n < 0x80 * Pow256(abi.SizeOf(ty) - 1)
    else 0 <= n < Pow256(abi.SizeOf(ty))
  }

  /** Such a number in memory, in two's complement. */
  function Stored(abi: Abi, ty: string, n: int): seq<byte>
    requires Represents(abi, ty, n)
  {
    ToLE(if n < 0 then n + Pow256(abi.SizeOf(ty)) else n, abi.SizeOf(ty))
  }

  lemma {:induction false} TopByte(value: seq<byte>)
    requires value != []
    ensures value[|value| - 1] >= 0x80 <==> FromLE(value) >= 0x80 * Pow256(|value| - 1)
  {
    if |value| == 1 {
      assert FromLE(value[1..]) == 0;
    } else {
      TopByte(value[1..]);
    }
  }

  /** A length counts as the number it is, unless it is negative or wider than a size_t. */
  lemma CountOfLength(abi: Abi, ty: string, n: int)
    requires IsIntegral(ty) && Represents(abi, ty, n)
    ensures ByteCount(abi, ty, Stored(abi, ty, n)) == if n < 0 then abi.Max() else n % (abi.Max() + 1)
  {
    var width := abi.SizeOf(ty);
    var stored := Stored(abi, ty, n);
    assert Pow256(width) == 0x100 * Pow256(width - 1);
    FromToLE(if n < 0 then n + Pow256(width) else n, width);
    TopByte(stored);
  }

  function Saturate(n: nat, max: nat): nat {
    if n <= max then n else max
  }

  function Total(ns: seq<nat>): nat {
    if ns == [] then 0 else Total(ns[..|ns| - 1]) + ns[|ns| - 1]
  }

  /** The emitted Sum: adds from the left and gives up at the first overflow. */
  method Sum(values: seq<nat>, max: nat) returns (result: nat)
    requires forall i :: 0 <= i < |values| ==> values[i] <= max
    ensures result == Saturate(Total(values), max)
  {
    result := 0;
    for i := 0 to |values|
      invariant result == Total(values[..i]) <= max
    {
      assert values[..i + 1][..i] == values[..i];
      if values[i] > max - result {
        TotalGrows(values, i + 1);
        return max;
      }
      result := result + values[i];
    }
    assert values[..|values|] == values;
  }

  lemma TotalGrows(ns: seq<nat>, i: nat)
    requires i <= |ns|
    ensures Total(ns[..i]) <= Total(ns)
    decreases |ns| - i
  {
    if i < |ns| {
      assert ns[..i + 1][..i] == ns[..i];
      TotalGrows(ns, i + 1);
    } else {
      assert ns[..i] == ns;
    }
  }

  // ---- views ----

  /** The fields of one direction of a method, and the lengths handed to the constructor
      of the view for references that name no field of it. */
  datatype RawView = View(abi: Abi, fields: seq<Field>, external: map<string, nat>)

  /** Does field i take its length from a field called like field j? */
  predicate Names(fields: seq<Field>, i: nat, j: nat)
    requires i < |fields| && j < |fields|
  {
    fields[i].lenRef != "" && fields[j].name == fields[i].lenRef
  }

  /** Validation makes every length precede its blob, so the accessors do not run in
      circles, and leaves at most one blob with a length. */
  predicate Grounded(v: RawView) {
    && (forall i, j :: 0 <= i < |v.fields| && 0 <= j < |v.fields| && Names(v.fields, i, j) ==>
          j < i && v.fields[j].ty != "bytes")
    && (forall i, j :: 0 <= i < j < |v.fields| ==> v.fields[i].lenRef == "" || v.fields[j].lenRef == "")
    && (forall i :: 0 <= i < |v.fields| ==> v.fields[i].lenRef != "" ==> v.fields[i].ty == "bytes")
    && (forall name :: name in v.external ==> v.external[name] <= v.abi.Max())
  }

  type View = v: RawView | Grounded(v) witness View(Abi(Word32, _ => 1), [], map[])

  /** The position of the first field of that name, or the number of fields. */
  function Find(fields: seq<Field>, name: string): (j: nat)
    ensures j <= |fields|
    ensures j < |fields| ==> fields[j].name == name
    ensures forall k :: 0 <= k < j ==> fields[k].name != name
  {
    if fields == [] then 0 else if fields[0].name == name then 0 else 1 + Find(fields[1..], name)
  }

  predicate IsBlob(v: View, i: nat)
    requires i < |v.fields|
  {
    v.fields[i].ty == "bytes"
  }

  /** How many bytes field i takes. */
  function Width(v: View, body: seq<byte>, i: nat): nat
    requires i < |v.fields|
    decreases i, 0
  {
    var f := v.fields[i];
    if !IsBlob(v, i) then v.abi.SizeOf(f.ty)
    else if f.lenRef == "" then 0
    else
      var j := Find(v.fields, f.lenRef);
      assert j < |v.fields| ==> Names(v.fields, i, j);
      if j < |v.fields| then
        ByteCount(v.abi, v.fields[j].ty, ReadAt(body, Offset(v, body, j), v.abi.SizeOf(v.fields[j].ty)))
      else if f.lenRef in v.external then v.external[f.lenRef]
      else 0
  }

  /** The sum of the widths before field i, were size_t unbounded. */
  function Extent(v: View, body: seq<byte>, i: nat): nat
    requires i <= |v.fields|
    decreases i, 1
  {
    if i == 0 then 0 else Extent(v, body, i - 1) + Width(v, body, i - 1)
  }

  /** The offset the emitted code computes for field i. */
  function Offset(v: View, body: seq<byte>, i: nat): nat
    requires i <= |v.fields|
    decreases i, 2
  {
    Saturate(Extent(v, body, i), v.abi.Max())
  }

  predicate Inside(b: seq<byte>, offset: nat, size: nat) {
    offset <= |b| && size <= |b| - offset
  }

  /** The emitted Read: the bytes of a value, or a zero value when it does not lie inside. */
  function ReadAt(b: seq<byte>, offset: nat, size: nat): (r: seq<byte>)
    ensures |r| == size
  {
    if Inside(b, offset, size) then b[offset..offset + size] else Zeros(size)
  }

  /** The emitted Slice. */
  function Slice(b: seq<byte>, offset: nat, size: nat): seq<byte> {
    if Inside(b, offset, size) then b[offset..offset + size] else []
  }

  /** The emitted Write: nothing happens when the value does not fit. */
  function WriteAt(b: seq<byte>, offset: nat, value: seq<byte>): (r: seq<byte>)
    ensures |r| == |b|
  {
    if Inside(b, offset, |value|) then b[..offset] + value + b[offset + |value|..] else b
  }

  /** A value cut off or padded with zeros to a capacity. */
  function Fitted(value: seq<byte>, capacity: nat): (r: seq<byte>)
    ensures |r| == capacity
  {
    if |value| >= capacity then value[..capacity] else value + Zeros(capacity - |value|)
  }

  lemma FittedIs(value: seq<byte>, capacity: nat)
    ensures forall k :: 0 <= k < capacity ==> Fitted(value, capacity)[k] == if k < |value| then value[k] else 0
  {
  }

  predicate InRange(v: View, body: seq<byte>, i: nat)
    requires i < |v.fields|
  {
    Inside(body, Offset(v, body, i), Width(v, body, i))
  }

  function Get(v: View, body: seq<byte>, i: nat): seq<byte>
    requires i < |v.fields|
  {
    if IsBlob(v, i) then Slice(body, Offset(v, body, i), Width(v, body, i))
    else ReadAt(body, Offset(v, body, i), v.abi.SizeOf(v.fields[i].ty))
  }

  /** The body after the setter of field i: Write for a value, CopyBytes for a blob. */
  function Set(v: View, body: seq<byte>, i: nat, value: seq<byte>): (r: seq<byte>)
    requires i < |v.fields| && (IsBlob(v, i) || |value| == v.abi.SizeOf(v.fields[i].ty))
    ensures |r| == |body|
  {
    WriteAt(body, Offset(v, body, i), if IsBlob(v, i) then Fitted(value, Width(v, body, i)) else value)
  }

  function BodySize(v: View, body: seq<byte>): nat {
    Offset(v, body, |v.fields|)
  }

  /** The emitted Fits. */
  predicate Fits(v: View, body: seq<byte>) {
    BodySize(v, body) != v.abi.Max() && |body| >= BodySize(v, body)
  }

  /** The offset is what the emitted Sum computes of the sizes in front. */
  lemma {:induction false} OffsetIsSum(v: View, body: seq<byte>, i: nat, sizes: seq<nat>)
    requires i == |sizes| <= |v.fields| && forall k :: 0 <= k < i ==> sizes[k] == Width(v, body, k)
    ensures Extent(v, body, i) == Total(sizes) && Offset(v, body, i) == Saturate(Total(sizes), v.abi.Max())
  {
    hide Width;
    if i > 0 {
      OffsetIsSum(v, body, i - 1, sizes[..i - 1]);
    }
  }

  // ---- the layout is sound ----

  lemma {:induction false} ExtentGrows(v: View, body: seq<byte>, i: nat, j: nat)
    requires i <= j <= |v.fields|
    ensures Extent(v, body, i) <= Extent(v, body, j)
    decreases j
  {
    if i < j {
      ExtentGrows(v, body, i, j - 1);
    }
  }

  /** If the whole fits, the fields lie end to end from the start of the body to its size,
      and the getters read exactly the bytes there. */
  lemma LayoutSound(v: View, body: seq<byte>)
    requires Fits(v, body)
    ensures Offset(v, body, 0) == 0 && Offset(v, body, |v.fields|) == BodySize(v, body) <= |body|
    ensures forall i :: 0 <= i < |v.fields| ==>
              && Offset(v, body, i + 1) == Offset(v, body, i) + Width(v, body, i) <= BodySize(v, body)
              && Get(v, body, i) == body[Offset(v, body, i)..Offset(v, body, i + 1)]
  {
    hide Get, Offset, Width, Fits, BodySize;
    WholeInside(v, body);
    forall i | 0 <= i < |v.fields|
      ensures Offset(v, body, i + 1) == Offset(v, body, i) + Width(v, body, i) <= BodySize(v, body)
      ensures Get(v, body, i) == body[Offset(v, body, i)..Offset(v, body, i + 1)]
    {
      FieldInside(v, body, i);
    }
  }

  lemma WholeInside(v: View, body: seq<byte>)
    requires Fits(v, body)
    ensures Offset(v, body, 0) == 0 && Offset(v, body, |v.fields|) == BodySize(v, body) <= |body|
  {
  }

  lemma FieldInside(v: View, body: seq<byte>, i: nat)
    requires Fits(v, body) && i < |v.fields|
    ensures Offset(v, body, i + 1) == Offset(v, body, i) + Width(v, body, i) <= BodySize(v, body) <= |body|
    ensures Get(v, body, i) == body[Offset(v, body, i)..Offset(v, body, i + 1)]
  {
    assert Extent(v, body, i + 1) == Extent(v, body, i) + Width(v, body, i);
    ExtentGrows(v, body, i + 1, |v.fields|);
    hide Extent, ByteCount, Find;
  }

  /** Hence no two fields share a byte ... */
  lemma FieldsDisjoint(v: View, body: seq<byte>, i: nat, j: nat)
    requires Fits(v, body) && i < j < |v.fields|
    ensures Offset(v, body, i) + Width(v, body, i) <= Offset(v, body, j)
  {
    LayoutSound(v, body);
    ExtentGrows(v, body, i + 1, j);
  }

  function AllFields(v: View, body: seq<byte>, n: nat): seq<byte>
    requires n <= |v.fields|
  {
    if n == 0 then [] else AllFields(v, body, n - 1) + Get(v, body, n - 1)
  }

  /** ... and the fields together are the body up to its size, byte for byte. */
  lemma {:induction false} FieldsCover(v: View, body: seq<byte>, n: nat)
    requires Fits(v, body) && n <= |v.fields|
    ensures Offset(v, body, n) <= |body| && AllFields(v, body, n) == body[..Offset(v, body, n)]
  {
    hide Get, Offset, Width, Fits;
    LayoutSound(v, body);
    if n > 0 {
      FieldsCover(v, body, n - 1);
      var a, b := Offset(v, body, n - 1), Offset(v, body, n);
      assert Get(v, body, n - 1) == body[a..b];
      assert body[..a] + body[a..b] == body[..b];
    }
  }

  // ---- setters do not interfere ----

  /** Is field i the one that holds the length of blob k? */
  predicate Measures(v: View, i: nat, k: nat)
    requires i < |v.fields| && k < |v.fields|
  {
    v.fields[k].lenRef != "" && Find(v.fields, v.fields[k].lenRef) == i
  }

  lemma WriteElsewhere(b: seq<byte>, offset: nat, value: seq<byte>, at: nat, size: nat)
    requires at + size <= offset || offset + |value| <= at
    ensures ReadAt(WriteAt(b, offset, value), at, size) == ReadAt(b, at, size)
    ensures Slice(WriteAt(b, offset, value), at, size) == Slice(b, at, size)
  {
    var w := WriteAt(b, offset, value);
    if Inside(b, at, size) {
      assert w[at..at + size] == b[at..at + size];
    }
  }

  /** Field j lies clear of field i when i lies inside the body. */
  lemma Clear(v: View, body: seq<byte>, i: nat, j: nat)
    requires i < |v.fields| && j < |v.fields| && i != j && |body| < v.abi.Max() && InRange(v, body, i)
    ensures || Offset(v, body, j) + Width(v, body, j) <= Offset(v, body, i)
            || Offset(v, body, i) + Width(v, body, i) <= Offset(v, body, j)
  {
    if j < i {
      ExtentGrows(v, body, j + 1, i);
    } else {
      ExtentGrows(v, body, i + 1, j);
    }
  }

  /** Setting field i moves no field up to the first blob that i measures. */
  lemma {:induction false} SetKeepsExtent(v: View, body: seq<byte>, i: nat, value: seq<byte>, j: nat)
    requires i < |v.fields| && (IsBlob(v, i) || |value| == v.abi.SizeOf(v.fields[i].ty))
    requires |body| < v.abi.Max() && InRange(v, body, i)
    requires j <= |v.fields| && forall k :: 0 <= k < j ==> !Measures(v, i, k)
    ensures Extent(v, Set(v, body, i, value), j) == Extent(v, body, j)
    decreases j
  {
    if j > 0 {
      SetKeepsExtent(v, body, i, value, j - 1);
      SetKeepsWidth(v, body, i, value, j - 1);
    }
  }

  lemma {:induction false} SetKeepsWidth(v: View, body: seq<byte>, i: nat, value: seq<byte>, k: nat)
    requires i < |v.fields| && (IsBlob(v, i) || |value| == v.abi.SizeOf(v.fields[i].ty))
    requires |body| < v.abi.Max() && InRange(v, body, i)
    requires k < |v.fields| && forall n :: 0 <= n <= k ==> !Measures(v, i, n)
    ensures Width(v, Set(v, body, i, value), k) == Width(v, body, k)
    decreases k, 0
  {
    if v.fields[k].lenRef != "" {
      var m := Find(v.fields, v.fields[k].lenRef);
      if m < |v.fields| {
        assert Names(v.fields, k, m) && !Measures(v, i, k);
        SetKeepsExtent(v, body, i, value, m);
        Clear(v, body, i, m);
        WriteElsewhere(body, Offset(v, body, i), if IsBlob(v, i) then Fitted(value, Width(v, body, i)) else value,
                       Offset(v, body, m), v.abi.SizeOf(v.fields[m].ty));
      }
    }
  }

  /** A field set inside the body is read back as set, a blob cut off or padded to size. */
  lemma SetThenGet(v: View, body: seq<byte>, i: nat, value: seq<byte>)
    requires i < |v.fields| && (IsBlob(v, i) || |value| == v.abi.SizeOf(v.fields[i].ty))
    requires |body| < v.abi.Max() && InRange(v, body, i)
    ensures Get(v, Set(v, body, i, value), i) == Fitted(value, Width(v, body, i))
  {
    forall k | 0 <= k <= i ensures !Measures(v, i, k) {
      assert Measures(v, i, k) ==> Names(v.fields, k, i);
    }
    SetKeepsExtent(v, body, i, value, i);
    SetKeepsWidth(v, body, i, value, i);
    var o, w := Offset(v, body, i), Width(v, body, i);
    var stored := if IsBlob(v, i) then Fitted(value, w) else value;
    assert Set(v, body, i, value)[o..o + w] == stored;
  }

  /** No other field changes or moves, except those from the blob on whose length was set;
      and that blob still starts where it did. */
  lemma SetLeavesOthers(v: View, body: seq<byte>, i: nat, value: seq<byte>, j: nat)
    requires i < |v.fields| && j < |v.fields| && i != j && (IsBlob(v, i) || |value| == v.abi.SizeOf(v.fields[i].ty))
    requires |body| < v.abi.Max() && forall k :: 0 <= k < j ==> !Measures(v, i, k)
    ensures Offset(v, Set(v, body, i, value), j) == Offset(v, body, j)
    ensures !Measures(v, i, j) ==>
              && Width(v, Set(v, body, i, value), j) == Width(v, body, j)
              && Get(v, Set(v, body, i, value), j) == Get(v, body, j)
  {
    if InRange(v, body, i) {
      SetKeepsExtent(v, body, i, value, j);
      if !Measures(v, i, j) {
        SetKeepsWidth(v, body, i, value, j);
        Clear(v, body, i, j);
        WriteElsewhere(body, Offset(v, body, i), if IsBlob(v, i) then Fitted(value, Width(v, body, i)) else value,
                       Offset(v, body, j), Width(v, body, j));
      }
    }
  }

  /** A setter whose field does not lie inside the body changes nothing. */
  lemma SetOutside(v: View, body: seq<byte>, i: nat, value: seq<byte>)
    requires i < |v.fields| && (IsBlob(v, i) || |value| == v.abi.SizeOf(v.fields[i].ty)) && !InRange(v, body, i)
    ensures Set(v, body, i, value) == body
  {
  }
}
