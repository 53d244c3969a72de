/** Two readers of src/Hook/Hooks_NetPacket.cpp that loop over a position in a buffer: the
    varint field finder for protobuf messages and the walker over binary key-value trees.
    Each is proved to undo the serialisation it is for. */
module WireReaders {
  import opened Outcomes
  import opened Bytes

  const TWO32 := 0x1_0000_0000
  const TWO64 := 0x1_0000_0000_0000_0000

  function Pow2(n: nat): nat {
    if n == 0 then 1 else 2 * Pow2(n - 1)
  }

  predicate StandsAt(d: seq<byte>, pos: nat, s: seq<byte>) {
    pos + |s| <= |d| && d[pos..pos + |s|] == s
  }

  lemma StandsSplit(d: seq<byte>, pos: nat, a: seq<byte>, b: seq<byte>)
    requires StandsAt(d, pos, a + b)
    ensures StandsAt(d, pos, a) && StandsAt(d, pos + |a|, b)
  {
    var ab := d[pos..pos + |a + b|];
    assert d[pos..pos + |a|] == ab[..|a|] && d[pos + |a|..pos + |a| + |b|] == ab[|a|..];
  }

  // ---- varints ----

  /** The base 128 varint encoding of a number, as in section "Base 128 Varints" of the
      Protocol Buffers Encoding specification. */
  function EncodeVarint(n: nat): (b: seq<byte>)
    ensures b != []
  {
    if n < 0x80 then [n] else [n % 0x80 + 0x80] + EncodeVarint(n / 0x80)
  }

  /** What ReadVarint makes of the bytes from pos on, with the groups below shift read into
      out: the number, modulo 2 to the 64th, and the position behind it. */
  function Varint(d: seq<byte>, pos: nat, shift: nat, out: nat): Option<(nat, nat)>
    requires pos <= |d|
    decreases |d| - pos
  {
    if pos == |d| then None
    else
      var sum := (out + (d[pos] % 0x80) * Pow2(shift)) % TWO64;
      if d[pos] < 0x80 then Some((sum, pos + 1))
      else if shift + 7 >= 64 then None
      else Varint(d, pos + 1, shift + 7, sum)
  }

  lemma VarintAdvances(d: seq<byte>, pos: nat, shift: nat, out: nat)
    requires pos <= |d| && Varint(d, pos, shift, out).Some?
    ensures pos < Varint(d, pos, shift, out).value.1 <= |d|
    decreases |d| - pos
  {
  }

  lemma VarintBelow(d: seq<byte>, pos: nat, shift: nat, out: nat)
    requires pos <= |d| && Varint(d, pos, shift, out).Some?
    ensures Varint(d, pos, shift, out).value.0 < TWO64
    decreases |d| - pos
  {
  }

  /** The groups occupy disjoint bits, so the bitwise or of the original is an addition. */
  method ReadVarint(d: seq<byte>, start: nat) returns (r: Option<(nat, nat)>)
    requires start <= |d|
    ensures r == Varint(d, start, 0, 0)
  {
    var pos: nat, out: nat, shift: nat := start, 0, 0;
    while pos < |d|
      invariant start <= pos <= |d|
      invariant Varint(d, pos, shift, out) == Varint(d, start, 0, 0)
    {
      var b := d[pos];
      pos := pos + 1;
      out := (out + (b % 0x80) * Pow2(shift)) % TWO64;
      if b < 0x80 {
        return Some((out, pos));
      }
      shift := shift + 7;
      if shift >= 64 {
        return None;
      }
    }
    return None;
  }

  lemma Pow2Adds(a: nat, b: nat)
    ensures Pow2(a + b) == Pow2(a) * Pow2(b)
    decreases a
  {
    if a > 0 {
      Pow2Adds(a - 1, b);
    }
  }

  lemma Pow2Seven(shift: nat)
    ensures Pow2(shift + 7) == 0x80 * Pow2(shift)
  {
    assert Pow2(shift + 7) == 2 * Pow2(shift + 6) == 4 * Pow2(shift + 5) == 8 * Pow2(shift + 4);
    assert Pow2(shift + 4) == 2 * Pow2(shift + 3) == 4 * Pow2(shift + 2) == 8 * Pow2(shift + 1);
  }

  /** Reading one group that is not the last. */
  lemma VarintStep(d: seq<byte>, pos: nat, shift: nat, out: nat)
    requires pos < |d| && d[pos] >= 0x80 && shift + 7 < 64 && out + (d[pos] % 0x80) * Pow2(shift) < TWO64
    ensures Varint(d, pos, shift, out) == Varint(d, pos + 1, shift + 7, out + (d[pos] % 0x80) * Pow2(shift))
  {
    hide Pow2;
    SmallRemainder(out + (d[pos] % 0x80) * Pow2(shift));
  }

  lemma SmallRemainder(n: nat)
    requires n < TWO64
    ensures n % TWO64 == n
  {
  }

  /** A number shifted is its higher groups shifted further and its lowest group shifted. */
  lemma GroupSum(n: nat, shift: nat)
    ensures var high, low := (n / 0x80) * Pow2(shift + 7), (n % 0x80) * Pow2(shift);
            n * Pow2(shift) == high + low && high >= 0 && low >= 0
  {
    var p := Pow2(shift);
    Pow2Seven(shift);
    assert n == (n / 0x80) * 0x80 + n % 0x80;
    assert ((n / 0x80) * 0x80) * p == (n / 0x80) * (0x80 * p);
  }

  /** Reading undoes encoding: the groups from shift on of a number that fits in 64 bits. */
  lemma {:induction false} VarintDecodes(d: seq<byte>, pos: nat, n: nat, shift: nat, out: nat)
    requires StandsAt(d, pos, EncodeVarint(n))
    requires out + n * Pow2(shift) < TWO64 && shift % 7 == 0 && shift < 64
    ensures Varint(d, pos, shift, out) == Some((out + n * Pow2(shift), pos + |EncodeVarint(n)|))
    decreases n
  {
    hide Pow2;
    var e := EncodeVarint(n);
    assert d[pos] == d[pos..pos + |e|][0] == e[0];
    if n >= 0x80 {
      hide Varint;
      GroupSum(n, shift);
      StandsSplit(d, pos, [e[0]], EncodeVarint(n / 0x80));
      ShiftFits(n / 0x80, shift);
      VarintStep(d, pos, shift, out);
      VarintDecodes(d, pos + 1, n / 0x80, shift + 7, out + (n % 0x80) * Pow2(shift));
    } else {
      assert n % 0x80 == n && d[pos] == n;
      SmallRemainder(out + n * Pow2(shift));
    }
  }

  /** A number with a group left above shift leaves room for that group in 64 bits. */
  lemma ShiftFits(high: nat, shift: nat)
    requires high >= 1 && high * Pow2(shift + 7) < TWO64 && shift % 7 == 0 && shift < 64
    ensures shift + 7 < 64
  {
    Pow2Is63();
    Pow2Seven(shift);
    Bigger(high, Pow2(shift + 7));
  }

  lemma Pow2Is63()
    ensures Pow2(63) == 0x8000_0000_0000_0000
  {
    Pow2Adds(31, 32);
    assert Pow2(8) == 0x100;
    Pow2Adds(8, 8);
    Pow2Adds(16, 16);
    assert Pow2(32) == 2 * Pow2(31);
  }

  lemma Bigger(high: nat, m: nat)
    requires high >= 1
    ensures high * m >= m
  {
  }

  /** The number that groups of seven bits spell, the lowest first. */
  function Groups(b: seq<byte>): nat {
    if b == [] then 0 else b[0] % 0x80 + 0x80 * Groups(b[1..])
  }

  /** What is read of any bytes: up to and with the first whose highest bit is clear, if there is
      one among the first ten; then the number is that of the groups, in 64 bits. */
  lemma VarintIs(d: seq<byte>, pos: nat)
    requires pos <= |d|
    ensures var v := Varint(d, pos, 0, 0);
            if v.None? then forall i :: pos <= i < |d| && i < pos + 10 ==> d[i] >= 0x80
            else
              var n, end := v.value.0, v.value.1;
              && pos < end <= |d| && end <= pos + 10 && d[end - 1] < 0x80
              && (forall i :: pos <= i < end - 1 ==> d[i] >= 0x80)
              && n == Groups(d[pos..end]) % 0x1_0000_0000_0000_0000
  {
    GroupsRead(d, pos, 0, 0);
    if Varint(d, pos, 0, 0).Some? {
      var b := d[pos..Varint(d, pos, 0, 0).value.1];
      assert Pow2(7 * 0) == 1;
    }
  }

  lemma {:induction false} GroupsRead(d: seq<byte>, pos: nat, k: nat, out: nat)
    requires pos <= |d| && k < 10
    ensures var v := Varint(d, pos, 7 * k, out);
            if v.None? then forall i :: pos <= i < |d| && i < pos + 10 - k ==> d[i] >= 0x80
            else
              var n, end := v.value.0, v.value.1;
              && pos < end <= |d| && end <= pos + 10 - k && d[end - 1] < 0x80
              && (forall i :: pos <= i < end - 1 ==> d[i] >= 0x80)
              && n == (out + Groups(d[pos..end]) * Pow2(7 * k)) % TWO64
    decreases |d| - pos
  {
    hide Pow2;
    if pos < |d| {
      var p, low := Pow2(7 * k), d[pos] % 0x80;
      var sum := (out + low * p) % TWO64;
      if d[pos] < 0x80 {
        assert d[pos..pos + 1] == [d[pos]] && Groups([d[pos]]) == low + 0x80 * Groups([]);
      } else if k < 9 {
        GroupsRead(d, pos + 1, k + 1, sum);
        var rest := Varint(d, pos + 1, 7 * (k + 1), sum);
        if rest.Some? {
          var b := d[pos..rest.value.1];
          assert b[0] == d[pos] && b[1..] == d[pos + 1..rest.value.1];
          Pow2Seven(7 * k);
          NextGroup(out, low, Groups(b[1..]), p);
        }
      }
    }
  }

  lemma NextGroup(out: nat, low: nat, high: nat, p: nat)
    ensures ((out + low * p) % TWO64 + high * (0x80 * p)) % TWO64 == (out + (low + 0x80 * high) * p) % TWO64
  {
    assert (low + 0x80 * high) * p == low * p + high * (0x80 * p);
    AddInside(out + low * p, high * (0x80 * p), TWO64);
  }

  lemma AddInside(a: nat, b: nat, m: nat)
    requires m > 0
    ensures (a % m + b) % m == (a + b) % m
  {
    var q := a / m;
    assert a + b == q * m + (a % m + b);
    AddMultiple(a % m + b, q, m);
  }

  lemma {:induction false} AddMultiple(a: nat, q: nat, m: nat)
    requires m > 0
    ensures (q * m + a) % m == a % m
  {
    if q > 0 {
      AddMultiple(a, q - 1, m);
      assert q * m + a == (q - 1) * m + a + m;
      AddOnce((q - 1) * m + a, m);
    }
  }

  lemma AddOnce(a: nat, m: nat)
    requires m > 0
    ensures (a + m) % m == a % m
  {
    var x, y := (a + m) % m, a % m;
    assert a + m == (a + m) / m * m + x && a == a / m * m + y;
    var k := (a + m) / m - a / m - 1;
    assert k * m == y - x;
  }

  /** ReadVarint inverts the encoding of every 64-bit value, whatever stands behind it. */
  lemma ReadVarintInverts(n: nat, before: seq<byte>, after: seq<byte>)
    requires n < TWO64
    ensures Varint(before + EncodeVarint(n) + after, |before|, 0, 0) == Some((n, |before + EncodeVarint(n)|))
  {
    var d := before + EncodeVarint(n) + after;
    assert d[|before|..|before| + |EncodeVarint(n)|] == EncodeVarint(n);
    VarintDecodes(d, |before|, n, 0, 0);
  }

  // ---- fields ----

  /** A field of a message, by wire type, as in section "Message Structure" of the same. */
  datatype WireField =
    | VarintField(number: nat, value: nat)
    | Fixed64(number: nat, data: seq<byte>)
    | LengthDelimited(number: nat, data: seq<byte>)
    | Fixed32(number: nat, data: seq<byte>)
  {
    function WireType(): nat {
      match this
      case VarintField(_, _) => 0
      case Fixed64(_, _) => 1
      case LengthDelimited(_, _) => 2
      case Fixed32(_, _) => 5
    }

    predicate Valid() {
      && number < 0x2000_0000
      && match this
         case VarintField(_, value) => value < TWO64
         case Fixed64(_, data) => |data| == 8
         case LengthDelimited(_, data) => |data| < TWO64
         case Fixed32(_, data) => |data| == 4
    }

    function Payload(): seq<byte> {
      match this
      case VarintField(_, value) => EncodeVarint(value)
      case Fixed64(_, data) => data
      case LengthDelimited(_, data) => EncodeVarint(|data|) + data
      case Fixed32(_, data) => data
    }

    function Serialize(): seq<byte> {
      EncodeVarint(number * 8 + WireType()) + Payload()
    }
  }

  function SerializeAll(fs: seq<WireField>): seq<byte> {
    if fs == [] then [] else fs[0].Serialize() + SerializeAll(fs[1..])
  }

  /** Where the payload of wire type w that starts at pos ends, if it lies in the buffer. */
  function PayloadEnd(d: seq<byte>, pos: nat, w: nat): (r: Option<nat>)
    requires pos <= |d|
    ensures r.Some? ==> pos <= r.value <= |d|
  {
    if w == 0 then
      var v := Varint(d, pos, 0, 0);
      if v.None? then None else (VarintAdvances(d, pos, 0, 0); Some(v.value.1))
    else if w == 1 then if pos + 8 > |d| then None else Some(pos + 8)
    else if w == 5 then if pos + 4 > |d| then None else Some(pos + 4)
    else if w == 2 then
      var v := Varint(d, pos, 0, 0);
      if v.None? || v.value.1 + v.value.0 > |d| then None
      else (VarintAdvances(d, pos, 0, 0); Some(v.value.1 + v.value.0))
    else None
  }

  /** What the finder returns from pos on for the field number target. */
  function FoundFrom(d: seq<byte>, pos: nat, target: nat): Option<nat>
    requires pos <= |d|
    decreases |d| - pos
  {
    var tag := Varint(d, pos, 0, 0);
    if tag.None? then None
    else
      VarintAdvances(d, pos, 0, 0);
      var field, w, at := (tag.value.0 / 8) % 0x1_0000_0000, tag.value.0 % 8, tag.value.1;
      if field == target && w == 0 then
        var v := Varint(d, at, 0, 0);
        if v.None? then None else Some(v.value.0)
      else
        var end := PayloadEnd(d, at, w);
        if end.None? then None else FoundFrom(d, end.value, target)
  }

  // ---- the finder's loop in machine arithmetic ----

  /** Where the loop is: at a position, or done. */
  datatype Progress = At(pos: nat) | Done(found: Option<nat>)

  /** The end of a payload of wire type w and of n bytes, as the machine adds: in 64 bits with a
      length that was read, in 32 bits with the fixed sizes. */
  function MachineEnd(at: nat, w: nat, n: nat): nat {
    if w == 2 then (at + n) % TWO64 else (at + n) % TWO32
  }

  /** The payload behind a tag of wire type 1, 2 or 5: where it starts and how long it is. */
  function Sized(d: seq<byte>, at: nat, w: nat): (r: Option<(nat, nat)>)
    requires at <= |d|
    ensures r.Some? ==> at <= r.value.0 <= |d|
  {
    if w == 1 then Some((at, 8))
    else if w == 5 then Some((at, 4))
    else if w == 2 then
      var v := Varint(d, at, 0, 0);
      if v.None? then None else (VarintAdvances(d, at, 0, 0); Some((v.value.1, v.value.0)))
    else None
  }

  /** One turn of the loop. */
  function Turn(d: seq<byte>, pos: nat, target: nat): (r: Progress)
    requires pos <= |d|
    ensures r.At? ==> r.pos <= |d|
  {
    var tag := Varint(d, pos, 0, 0);
    if tag.None? then Done(None)
    else
      VarintAdvances(d, pos, 0, 0);
      var field, w, at := (tag.value.0 / 8) % TWO32, tag.value.0 % 8, tag.value.1;
      if w == 0 then
        var v := Varint(d, at, 0, 0);
        if field == target then Done(if v.None? then None else Some(v.value.0))
        else if v.None? then Done(None)
        else (VarintAdvances(d, at, 0, 0); At(v.value.1))
      else
        var p := Sized(d, at, w);
        if p.None? || MachineEnd(p.value.0, w, p.value.1) > |d| then Done(None)
        else At(MachineEnd(p.value.0, w, p.value.1))
  }

  /** The loop after so many turns. */
  function After(d: seq<byte>, pos: nat, target: nat, turns: nat): (r: Progress)
    requires pos <= |d|
    ensures r.At? ==> r.pos <= |d|
    decreases turns
  {
    if turns == 0 then At(pos)
    else
      match Turn(d, pos, target)
      case Done(found) => Done(found)
      case At(next) => After(d, next, target, turns - 1)
  }

  /** Does the sum for the field at pos fit the width it is added in? */
  predicate SumFits(d: seq<byte>, pos: nat)
    requires pos <= |d|
  {
    var tag := Varint(d, pos, 0, 0);
    if tag.None? then true
    else
      VarintAdvances(d, pos, 0, 0);
      var w := tag.value.0 % 8;
      var p := Sized(d, tag.value.1, w);
      p.Some? ==> p.value.0 + p.value.1 < if w == 2 then TWO64 else TWO32
  }

  /** How far the field at pos is read before its payload is skipped. */
  function ReadUpTo(d: seq<byte>, pos: nat): (at: nat)
    requires pos <= |d|
  {
    var tag := Varint(d, pos, 0, 0);
    if tag.None? then pos
    else
      VarintAdvances(d, pos, 0, 0);
      var p := Sized(d, tag.value.1, tag.value.0 % 8);
      if p.None? then tag.value.1 else p.value.0
  }

  /** A field whose sum fits is the plain finder's: its answer is the answer, and otherwise both
      go on behind the bytes read.  A sum that wraps leads back into those bytes, where the
      plain finder gives up. */
  lemma OneField(d: seq<byte>, pos: nat, target: nat)
    requires pos <= |d| < TWO32
    ensures var t := Turn(d, pos, target);
            SumFits(d, pos) ==>
              if t.Done? then FoundFrom(d, pos, target) == t.found
              else pos < ReadUpTo(d, pos) <= t.pos && FoundFrom(d, pos, target) == FoundFrom(d, t.pos, target)
    ensures !SumFits(d, pos) ==>
              Turn(d, pos, target).At? && Turn(d, pos, target).pos < ReadUpTo(d, pos)
                && FoundFrom(d, pos, target) == None
  {
    hide Varint;
    var tag := Varint(d, pos, 0, 0);
    if tag.Some? {
      var w, at := tag.value.0 % 8, tag.value.1;
      VarintAdvances(d, pos, 0, 0);
      WrapOnce(at, 8, TWO32);
      WrapOnce(at, 4, TWO32);
      var v := Varint(d, at, 0, 0);
      if (w == 0 || w == 2) && v.Some? {
        VarintAdvances(d, at, 0, 0);
        VarintBelow(d, at, 0, 0);
        WrapOnce(v.value.1, v.value.0, TWO64);
      }
    }
  }

  lemma WrapOnce(a: nat, b: nat, m: nat)
    requires a < m && b < m
    ensures (a + b) % m == if a + b < m then a + b else a + b - m
  {
    if a + b >= m {
      SubtractOnce(a + b, m);
    }
  }

  lemma SubtractOnce(a: nat, m: nat)
    requires 0 < m <= a < 2 * m
    ensures a % m == a - m
  {
    assert a / m == 1;
  }

  /** Do the sums fit at every field that is met? */
  predicate SumsFit(d: seq<byte>, pos: nat, target: nat)
    requires pos <= |d| < TWO32
    decreases |d| - pos
  {
    if !SumFits(d, pos) then false
    else
      var t := Turn(d, pos, target);
      OneField(d, pos, target);
      t.At? ==> SumsFit(d, t.pos, target)
  }

  /** The turns of the loop, at most so many.  A turn that wraps can lead back, so the loop
      need not end by itself. */
  method FindVarintField(d: seq<byte>, target: nat, turns: nat) returns (r: Progress)
    requires |d| < TWO32
    ensures r == After(d, 0, target, turns)
  {
    hide Turn, Varint;
    var pos := 0;
    for n := 0 to turns
      invariant 0 <= pos <= |d|
      invariant After(d, pos, target, turns - n) == After(d, 0, target, turns)
    {
      if pos == |d| {
        EndOfInput(d, target);
        return Done(None);
      }
      r := OneTurn(d, pos, target);
      if r.Done? {
        return;
      }
      pos := r.pos;
    }
    return At(pos);
  }

  /** The body of the loop, statement by statement. */
  method OneTurn(d: seq<byte>, start: nat, target: nat) returns (r: Progress)
    requires start < |d| < TWO32
    ensures r == Turn(d, start, target)
  {
    hide Varint;
    var tag := ReadVarint(d, start);
    if tag.None? {
      return Done(None);
    }
    VarintAdvances(d, start, 0, 0);
    var field, wireType := (tag.value.0 / 8) % TWO32, tag.value.0 % 8;
    var pos := tag.value.1;
    if field == target && wireType == 0 {
      var v := ReadVarint(d, pos);
      return Done(if v.None? then None else Some(v.value.0));
    }
    if wireType == 0 {
      var v := ReadVarint(d, pos);
      if v.None? {
        return Done(None);
      }
      VarintAdvances(d, pos, 0, 0);
      pos := v.value.1;
    } else if wireType == 1 {
      if (pos + 8) % TWO32 > |d| {
        return Done(None);
      }
      pos := (pos + 8) % TWO32;
    } else if wireType == 5 {
      if (pos + 4) % TWO32 > |d| {
        return Done(None);
      }
      pos := (pos + 4) % TWO32;
    } else if wireType == 2 {
      var len := ReadVarint(d, pos);
      if len.None? {
        return Done(None);
      }
      VarintAdvances(d, pos, 0, 0);
      pos := len.value.1;
      if (pos + len.value.0) % TWO64 > |d| {
        return Done(None);
      }
      NarrowedSum(pos, len.value.0);
      pos := (pos + len.value.0 % TWO32) % TWO32;
    } else {
      return Done(None);
    }
    return At(pos);
  }

  lemma EndOfInput(d: seq<byte>, target: nat)
    ensures Turn(d, |d|, target) == Done(None)
  {
  }

  /** Adding the length cut to 32 bits is adding it in 64, where that sum is a 32-bit number. */
  lemma NarrowedSum(pos: nat, len: nat)
    ensures (pos + len) % TWO64 < TWO32 ==> (pos + len % TWO32) % TWO32 == (pos + len) % TWO64
  {
    var sum := pos + len;
    assert sum % TWO64 == sum - sum / TWO64 * TWO64;
    assert TWO64 == TWO32 * TWO32;
    SameRemainder(sum, sum % TWO64, sum / TWO64 * TWO32);
    SameRemainder(sum, pos + len % TWO32, len / TWO32);
  }

  lemma SameRemainder(a: nat, b: nat, k: nat)
    requires a == b + k * TWO32
    ensures a % TWO32 == b % TWO32
    decreases k
  {
    if k > 0 {
      assert a - TWO32 == b + (k - 1) * TWO32;
      SameRemainder(a - TWO32, b, k - 1);
    }
  }

  /** The turn after so many, if there is one, goes on behind the bytes it has read. */
  predicate GoesOn(d: seq<byte>, pos: nat, target: nat, turns: nat)
    requires pos <= |d|
  {
    match After(d, pos, target, turns)
    case Done(_) => true
    case At(p) => Turn(d, p, target).At? ==> Turn(d, p, target).pos >= ReadUpTo(d, p)
  }

  /** If all sums fit, the loop ends and answers what the plain finder does. */
  lemma {:induction false} FittingSumsEnd(d: seq<byte>, pos: nat, target: nat, turns: nat)
    requires pos <= |d| < TWO32 && SumsFit(d, pos, target) && turns > |d| - pos
    ensures After(d, pos, target, turns) == Done(FoundFrom(d, pos, target))
    decreases turns
  {
    hide Turn, FoundFrom, SumFits;
    OneField(d, pos, target);
    match Turn(d, pos, target)
    case Done(_) =>
    case At(next) => FittingSumsEnd(d, next, target, turns - 1);
  }

  lemma {:induction false} FittingSumsGoOn(d: seq<byte>, pos: nat, target: nat, turns: nat)
    requires pos <= |d| < TWO32 && SumsFit(d, pos, target)
    ensures GoesOn(d, pos, target, turns)
    decreases turns
  {
    hide Turn, FoundFrom, SumFits;
    OneField(d, pos, target);
    if turns > 0 && Turn(d, pos, target).At? {
      FittingSumsGoOn(d, Turn(d, pos, target).pos, target, turns - 1);
    }
  }

  lemma {:induction false} WrappedSumIsMet(d: seq<byte>, pos: nat, target: nat) returns (turns: nat)
    requires pos <= |d| < TWO32 && !SumsFit(d, pos, target)
    ensures !GoesOn(d, pos, target, turns) && FoundFrom(d, pos, target) == None
    decreases |d| - pos
  {
    hide Turn, FoundFrom, SumFits, ReadUpTo;
    OneField(d, pos, target);
    if !SumFits(d, pos) {
      assert After(d, pos, target, 0) == At(pos);
      turns := 0;
    } else {
      var before := WrappedSumIsMet(d, Turn(d, pos, target).pos, target);
      turns := before + 1;
    }
  }

  /** The exact condition, for every input: the sums of all fields that are met fit the width
      they are added in if and only if no turn leads back into what was read.  Then the loop
      ends, within as many turns as there are bytes and one, with the plain finder's answer. */
  lemma FinderInMachineArithmetic(d: seq<byte>, target: nat)
    requires |d| < TWO32
    ensures SumsFit(d, 0, target) <==> forall turns :: GoesOn(d, 0, target, turns)
    ensures SumsFit(d, 0, target) ==> After(d, 0, target, |d| + 1) == Done(FoundFrom(d, 0, target))
    ensures !SumsFit(d, 0, target) ==> FoundFrom(d, 0, target) == None
  {
    hide GoesOn, SumsFit, After, FoundFrom;
    if SumsFit(d, 0, target) {
      FittingSumsEnd(d, 0, target, |d| + 1);
      forall turns ensures GoesOn(d, 0, target, turns) {
        FittingSumsGoOn(d, 0, target, turns);
      }
    } else {
      var turns := WrappedSumIsMet(d, 0, target);
    }
  }

  // ---- when the loop ends ----

  /** No position is met twice. */
  ghost predicate NeverBack(d: seq<byte>, pos: nat, target: nat)
    requires pos <= |d|
  {
    forall i: nat, j: nat :: i < j && After(d, pos, target, i).At? ==>
      After(d, pos, target, j) != After(d, pos, target, i)
  }

  lemma {:induction false} AfterAdds(d: seq<byte>, pos: nat, target: nat, m: nat, n: nat)
    requires pos <= |d|
    ensures After(d, pos, target, m + n) ==
            match After(d, pos, target, m)
            case Done(found) => Done(found)
            case At(p) => After(d, p, target, n)
    decreases m
  {
    hide Turn;
    if m > 0 && Turn(d, pos, target).At? {
      AfterAdds(d, Turn(d, pos, target).pos, target, m - 1, n);
    }
  }

  /** A position that is met again is met for ever. */
  lemma {:induction false} RoundAndRound(d: seq<byte>, pos: nat, target: nat, period: nat, turns: nat)
    requires pos <= |d| && period > 0 && After(d, pos, target, period) == At(pos)
    ensures After(d, pos, target, turns).At?
    decreases turns
  {
    if turns >= period {
      AfterAdds(d, pos, target, period, turns - period);
      RoundAndRound(d, pos, target, period, turns - period);
    } else {
      AfterAdds(d, pos, target, turns, period - turns);
    }
  }

  /** Numbers below a bound that are all different are no more than the bound. */
  lemma Pigeonhole(s: seq<nat>, bound: nat)
    requires forall i :: 0 <= i < |s| ==> s[i] < bound
    requires forall i, j :: 0 <= i < j < |s| ==> s[i] != s[j]
    ensures |s| <= bound
  {
    CountDistinct(s);
    SetBelow(Elements(s), bound);
  }

  function Elements(s: seq<nat>): set<nat> {
    set x | x in s
  }

  lemma {:induction false} CountDistinct(s: seq<nat>)
    requires forall i, j :: 0 <= i < j < |s| ==> s[i] != s[j]
    ensures |Elements(s)| == |s|
  {
    if s != [] {
      var front, last := s[..|s| - 1], s[|s| - 1];
      CountDistinct(front);
      assert s == front + [last];
      assert Elements(s) == Elements(front) + {last};
      assert last !in front;
    }
  }

  lemma {:induction false} SetBelow(xs: set<nat>, bound: nat)
    requires forall x :: x in xs ==> x < bound
    ensures |xs| <= bound
    decreases bound
  {
    if bound > 0 {
      SetBelow(xs - {bound - 1}, bound - 1);
    } else {
      assert xs == {};
    }
  }

  /** The loop ends if and only if it meets no position twice; and if it ends at all it has
      ended after one turn more than there are positions. */
  lemma EndsUnlessBack(d: seq<byte>, target: nat)
    ensures NeverBack(d, 0, target) <==> After(d, 0, target, |d| + 1).Done?
    ensures (exists turns :: After(d, 0, target, turns).Done?) <==> After(d, 0, target, |d| + 1).Done?
  {
    hide Turn, After;
    var last := |d| + 1;
    if !NeverBack(d, 0, target) {
      var i: nat, j: nat :| i < j && After(d, 0, target, i).At? && After(d, 0, target, j) == After(d, 0, target, i);
      BackIsForEver(d, target, i, j);
    } else if After(d, 0, target, last).At? {
      AllMet(d, target);
    }
    if turns :| After(d, 0, target, turns).Done? {
      if !NeverBack(d, 0, target) {
        assert false;
      }
    }
  }

  lemma BackIsForEver(d: seq<byte>, target: nat, i: nat, j: nat)
    requires i < j && After(d, 0, target, i).At? && After(d, 0, target, j) == After(d, 0, target, i)
    ensures forall turns: nat :: After(d, 0, target, turns).At?
  {
    var p := After(d, 0, target, i).pos;
    AfterAdds(d, 0, target, i, j - i);
    forall turns: nat ensures After(d, 0, target, turns).At? {
      if turns >= i {
        AfterAdds(d, 0, target, i, turns - i);
        RoundAndRound(d, p, target, j - i, turns - i);
      } else {
        AfterAdds(d, 0, target, turns, i - turns);
      }
    }
  }

  lemma AllMet(d: seq<byte>, target: nat)
    requires NeverBack(d, 0, target)
    ensures After(d, 0, target, |d| + 1).Done?
  {
    hide Turn, After;
    var last := |d| + 1;
    if After(d, 0, target, last).At? {
      forall n | 0 <= n <= last ensures After(d, 0, target, n).At? {
        AfterAdds(d, 0, target, n, last - n);
      }
      var met := seq(last + 1, n requires 0 <= n <= last => After(d, 0, target, n).pos);
      Pigeonhole(met, |d| + 1);
    }
  }

  /** A body on which the loop never ends: a length-delimited field whose length leads back to
      its own tag. */
  const TURNING_BACK: seq<byte> := [0x12, 0xF5, 0xFF, 0xFF, 0xFF, 0xFF, 0xFF, 0xFF, 0xFF, 0xFF, 0x01]

  lemma LongLength()
    ensures EncodeVarint(TWO64 - 11) == TURNING_BACK[1..]
  {
    assert EncodeVarint(0xFF) == [0xFF, 1];
    assert EncodeVarint(0x7FFF) == [0xFF] + EncodeVarint(0xFF);
    assert EncodeVarint(0x3F_FFFF) == [0xFF] + EncodeVarint(0x7FFF);
    assert EncodeVarint(0x1FFF_FFFF) == [0xFF] + EncodeVarint(0x3F_FFFF);
    assert EncodeVarint(0xF_FFFF_FFFF) == [0xFF] + EncodeVarint(0x1FFF_FFFF);
    assert EncodeVarint(0x7FF_FFFF_FFFF) == [0xFF] + EncodeVarint(0xF_FFFF_FFFF);
    assert EncodeVarint(0x3_FFFF_FFFF_FFFF) == [0xFF] + EncodeVarint(0x7FF_FFFF_FFFF);
    assert EncodeVarint(0x1FF_FFFF_FFFF_FFFF) == [0xFF] + EncodeVarint(0x3_FFFF_FFFF_FFFF);
    assert EncodeVarint(TWO64 - 11) == [0xF5] + EncodeVarint(0x1FF_FFFF_FFFF_FFFF);
  }

  lemma FieldTurnsBack(d: seq<byte>)
    requires |d| == 11 && Varint(d, 0, 0, 0) == Some((0x12, 1)) && Varint(d, 1, 0, 0) == Some((TWO64 - 11, 11))
    ensures Turn(d, 0, 1) == At(0) && !SumFits(d, 0)
  {
    hide Varint;
    assert MachineEnd(11, 2, TWO64 - 11) == 0;
  }

  lemma TurnsBack()
    ensures Turn(TURNING_BACK, 0, 1) == At(0) && !SumFits(TURNING_BACK, 0)
  {
    assert EncodeVarint(0x12) == [0x12];
    LongLength();
    hide Varint, EncodeVarint, Turn, SumFits;
    var d, length := TURNING_BACK, EncodeVarint(TWO64 - 11);
    ReadVarintInverts(0x12, [], length);
    ReadVarintInverts(TWO64 - 11, [0x12], []);
    assert d == [] + [0x12] + length && d == [0x12] + length + [];
    FieldTurnsBack(d);
  }

  /** For every number of turns. */
  lemma {:induction false} LoopsForEver(turns: nat)
    ensures After(TURNING_BACK, 0, 1, turns) == At(0)
    ensures !SumsFit(TURNING_BACK, 0, 1)
    decreases turns
  {
    hide Turn, SumFits;
    TurnsBack();
    if turns > 0 {
      LoopsForEver(turns - 1);
    }
  }

  /** The value of the first field with that number and wire type 0. */
  function FirstVarint(fs: seq<WireField>, target: nat): Option<nat> {
    if fs == [] then None
    else if fs[0].VarintField? && fs[0].number == target then Some(fs[0].value)
    else FirstVarint(fs[1..], target)
  }

  lemma PayloadIsSkipped(d: seq<byte>, pos: nat, f: WireField)
    requires f.Valid() && StandsAt(d, pos, f.Payload())
    ensures PayloadEnd(d, pos, f.WireType()) == Some(pos + |f.Payload()|)
    ensures f.VarintField? ==> Varint(d, pos, 0, 0) == Some((f.value, pos + |f.Payload()|))
  {
    hide Varint, EncodeVarint;
    match f
    case VarintField(_, value) => VarintDecodes(d, pos, value, 0, 0);
    case LengthDelimited(_, data) =>
      StandsSplit(d, pos, EncodeVarint(|data|), data);
      VarintDecodes(d, pos, |data|, 0, 0);
    case _ =>
  }

  lemma TagParts(number: nat, w: nat)
    requires number < 0x2000_0000 && w < 8
    ensures ((number * 8 + w) / 8) % 0x1_0000_0000 == number && (number * 8 + w) % 8 == w
    ensures number * 8 + w < TWO64
  {
  }

  /** One field: the finder either answers with its value or goes on behind it. */
  lemma FoundStep(d: seq<byte>, pos: nat, f: WireField, target: nat)
    requires f.Valid() && StandsAt(d, pos, f.Serialize())
    ensures FoundFrom(d, pos, target) == if f.VarintField? && f.number == target then Some(f.value)
                                         else FoundFrom(d, pos + |f.Serialize()|, target)
  {
    hide Varint, EncodeVarint, PayloadEnd, WireField.Payload, StandsAt;
    var tag := f.number * 8 + f.WireType();
    var at := pos + |EncodeVarint(tag)|;
    StandsSplit(d, pos, EncodeVarint(tag), f.Payload());
    VarintDecodes(d, pos, tag, 0, 0);
    TagParts(f.number, f.WireType());
    PayloadIsSkipped(d, at, f);
    assert |f.Serialize()| == |EncodeVarint(tag)| + |f.Payload()|;
  }

  lemma Behind(d: seq<byte>, pos: nat, here: seq<byte>, rest: seq<byte>)
    requires pos <= |d| && d[pos..] == here + rest
    ensures StandsAt(d, pos, here) && d[pos + |here|..] == rest
  {
    assert d[pos..pos + |here|] == (here + rest)[..|here|] == here;
    assert d[pos + |here|..] == (here + rest)[|here|..] == rest;
  }

  lemma NothingFound(d: seq<byte>, target: nat)
    ensures FoundFrom(d, |d|, target) == None
  {
  }

  /** On the serialisation of any list of fields the finder returns the value of the first
      varint field with the wanted number, or nothing if there is none. */
  lemma {:induction false} FinderIsCorrect(d: seq<byte>, pos: nat, fs: seq<WireField>, target: nat)
    requires pos <= |d| && d[pos..] == SerializeAll(fs) && forall i :: 0 <= i < |fs| ==> fs[i].Valid()
    ensures FoundFrom(d, pos, target) == FirstVarint(fs, target)
    decreases |fs|
  {
    hide FoundFrom, WireField.Serialize, WireField.Valid;
    if fs == [] {
      NothingFound(d, target);
    } else {
      var here := fs[0].Serialize();
      Behind(d, pos, here, SerializeAll(fs[1..]));
      FoundStep(d, pos, fs[0], target);
      FinderIsCorrect(d, pos + |here|, fs[1..], target);
    }
  }

  lemma SizedPayload(d: seq<byte>, at: nat, f: WireField)
    requires f.Valid() && !f.VarintField? && StandsAt(d, at, f.Payload())
    ensures var p := Sized(d, at, f.WireType());
            p.Some? && p.value.0 + p.value.1 == at + |f.Payload()| <= |d|
  {
    hide Varint, EncodeVarint;
    match f
    case LengthDelimited(_, data) =>
      StandsSplit(d, at, EncodeVarint(|data|), data);
      VarintDecodes(d, at, |data|, 0, 0);
    case _ =>
  }

  /** One turn over one written field: its value, or on to the next field. */
  lemma TurnOverField(d: seq<byte>, pos: nat, f: WireField, target: nat)
    requires f.Valid() && StandsAt(d, pos, f.Serialize()) && |d| < TWO32
    ensures SumFits(d, pos)
    ensures Turn(d, pos, target) == if f.VarintField? && f.number == target then Done(Some(f.value))
                                    else At(pos + |f.Serialize()|)
  {
    hide Varint, EncodeVarint, Sized, WireField.Payload, StandsAt;
    var tag := f.number * 8 + f.WireType();
    var at := pos + |EncodeVarint(tag)|;
    StandsSplit(d, pos, EncodeVarint(tag), f.Payload());
    VarintDecodes(d, pos, tag, 0, 0);
    TagParts(f.number, f.WireType());
    if f.VarintField? {
      PayloadIsSkipped(d, at, f);
      NoSize(d, at);
    } else {
      SizedPayload(d, at, f);
    }
    assert |f.Serialize()| == |EncodeVarint(tag)| + |f.Payload()|;
  }

  lemma NoSize(d: seq<byte>, at: nat)
    requires at <= |d|
    ensures Sized(d, at, 0) == None
  {
  }

  /** On the serialisation of any list of fields the loop itself, in machine arithmetic, ends
      with the value of the first varint field with the wanted number, or nothing. */
  lemma {:induction false} LoopIsCorrect(d: seq<byte>, pos: nat, fs: seq<WireField>, target: nat, turns: nat)
    requires pos <= |d| < TWO32 && d[pos..] == SerializeAll(fs) && forall i :: 0 <= i < |fs| ==> fs[i].Valid()
    requires turns > |fs|
    ensures After(d, pos, target, turns) == Done(FirstVarint(fs, target))
    decreases |fs|
  {
    hide Turn, SumFits, WireField.Serialize, WireField.Valid;
    if fs == [] {
      EndOfInput(d, target);
    } else {
      var here := fs[0].Serialize();
      Behind(d, pos, here, SerializeAll(fs[1..]));
      TurnOverField(d, pos, fs[0], target);
      LoopIsCorrect(d, pos + |here|, fs[1..], target, turns - 1);
    }
  }

  /** What is no field ends the search with nothing: a tag or a number that does not read, a wire
      type other than 0, 1, 2 and 5, and a payload that the buffer does not hold, unless its end
      wraps. */
  lemma MalformedEnds(d: seq<byte>, pos: nat, target: nat)
    requires pos <= |d| < TWO32
    ensures var tag := Varint(d, pos, 0, 0);
            var w, at := if tag.Some? then tag.value.0 % 8 else 0, if tag.Some? then tag.value.1 else pos;
            var v := if at <= |d| then Varint(d, at, 0, 0) else None;
            var end := if w == 1 then at + 8 else if w == 5 then at + 4
                       else if w == 2 && v.Some? then v.value.1 + v.value.0 else 0;
            || tag == None || w in {3, 4, 6, 7} || ((w == 0 || w == 2) && v == None)
            || (end > |d| && end < if w == 2 then 0x1_0000_0000_0000_0000 else 0x1_0000_0000) ==>
              Turn(d, pos, target) == Done(None) && FoundFrom(d, pos, target) == None
  {
    hide Varint;
    var tag := Varint(d, pos, 0, 0);
    if tag.Some? {
      VarintAdvances(d, pos, 0, 0);
      if Varint(d, tag.value.1, 0, 0).Some? {
        VarintAdvances(d, tag.value.1, 0, 0);
      }
    }
  }

  /** Only the lower 32 bits of a field number are looked at. */
  lemma HighBitsAreIgnored(number: nat, value: nat, rest: seq<byte>)
    requires number < 0x2000_0000_0000_0000 && value < TWO64
    ensures Turn(EncodeVarint(number * 8) + EncodeVarint(value) + rest, 0, number % 0x1_0000_0000) == Done(Some(value))
  {
    hide Varint, EncodeVarint, Turn;
    var tag, v := EncodeVarint(number * 8), EncodeVarint(value);
    ReadVarintInverts(number * 8, [], v + rest);
    ReadVarintInverts(value, tag, rest);
    assert [] + tag + (v + rest) == tag + v + rest && [] + tag == tag;
    TurnOverVarint(tag + v + rest, number, |tag|, value);
  }

  lemma TurnOverVarint(d: seq<byte>, number: nat, at: nat, value: nat)
    requires Varint(d, 0, 0, 0) == Some((number * 8, at)) && at <= |d| && Varint(d, at, 0, 0).Some?
    requires Varint(d, at, 0, 0).value.0 == value
    ensures Turn(d, 0, number % 0x1_0000_0000) == Done(Some(value))
  {
    hide Varint;
    EightTimes(number);
  }

  lemma EightTimes(number: nat)
    ensures number * 8 / 8 == number && number * 8 % 8 == 0
  {
  }

  // ---- binary key-values ----

  /** A tree as it is written: structs of nodes, and string pairs. */
  datatype Node = Struct(name: seq<byte>, children: Forest) | Pair(key: seq<byte>, value: seq<byte>)

  datatype Forest = Empty | Grow(first: Node, rest: Forest)

  predicate Clean(s: seq<byte>) {
    0 !in s
  }

  predicate NodeClean(n: Node) {
    match n
    case Struct(name, children) => Clean(name) && ForestClean(children)
    case Pair(key, value) => Clean(key) && Clean(value)
  }

  predicate ForestClean(f: Forest) {
    match f
    case Empty => true
    case Grow(first, rest) => NodeClean(first) && ForestClean(rest)
  }

  function NodeBytes(n: Node): seq<byte> {
    match n
    case Struct(name, children) => [0] + (name + ([0] + (ForestBytes(children) + [8])))
    case Pair(key, value) => [1] + (key + ([0] + (value + [0])))
  }

  function ForestBytes(f: Forest): seq<byte> {
    match f
    case Empty => []
    case Grow(first, rest) => NodeBytes(first) + ForestBytes(rest)
  }

  type Pairs = seq<(seq<byte>, seq<byte>)>

  /** All string pairs at any depth, in order. */
  function NodePairs(n: Node): Pairs {
    match n
    case Struct(_, children) => ForestPairs(children)
    case Pair(key, value) => [(key, value)]
  }

  function ForestPairs(f: Forest): Pairs {
    match f
    case Empty => []
    case Grow(first, rest) => NodePairs(first) + ForestPairs(rest)
  }

  /** The position of the first zero byte from pos on, or the end of the buffer. */
  function ZeroAt(d: seq<byte>, pos: nat): (e: nat)
    requires pos <= |d|
    ensures pos <= e <= |d|
    ensures forall i :: pos <= i < e ==> d[i] != 0
    ensures e < |d| ==> d[e] == 0
    decreases |d| - pos
  {
    if pos == |d| || d[pos] == 0 then pos else ZeroAt(d, pos + 1)
  }

  /** What the walker collects from pos on at a depth, behind what it has. */
  function Walk(d: seq<byte>, pos: nat, depth: nat, out: Pairs): Pairs
    requires pos <= |d|
    decreases |d| - pos
  {
    if pos == |d| then out
    else if d[pos] == 8 then if depth > 0 then Walk(d, pos + 1, depth - 1, out) else out
    else if d[pos] == 0 then
      var e := ZeroAt(d, pos + 1);
      if e == |d| then out else Walk(d, e + 1, depth + 1, out)
    else if d[pos] == 1 then
      var k := ZeroAt(d, pos + 1);
      if k == |d| then out
      else
        var v := ZeroAt(d, k + 1);
        if v == |d| then out else Walk(d, v + 1, depth, out + [(d[pos + 1..k], d[k + 1..v])])
    else out
  }

  method ReadCStr(d: seq<byte>, start: nat) returns (s: Option<seq<byte>>, pos: nat)
    requires start <= |d|
    ensures var e := ZeroAt(d, start);
            if e == |d| then s == None && pos == |d| else s == Some(d[start..e]) && pos == e + 1
  {
    pos := start;
    while pos < |d| && d[pos] != 0
      invariant start <= pos <= |d|
      invariant ZeroAt(d, pos) == ZeroAt(d, start)
    {
      pos := pos + 1;
    }
    if pos >= |d| {
      return None, pos;
    }
    s := Some(d[start..pos]);
    pos := pos + 1;
  }

  /** The iterative walker: a position, a depth, and the pairs so far. */
  method ExtractStringKVs(d: seq<byte>) returns (out: Pairs)
    ensures out == Walk(d, 0, 0, [])
  {
    hide ZeroAt;
    out := [];
    var pos, depth := 0, 0;
    while pos < |d|
      invariant 0 <= pos <= |d| && depth >= 0
      invariant Walk(d, pos, depth, out) == Walk(d, 0, 0, [])
      decreases |d| - pos
    {
      var kind := d[pos];
      if kind == 8 {
        if depth == 0 {
          return;
        }
        depth := depth - 1;
        pos := pos + 1;
      } else if kind == 0 {
        var name, next := ReadCStr(d, pos + 1);
        if name.None? {
          return;
        }
        depth, pos := depth + 1, next;
      } else if kind == 1 {
        var key, middle := ReadCStr(d, pos + 1);
        if key.None? {
          return;
        }
        var value, next := ReadCStr(d, middle);
        if value.None? {
          return;
        }
        out := out + [(key.value, value.value)];
        pos := next;
      } else {
        return;
      }
    }
  }

  lemma ZeroBehind(d: seq<byte>, pos: nat, s: seq<byte>)
    requires Clean(s) && StandsAt(d, pos, s) && pos + |s| < |d| && d[pos + |s|] == 0
    ensures ZeroAt(d, pos) == pos + |s| && d[pos..pos + |s|] == s
  {
    forall i | pos <= i < pos + |s| ensures d[i] != 0 {
      assert d[i] == d[pos..pos + |s|][i - pos];
    }
  }

  /** One byte in front of a string. */
  lemma StandsByte(d: seq<byte>, pos: nat, b: byte, rest: seq<byte>)
    requires StandsAt(d, pos, [b] + rest)
    ensures pos < |d| && d[pos] == b && StandsAt(d, pos + 1, rest)
  {
    StandsSplit(d, pos, [b], rest);
    assert d[pos..pos + 1][0] == b;
  }

  lemma WalkOpen(d: seq<byte>, pos: nat, e: nat, depth: nat, out: Pairs)
    requires pos < |d| && d[pos] == 0 && ZeroAt(d, pos + 1) == e < |d|
    ensures Walk(d, pos, depth, out) == Walk(d, e + 1, depth + 1, out)
  {
  }

  lemma WalkClose(d: seq<byte>, pos: nat, depth: nat, out: Pairs)
    requires pos < |d| && d[pos] == 8
    ensures Walk(d, pos, depth, out) == if depth > 0 then Walk(d, pos + 1, depth - 1, out) else out
  {
  }

  lemma WalkPair(d: seq<byte>, pos: nat, k: nat, v: nat, depth: nat, out: Pairs)
    requires pos < |d| && d[pos] == 1 && ZeroAt(d, pos + 1) == k < |d| && ZeroAt(d, k + 1) == v < |d|
    ensures Walk(d, pos, depth, out) == Walk(d, v + 1, depth, out + [(d[pos + 1..k], d[k + 1..v])])
  {
  }

  lemma {:induction false} WalkNode(d: seq<byte>, pos: nat, n: Node, depth: nat, out: Pairs)
    requires NodeClean(n) && StandsAt(d, pos, NodeBytes(n))
    ensures Walk(d, pos, depth, out) == Walk(d, pos + |NodeBytes(n)|, depth, out + NodePairs(n))
    decreases n
  {
    hide Walk, StandsAt, ZeroAt, ForestBytes;
    match n
    case Struct(name, children) =>
      var inner := ForestBytes(children);
      StandsByte(d, pos, 0, name + ([0] + (inner + [8])));
      StandsSplit(d, pos + 1, name, [0] + (inner + [8]));
      var e := pos + 1 + |name|;
      StandsByte(d, e, 0, inner + [8]);
      StandsSplit(d, e + 1, inner, [8]);
      var close := e + 1 + |inner|;
      StandsByte(d, close, 8, []);
      ZeroBehind(d, pos + 1, name);
      WalkOpen(d, pos, e, depth, out);
      WalkForest(d, e + 1, children, depth + 1, out);
      WalkClose(d, close, depth + 1, out + ForestPairs(children));
    case Pair(key, value) =>
      WalkPairNode(d, pos, key, value, depth, out);
  }

  lemma WalkPairNode(d: seq<byte>, pos: nat, key: seq<byte>, value: seq<byte>, depth: nat, out: Pairs)
    requires Clean(key) && Clean(value) && StandsAt(d, pos, NodeBytes(Pair(key, value)))
    ensures Walk(d, pos, depth, out) == Walk(d, pos + |NodeBytes(Pair(key, value))|, depth, out + [(key, value)])
  {
    hide Walk, StandsAt, ZeroAt;
    StandsByte(d, pos, 1, key + ([0] + (value + [0])));
    StandsSplit(d, pos + 1, key, [0] + (value + [0]));
    var k := pos + 1 + |key|;
    StandsByte(d, k, 0, value + [0]);
    StandsSplit(d, k + 1, value, [0]);
    var v := k + 1 + |value|;
    StandsByte(d, v, 0, []);
    ZeroBehind(d, pos + 1, key);
    ZeroBehind(d, k + 1, value);
    WalkPair(d, pos, k, v, depth, out);
  }

  lemma {:induction false} WalkForest(d: seq<byte>, pos: nat, f: Forest, depth: nat, out: Pairs)
    requires ForestClean(f) && StandsAt(d, pos, ForestBytes(f))
    ensures Walk(d, pos, depth, out) == Walk(d, pos + |ForestBytes(f)|, depth, out + ForestPairs(f))
    decreases f
  {
    hide Walk, StandsAt, NodeBytes;
    match f
    case Empty =>
      assert out + [] == out;
    case Grow(first, rest) =>
      StandsSplit(d, pos, NodeBytes(first), ForestBytes(rest));
      WalkNode(d, pos, first, depth, out);
      WalkForest(d, pos + |NodeBytes(first)|, rest, depth, out + NodePairs(first));
      assert out + NodePairs(first) + ForestPairs(rest) == out + (NodePairs(first) + ForestPairs(rest));
  }

  /** Nothing more can be read: the end, an end marker too many, a type that is none of the three, or
      a string that the end cuts off. */
  ghost predicate Stops(s: seq<byte>, depth: nat) {
    || s == [] || (s[0] == 8 && depth == 0) || s[0] !in {0, 1, 8}
    || (s[0] != 8 && Clean(s[1..]))
    || exists key, rest :: s == [1] + key + [0] + rest && Clean(key) && Clean(rest)
  }

  lemma StopsAt(s: seq<byte>, depth: nat, key: seq<byte>, rest: seq<byte>)
    requires || s == [] || (s[0] == 8 && depth == 0) || s[0] !in {0, 1, 8} || (s[0] != 8 && 0 !in s[1..])
             || (s == [1] + key + [0] + rest && 0 !in key && 0 !in rest)
    ensures Stops(s, depth)
  {
    assert Clean(key) <==> 0 !in key;
    assert Clean(rest) <==> 0 !in rest;
  }

  lemma WalkStops(d: seq<byte>, pos: nat, depth: nat, out: Pairs)
    requires pos <= |d| && Stops(d[pos..], depth)
    ensures Walk(d, pos, depth, out) == out
  {
    var s := d[pos..];
    if s != [] && s[0] in {0, 1} {
      assert s[0] == d[pos];
      if Clean(s[1..]) {
        NoZero(d, pos + 1, s[1..]);
      } else {
        var key, rest :| s == [1] + key + [0] + rest && Clean(key) && Clean(rest);
        KeyAlone(d, pos, key, rest);
      }
    }
  }

  lemma KeyAlone(d: seq<byte>, pos: nat, key: seq<byte>, rest: seq<byte>)
    requires pos <= |d| && d[pos..] == [1] + key + [0] + rest && Clean(key) && Clean(rest)
    ensures var k := ZeroAt(d, pos + 1); k < |d| && ZeroAt(d, k + 1) == |d|
  {
    hide ZeroAt;
    var k := pos + 1 + |key|;
    assert d[pos..] == [1] + (key + ([0] + rest));
    TailOf(d, pos, [1], key + ([0] + rest));
    TailOf(d, pos + 1, key, [0] + rest);
    TailOf(d, k, [0], rest);
    ZeroBehind(d, pos + 1, key);
    NoZero(d, k + 1, rest);
  }

  lemma TailOf(d: seq<byte>, pos: nat, a: seq<byte>, b: seq<byte>)
    requires pos <= |d| && d[pos..] == a + b
    ensures StandsAt(d, pos, a) && pos + |a| <= |d| && d[pos + |a|..] == b
    ensures a != [] ==> d[pos] == a[0]
  {
    Behind(d, pos, a, b);
    assert a != [] ==> d[pos..][0] == d[pos] && (a + b)[0] == a[0];
  }

  lemma NoZero(d: seq<byte>, pos: nat, rest: seq<byte>)
    requires pos <= |d| && d[pos..] == rest && Clean(rest)
    ensures ZeroAt(d, pos) == |d|
  {
    forall i | pos <= i < |d| ensures d[i] != 0 {
      assert d[i] == rest[i - pos];
    }
  }

  /** Structs that are begun and not ended, each behind the nodes in front of it. */
  datatype Level = Level(before: Forest, name: seq<byte>)

  function LevelBytes(levels: seq<Level>): seq<byte> {
    if levels == [] then []
    else ForestBytes(levels[0].before) + ([0] + levels[0].name + [0]) + LevelBytes(levels[1..])
  }

  function LevelPairs(levels: seq<Level>): Pairs {
    if levels == [] then [] else ForestPairs(levels[0].before) + LevelPairs(levels[1..])
  }

  lemma NoLevels()
    ensures LevelBytes([]) == [] && LevelPairs([]) == []
  {
  }

  lemma LevelFirst(levels: seq<Level>)
    requires levels != []
    ensures LevelBytes(levels) ==
            ForestBytes(levels[0].before) + ([0] + (levels[0].name + ([0] + LevelBytes(levels[1..]))))
    ensures LevelPairs(levels) == ForestPairs(levels[0].before) + LevelPairs(levels[1..])
  {
    hide ForestBytes, ForestPairs;
  }

  lemma {:induction false} WalkLevels(d: seq<byte>, pos: nat, levels: seq<Level>, depth: nat, out: Pairs)
    requires forall i :: 0 <= i < |levels| ==> ForestClean(levels[i].before) && Clean(levels[i].name)
    requires StandsAt(d, pos, LevelBytes(levels))
    ensures Walk(d, pos, depth, out) ==
            Walk(d, pos + |LevelBytes(levels)|, depth + |levels|, out + LevelPairs(levels))
    decreases levels
  {
    hide Walk, StandsAt, ZeroAt, ForestBytes, ForestPairs, ForestClean, LevelBytes, LevelPairs;
    if levels == [] {
      NoLevels();
      assert out + [] == out;
    } else {
      var f, name := levels[0].before, levels[0].name;
      var rest := LevelBytes(levels[1..]);
      LevelFirst(levels);
      StandsSplit(d, pos, ForestBytes(f), [0] + (name + ([0] + rest)));
      WalkForest(d, pos, f, depth, out);
      var at := pos + |ForestBytes(f)|;
      StandsByte(d, at, 0, name + ([0] + rest));
      StandsSplit(d, at + 1, name, [0] + rest);
      StandsByte(d, at + 1 + |name|, 0, rest);
      ZeroBehind(d, at + 1, name);
      WalkOpen(d, at, at + 1 + |name|, depth, out + ForestPairs(f));
      WalkLevels(d, at + 2 + |name|, levels[1..], depth + 1, out + ForestPairs(f));
      assert out + ForestPairs(f) + LevelPairs(levels[1..]) == out + LevelPairs(levels);
    }
  }

  lemma ThreeParts(a: seq<byte>, b: seq<byte>, c: seq<byte>)
    ensures StandsAt(a + b + c, 0, a) && StandsAt(a + b + c, |a|, b) && (a + b + c)[|a| + |b|..] == c
  {
  }

  /** Wherever the bytes stop making sense, the walker keeps exactly the pairs in front of that
      place: of the structs ended, of those still open, and of the one it is in. */
  lemma WalkKeepsWhatItHas(levels: seq<Level>, last: Forest, stop: seq<byte>, key: seq<byte>, rest: seq<byte>)
    requires forall i :: 0 <= i < |levels| ==> ForestClean(levels[i].before) && Clean(levels[i].name)
    requires ForestClean(last)
    requires || stop == [] || (stop[0] == 8 && levels == []) || stop[0] !in {0, 1, 8}
             || (stop[0] != 8 && 0 !in stop[1..])
             || (stop == [1] + key + [0] + rest && 0 !in key && 0 !in rest)
    ensures Walk(LevelBytes(levels) + ForestBytes(last) + stop, 0, 0, []) == LevelPairs(levels) + ForestPairs(last)
  {
    hide Walk, ForestBytes, ForestPairs, LevelBytes, LevelPairs, ForestClean, Stops, StandsAt;
    var a, b := LevelBytes(levels), ForestBytes(last);
    var d := a + b + stop;
    ThreeParts(a, b, stop);
    StopsAt(stop, |levels|, key, rest);
    WalkLevels(d, 0, levels, 0, []);
    WalkForest(d, |a|, last, |levels|, [] + LevelPairs(levels));
    WalkStops(d, |a| + |b|, |levels|, [] + LevelPairs(levels) + ForestPairs(last));
    assert [] + LevelPairs(levels) == LevelPairs(levels);
  }

  /** On the bytes of a forest, an end marker and anything behind it, the walker collects
      exactly the forest's string pairs in order. */
  lemma WalkUndoesSerialization(f: Forest, trailing: seq<byte>)
    requires ForestClean(f)
    ensures Walk(ForestBytes(f) + [8] + trailing, 0, 0, []) == ForestPairs(f)
  {
    var d := ForestBytes(f) + [8] + trailing;
    assert d[0..|ForestBytes(f)|] == ForestBytes(f);
    WalkForest(d, 0, f, 0, []);
    assert [] + ForestPairs(f) == ForestPairs(f);
  }
}
