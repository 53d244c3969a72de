/** Bytes, and the little-endian numbers they spell. */
module Bytes {

  type byte = n: int | 0 <= n < 0x100

  function Pow256(n: nat): nat {
    if n == 0 then 1 else 0x100 * Pow256(n - 1)
  }

  /** The number that a little-endian byte sequence spells. */
  function FromLE(b: seq<byte>): (n: nat)
    ensures n < Pow256(|b|)
  {
    if b == [] then 0 else b[0] + 0x100 * FromLE(b[1..])
  }

  function ToLE(n: nat, width: nat): (b: seq<byte>)
    ensures |b| == width
  {
    if width == 0 then [] else [n % 0x100] + ToLE(n / 0x100, width - 1)
  }

  lemma {:induction false} FromToLE(n: nat, width: nat)
    requires n < Pow256(width)
    ensures FromLE(ToLE(n, width)) == n
  {
    if width > 0 {
      FromToLE(n / 0x100, width - 1);
      assert ToLE(n, width)[1..] == ToLE(n / 0x100, width - 1);
    }
  }

  lemma {:induction false} ToFromLE(b: seq<byte>)
    ensures ToLE(FromLE(b), |b|) == b
  {
    if b != [] {
      ToFromLE(b[1..]);
      assert FromLE(b) % 0x100 == b[0] && FromLE(b) / 0x100 == FromLE(b[1..]);
    }
  }

  /** The least significant byte comes first. */
  lemma {:induction false} FromLESplit(low: seq<byte>, high: seq<byte>)
    ensures FromLE(low + high) == FromLE(low) + Pow256(|low|) * FromLE(high)
    ensures forall b: byte :: FromLE([b]) == b
  {
    assert forall b: byte :: FromLE([b]) == b + 0x100 * FromLE([]);
    if low == [] {
      assert low + high == high;
    } else {
      FromLESplit(low[1..], high);
      assert (low + high)[1..] == low[1..] + high;
      Distribute(FromLE(low[1..]), Pow256(|low| - 1), FromLE(high));
    }
  }

  lemma Distribute(low: nat, weight: nat, high: nat)
    ensures 0x100 * (low + weight * high) == 0x100 * low + 0x100 * weight * high
  {
  }

  function Zeros(n: nat): seq<byte> {
    seq(n, _ => 0)
  }

  /** A byte sequence with the part from offset at replaced by as many bytes. */
  function Patch(packet: seq<byte>, at: nat, part: seq<byte>): (r: seq<byte>)
    requires at + |part| <= |packet|
    ensures |r| == |packet|
  {
    packet[..at] + part + packet[at + |part|..]
  }

  lemma PatchSlices(packet: seq<byte>, at: nat, part: seq<byte>)
    requires at + |part| <= |packet|
    ensures Patch(packet, at, part)[..at] == packet[..at]
    ensures Patch(packet, at, part)[at..at + |part|] == part
    ensures Patch(packet, at, part)[at + |part|..] == packet[at + |part|..]
  {
  }

  lemma PatchTwice(packet: seq<byte>, at: nat, a: seq<byte>, b: seq<byte>)
    requires at + |a| + |b| <= |packet|
    ensures Patch(Patch(packet, at, a), at + |a|, b) == Patch(packet, at, a + b)
  {
  }

  lemma EmptyPatch(p: seq<byte>)
    ensures forall part: seq<byte>, at: nat :: |part| == 0 && at <= |p| ==> Patch(p, at, part) == p
  {
  }

  /** memcpy. */
  method MemCopy(data: array<byte>, at: nat, value: seq<byte>)
    requires at + |value| <= data.Length
    modifies data
    ensures data[..] == Patch(old(data[..]), at, value)
  {
    for n := 0 to |value|
      invariant forall k :: 0 <= k < data.Length ==> data[k] == if at <= k < at + n then value[k - at] else old(data[k])
    {
      data[at + n] := value[n];
    }
  }
}
