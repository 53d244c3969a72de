/** Position-independent fingerprints of machine code (tools/gen_linux_patterns.py): bodies with
    their relocated immediates blanked, signatures with wildcards, and the lookup of the
    function around an address. */
module Patterns {
  import opened Outcomes
  import opened Bytes

  // ---- blanking relocated immediates ----

  /** One piece of the left-to-right scan: its length and how much of it is kept. */
  datatype Piece = Piece(keep: nat, length: nat)

  /** What the expression of _mask_pic matches at the start of the code: a relative call, an
      add to ebx, an address relative to a register.  Where it does not match, one byte. */
  function MaskPiece(code: seq<byte>): (p: Piece)
    requires code != []
    ensures 1 <= p.keep <= p.length <= |code| && p.keep <= 2
  {
    if code[0] == 0xE8 && |code| >= 5 then Piece(1, 5)
    else if |code| >= 6 && code[0] == 0x81 && code[1] == 0xC3 then Piece(2, 6)
    else if |code| >= 6 && code[0] == 0x8D && 0x80 <= code[1] <= 0xBF then Piece(2, 6)
    else Piece(1, 1)
  }

  function MaskPieces(code: seq<byte>): seq<Piece> {
    if code == [] then [] else [MaskPiece(code)] + MaskPieces(code[MaskPiece(code).length..])
  }

  lemma MaskedFront(head: seq<byte>, imm: seq<byte>, tail: seq<byte>)
    requires |imm| == 4 && MaskPiece(head + imm + tail) == Piece(|head|, |head| + 4)
    ensures Masked(head + imm + tail) == head + Zeros(4) + Masked(tail)
  {
    hide MaskPiece, Zeros;
    var code := head + imm + tail;
    assert code[..|head|] == head && code[|head| + 4..] == tail;
  }

  /** The three relocated instructions: whatever their immediate is, the mask shows none. */
  lemma MaskedInstructions(modrm: byte, imm: seq<byte>, tail: seq<byte>)
    requires |imm| == 4
    ensures Masked([0xE8] + imm + tail) == [0xE8] + Zeros(4) + Masked(tail)
    ensures Masked([0x81, 0xC3] + imm + tail) == [0x81, 0xC3] + Zeros(4) + Masked(tail)
    ensures 0x80 <= modrm <= 0xBF ==> Masked([0x8D, modrm] + imm + tail) == [0x8D, modrm] + Zeros(4) + Masked(tail)
  {
    hide Masked, Zeros;
    MaskedFront([0xE8], imm, tail);
    MaskedFront([0x81, 0xC3], imm, tail);
    if 0x80 <= modrm <= 0xBF {
      MaskedFront([0x8D, modrm], imm, tail);
    }
  }

  /** Everything else is kept: a call or an instruction that is cut off, any other operation, and
      those two with any other operand. */
  lemma OthersAreKept(op: byte, rest: seq<byte>)
    requires !(op == 0xE8 && |rest| >= 4)
    requires !(op == 0x81 && |rest| >= 5 && rest[0] == 0xC3)
    requires !(op == 0x8D && |rest| >= 5 && 0x80 <= rest[0] <= 0xBF)
    ensures Masked([op] + rest) == [op] + Masked(rest)
  {
    hide Masked;
    var code := [op] + rest;
    assert |rest| > 0 ==> code[1] == rest[0];
    OneByteKept(code);
    assert code[1..] == rest;
  }

  lemma OneByteKept(code: seq<byte>)
    requires code != [] && MaskPiece(code) == Piece(1, 1)
    ensures Masked(code) == [code[0]] + Masked(code[1..])
  {
    assert Zeros(0) == [] && code[..1] == [code[0]];
    hide MaskPiece, Zeros;
  }

  /** Whether the scan keeps the byte at k. */
  predicate Kept(pieces: seq<Piece>, k: nat) {
    pieces != [] &&
    if k < pieces[0].length then k < pieces[0].keep else Kept(pieces[1..], k - pieces[0].length)
  }

  function Masked(code: seq<byte>): (r: seq<byte>)
    ensures |r| == |code|
  {
    if code == [] then [] else
      var p := MaskPiece(code);
      code[..p.keep] + Zeros(p.length - p.keep) + Masked(code[p.length..])
  }

  /** The mask byte by byte. */
  lemma {:induction false} MaskedAt(code: seq<byte>, k: nat)
    requires k < |code|
    ensures Masked(code)[k] == if Kept(MaskPieces(code), k) then code[k] else 0
  {
    var p := MaskPiece(code);
    if k >= p.length {
      MaskedAt(code[p.length..], k - p.length);
    }
  }

  /** The first byte of a piece is kept, and the second too if it decides the piece. */
  lemma MaskKeepsPiece(code: seq<byte>)
    requires code != []
    ensures MaskPiece(Masked(code)) == MaskPiece(code)
  {
    var p := MaskPiece(code);
    if p.length == 1 && |code| > 1 {
      assert Masked(code)[1] == Masked(code[1..])[0] == code[1];
    }
  }

  lemma MaskUnfolds(code: seq<byte>)
    requires code != []
    ensures var p := MaskPiece(code);
            && Masked(code)[..p.keep] == code[..p.keep]
            && Masked(code)[p.keep..p.length] == Zeros(p.length - p.keep)
            && (forall k :: p.keep <= k < p.length ==> Masked(code)[k] == 0)
            && Masked(code)[p.length..] == Masked(code[p.length..])
  {
    hide MaskPiece;
  }

  /** Masking does not change how the scan divides the code, so masking again changes nothing. */
  lemma {:induction false} MaskIsIdempotent(code: seq<byte>)
    ensures MaskPieces(Masked(code)) == MaskPieces(code)
    ensures Masked(Masked(code)) == Masked(code)
  {
    hide MaskPiece, Masked;
    if code != [] {
      var p, m := MaskPiece(code), Masked(code);
      MaskKeepsPiece(code);
      MaskUnfolds(code);
      MaskIsIdempotent(code[p.length..]);
      MaskUnfolds(m);
      assert m == m[..p.keep] + m[p.keep..p.length] + m[p.length..];
      assert Masked(m) == Masked(m)[..p.keep] + Masked(m)[p.keep..p.length] + Masked(m)[p.length..];
    } else {
      assert Masked(code) == [];
    }
  }

  lemma {:induction false} PiecesGiveLength(a: seq<byte>, b: seq<byte>)
    requires MaskPieces(a) == MaskPieces(b)
    ensures |a| == |b|
  {
    if a != [] && b != [] {
      var p := MaskPiece(a);
      assert MaskPieces(a)[0] == MaskPieces(b)[0];
      assert MaskPieces(a)[1..] == MaskPieces(b)[1..];
      PiecesGiveLength(a[p.length..], b[p.length..]);
    }
  }

  ghost predicate AgreeWhereKept(a: seq<byte>, b: seq<byte>) {
    forall k :: 0 <= k < |a| && k < |b| && Kept(MaskPieces(a), k) ==> a[k] == b[k]
  }

  /** Masking is a canonical form: two bodies have the same mask exactly when the scan divides
      them alike and they agree on every byte that it keeps. */
  lemma MaskIsCanonical(a: seq<byte>, b: seq<byte>)
    ensures Masked(a) == Masked(b) <==> MaskPieces(a) == MaskPieces(b) && AgreeWhereKept(a, b)
  {
    if Masked(a) == Masked(b) {
      MaskIsIdempotent(a);
      MaskIsIdempotent(b);
      forall k | 0 <= k < |a| && Kept(MaskPieces(a), k) ensures a[k] == b[k] {
        MaskedAt(a, k);
        MaskedAt(b, k);
      }
    }
    if MaskPieces(a) == MaskPieces(b) && AgreeWhereKept(a, b) {
      PiecesGiveLength(a, b);
      var ma, mb := Masked(a), Masked(b);
      forall k | 0 <= k < |a| ensures ma[k] == mb[k] {
        MaskedAt(a, k);
        MaskedAt(b, k);
      }
    }
  }

  method Blank(b: array<byte>, lo: nat, hi: nat)
    requires lo <= hi <= b.Length
    modifies b
    ensures b[..] == Patch(old(b[..]), lo, Zeros(hi - lo))
  {
    for i := lo to hi
      invariant forall k :: 0 <= k < b.Length ==> b[k] == if lo <= k < i then 0 else old(b[k])
    {
      b[i] := 0;
    }
  }

  lemma Splice(m: seq<byte>, code: seq<byte>, at: nat, p: Piece)
    requires |m| == |code| && p.keep <= p.length && at + p.length <= |m|
    requires forall k :: at <= k < at + p.keep ==> m[k] == code[k]
    requires forall k :: at + p.keep <= k < at + p.length ==> m[k] == 0
    ensures Patch(m[..at] + code[at..], at + p.keep, Zeros(p.length - p.keep)) ==
            m[..at + p.length] + code[at + p.length..]
  {
    var before, after := m[..at] + code[at..], m[..at + p.length] + code[at + p.length..];
    var patched := Patch(before, at + p.keep, Zeros(p.length - p.keep));
    forall k | 0 <= k < |after| ensures patched[k] == after[k] {
    }
  }

  lemma PieceInMask(code: seq<byte>, at: nat)
    requires at < |code| && Masked(code)[at..] == Masked(code[at..])
    ensures var p, m := MaskPiece(code[at..]), Masked(code);
            && (forall k :: at <= k < at + p.keep ==> m[k] == code[k])
            && (forall k :: at + p.keep <= k < at + p.length ==> m[k] == 0)
            && m[at + p.length..] == Masked(code[at + p.length..])
  {
    hide MaskPiece, Masked, Zeros;
    var p, m, rest := MaskPiece(code[at..]), Masked(code), code[at..];
    MaskUnfolds(rest);
    assert rest[p.length..] == code[at + p.length..];
    var tail := m[at..];
    assert m[at + p.length..] == tail[p.length..];
    forall k | at <= k < at + p.keep ensures m[k] == code[k] {
      assert tail[..p.keep][k - at] == rest[..p.keep][k - at];
    }
    forall k | at + p.keep <= k < at + p.length ensures m[k] == 0 {
      assert tail[k - at] == 0;
    }
  }

  /** _mask_pic: the matches are found in the unchanged code and blanked in a copy. */
  method MaskPic(code: seq<byte>) returns (r: seq<byte>)
    ensures r == Masked(code)
  {
    hide MaskPiece, Masked, Patch;
    var b := new byte[|code|](i requires 0 <= i < |code| => code[i]);
    var at := 0;
    while at < |code|
      invariant 0 <= at <= |code|
      invariant b[..] == Masked(code)[..at] + code[at..]
      invariant Masked(code)[at..] == Masked(code[at..])
    {
      var p := MaskPiece(code[at..]);
      Blank(b, at + p.keep, at + p.length);
      PieceInMask(code, at);
      Splice(Masked(code), code, at, p);
      at := at + p.length;
    }
    return b[..];
  }

  // ---- signatures ----

  datatype Token = Exactly(value: byte) | Any

  function AnyBytes(n: nat): seq<Token> {
    seq(n, _ => Any)
  }

  /** x & 0xF8. */
  function HighFive(x: byte): byte {
    x - x % 8
  }

  function SigPiece(code: seq<byte>): (p: Piece)
    requires code != []
    ensures 1 <= p.keep <= p.length <= |code| && p.keep <= 2
  {
    if code[0] == 0xE8 && |code| >= 5 then Piece(1, 5)
    else if code[0] == 0x05 && |code| >= 5 then Piece(1, 5)
    else if code[0] == 0x81 && |code| >= 6 && HighFive(code[1]) == 0xC0 then Piece(2, 6)
    else Piece(1, 1)
  }

  function Exact(bytes: seq<byte>): seq<Token> {
    seq(|bytes|, i requires 0 <= i < |bytes| => Exactly(bytes[i]))
  }

  /** One token for each byte. */
  function Signature(code: seq<byte>): (sig: seq<Token>)
    ensures |sig| == |code|
  {
    if code == [] then [] else
      var p := SigPiece(code);
      Exact(code[..p.keep]) + AnyBytes(p.length - p.keep) + Signature(code[p.length..])
  }

  lemma SignedFront(head: seq<byte>, imm: seq<byte>, tail: seq<byte>)
    requires |imm| == 4 && SigPiece(head + imm + tail) == Piece(|head|, |head| + 4)
    ensures Signature(head + imm + tail) == Exact(head) + AnyBytes(4) + Signature(tail)
  {
    hide SigPiece, Exact, AnyBytes;
    var code := head + imm + tail;
    assert code[..|head|] == head && code[|head| + 4..] == tail;
  }

  /** The three instructions with wildcards: a call, an add to eax, an add to any register. */
  lemma SignedInstructions(register: nat, imm: seq<byte>, tail: seq<byte>)
    requires |imm| == 4 && register < 8
    ensures Signature([0xE8] + imm + tail) == Exact([0xE8]) + AnyBytes(4) + Signature(tail)
    ensures Signature([0x05] + imm + tail) == Exact([0x05]) + AnyBytes(4) + Signature(tail)
    ensures Signature([0x81, 0xC0 + register] + imm + tail) ==
            Exact([0x81, 0xC0 + register]) + AnyBytes(4) + Signature(tail)
  {
    hide Signature, Exact, AnyBytes;
    SignedFront([0xE8], imm, tail);
    SignedFront([0x05], imm, tail);
    SignedFront([0x81, 0xC0 + register], imm, tail);
  }

  lemma HighFiveIs(x: byte)
    ensures HighFive(x) == 0xC0 <==> 0xC0 <= x <= 0xC7
  {
  }

  /** Every other byte is looked for as it is. */
  lemma OthersAreExact(op: byte, rest: seq<byte>)
    requires !((op == 0xE8 || op == 0x05) && |rest| >= 4)
    requires !(op == 0x81 && |rest| >= 5 && 0xC0 <= rest[0] <= 0xC7)
    ensures Signature([op] + rest) == [Exactly(op)] + Signature(rest)
  {
    hide HighFive, Signature;
    var code := [op] + rest;
    if |rest| > 0 {
      HighFiveIs(rest[0]);
    }
    SignatureByBranch(code, 0);
    assert code[0..] == code && code[1..] == rest;
  }

  predicate Matches(sig: seq<Token>, code: seq<byte>) {
    && |sig| == |code|
    && forall i :: 0 <= i < |sig| && sig[i].Exactly? ==> sig[i].value == code[i]
  }

  /** A signature matches the code it was made from. */
  lemma {:induction false} SignatureMatches(code: seq<byte>)
    ensures Matches(Signature(code), code)
  {
    if code != [] {
      var p := SigPiece(code);
      SignatureMatches(code[p.length..]);
      var sig, tail := Signature(code), Signature(code[p.length..]);
      forall i | 0 <= i < |sig| && sig[i].Exactly? ensures sig[i].value == code[i] {
        if i >= p.length {
          assert sig[i] == tail[i - p.length];
        }
      }
    }
  }

  lemma MatchKeepsPiece(a: seq<byte>, b: seq<byte>)
    requires a != [] && Matches(Signature(a), b)
    ensures SigPiece(b) == SigPiece(a) && b[..SigPiece(a).keep] == a[..SigPiece(a).keep]
  {
    var p, sig := SigPiece(a), Signature(a);
    assert sig[0] == Exactly(a[0]);
    if p.length == 1 && |a| > 1 {
      assert sig[1] == Signature(a[1..])[0] == Exactly(a[1]);
    } else if p.keep == 2 {
      assert sig[1] == Exactly(a[1]);
    }
  }

  /** A signature matches exactly the pieces of code that have the same signature: what it finds
      cannot be told apart from its origin by its own rules. */
  lemma {:induction false} MatchIsSameSignature(a: seq<byte>, b: seq<byte>)
    ensures Matches(Signature(a), b) <==> Signature(b) == Signature(a)
  {
    hide SigPiece;
    SignatureMatches(b);
    if Matches(Signature(a), b) && a != [] {
      var p, sig := SigPiece(a), Signature(a);
      MatchKeepsPiece(a, b);
      var tail, code := Signature(a[p.length..]), b[p.length..];
      forall i | 0 <= i < |tail| && tail[i].Exactly? ensures tail[i].value == code[i] {
        assert tail[i] == sig[i + p.length];
      }
      MatchIsSameSignature(a[p.length..], code);
    }
  }

  datatype Section = Section(addr: nat, offset: nat, size: nat)

  predicate Holds(s: Section, vaddr: nat) {
    s.addr != 0 && s.addr <= vaddr < s.addr + s.size
  }

  function Min(a: nat, b: nat): nat {
    if a <= b then a else b
  }

  function Slice(data: seq<byte>, lo: nat, n: nat): seq<byte> {
    data[Min(lo, |data|)..Min(lo + n, |data|)]
  }

  lemma SliceIs(data: seq<byte>, at: nat, n: nat)
    ensures Slice(data, at, n) ==
            if at + n <= |data| then data[at..at + n] else if at <= |data| then data[at..] else []
  {
  }

  lemma SignatureUnfolds(b: seq<byte>, at: nat)
    requires at < |b|
    ensures var p := SigPiece(b[at..]);
            Signature(b[at..]) ==
              Exact(b[at..at + p.keep]) + AnyBytes(p.length - p.keep) + Signature(b[at + p.length..])
  {
    hide SigPiece;
    var p := SigPiece(b[at..]);
    assert b[at..][..p.keep] == b[at..at + p.keep] && b[at..][p.length..] == b[at + p.length..];
  }

  /** The four branches of make_sig. */
  lemma SignatureByBranch(b: seq<byte>, i: nat)
    requires i < |b|
    ensures var op := b[i];
            if op == 0xE8 && i + 5 <= |b| then
              Signature(b[i..]) == [Exactly(0xE8), Any, Any, Any, Any] + Signature(b[i + 5..])
            else if op == 0x05 && i + 5 <= |b| then
              Signature(b[i..]) == [Exactly(0x05), Any, Any, Any, Any] + Signature(b[i + 5..])
            else if op == 0x81 && i + 6 <= |b| && HighFive(b[i + 1]) == 0xC0 then
              Signature(b[i..]) == [Exactly(0x81), Exactly(b[i + 1]), Any, Any, Any, Any] + Signature(b[i + 6..])
            else
              Signature(b[i..]) == [Exactly(op)] + Signature(b[i + 1..])
  {
    hide Signature, HighFive;
    SignatureUnfolds(b, i);
    var rest := b[i..];
    assert rest[0] == b[i] && (|rest| > 1 ==> rest[1] == b[i + 1]);
    var p := SigPiece(rest);
    assert b[i..i + 1] == [b[i]];
    if p.keep == 2 {
      assert b[i..i + 2] == [b[i], b[i + 1]];
    }
    assert AnyBytes(4) == [Any, Any, Any, Any] && AnyBytes(0) == [];
  }

  lemma Regroup(a: seq<Token>, b: seq<Token>, c: seq<Token>)
    ensures a + b + c == a + (b + c)
  {
  }

  /** The token loop of make_sig. */
  method Sign(b: seq<byte>) returns (sig: seq<Token>)
    ensures sig == Signature(b)
  {
    hide Signature, HighFive;
    sig := [];
    var i := 0;
    while i < |b|
      invariant 0 <= i <= |b|
      invariant sig + Signature(b[i..]) == Signature(b)
    {
      var op := b[i];
      var tokens;
      SignatureByBranch(b, i);
      if op == 0xE8 && i + 5 <= |b| {
        tokens := [Exactly(0xE8), Any, Any, Any, Any];
        i := i + 5;
      } else if op == 0x05 && i + 5 <= |b| {
        tokens := [Exactly(0x05), Any, Any, Any, Any];
        i := i + 5;
      } else if op == 0x81 && i + 6 <= |b| && HighFive(b[i + 1]) == 0xC0 {
        tokens := [Exactly(0x81), Exactly(b[i + 1]), Any, Any, Any, Any];
        i := i + 6;
      } else {
        tokens := [Exactly(op)];
        i := i + 1;
      }
      Regroup(sig, tokens, Signature(b[i..]));
      sig := sig + tokens;
    }
    assert Signature(b[i..]) == [];
  }

  /** make_sig: nothing for an address outside every section, otherwise the signature of the
      bytes there, as read through the first section that holds the address. */
  method MakeSig(data: seq<byte>, sections: seq<Section>, vaddr: nat, n: nat) returns (sig: seq<Token>)
    ensures (forall s :: s in sections ==> s.addr == 0 || vaddr < s.addr || s.addr + s.size <= vaddr) ==> sig == []
    ensures forall k :: 0 <= k < |sections| && sections[k].addr != 0
                        && sections[k].addr <= vaddr < sections[k].addr + sections[k].size
                        && (forall j :: 0 <= j < k ==> !Holds(sections[j], vaddr)) ==>
              var at := sections[k].offset + (vaddr - sections[k].addr);
              sig == Signature(if at + n <= |data| then data[at..at + n] else if at <= |data| then data[at..] else [])
  {
    hide Signature, Slice;
    var k := 0;
    while k < |sections| && !Holds(sections[k], vaddr)
      invariant 0 <= k <= |sections|
      invariant forall j :: 0 <= j < k ==> !Holds(sections[j], vaddr)
    {
      k := k + 1;
    }
    if k == |sections| {
      return [];
    }
    var at := sections[k].offset + (vaddr - sections[k].addr);
    SliceIs(data, at, n);
    sig := Sign(Slice(data, at, n));
  }

  // ---- the function around an address ----

  /** The bounds of a function, from its frame description entry. */
  datatype Fde = Fde(lo: nat, hi: nat)

  predicate Around(f: Fde, a: nat) {
    f.lo <= a < f.hi
  }

  /** Sorted by start, as the entries are kept. */
  predicate Ascending(table: seq<Fde>) {
    forall i, j :: 0 <= i < j < |table| ==> table[i].lo <= table[j].lo
  }

  /** bisect_right on the starts. */
  function BisectRight(table: seq<Fde>, a: nat, lo: nat, hi: nat): (i: nat)
    requires Ascending(table) && lo <= hi <= |table|
    requires forall k :: 0 <= k < lo ==> table[k].lo <= a
    requires forall k :: hi <= k < |table| ==> a < table[k].lo
    ensures i <= |table|
    ensures forall k :: 0 <= k < |table| ==> (table[k].lo <= a <==> k < i)
    decreases hi - lo
  {
    if lo == hi then lo else
      var mid := (lo + hi) / 2;
      if a < table[mid].lo then BisectRight(table, a, lo, mid) else BisectRight(table, a, mid + 1, hi)
  }

  function FdeFor(table: seq<Fde>, a: nat): Option<Fde>
    requires Ascending(table)
  {
    var n := BisectRight(table, a, 0, |table|);
    if n > 0 && Around(table[n - 1], a) then Some(table[n - 1]) else None
  }

  /** What is found is in the table and around the address. */
  lemma FdeForIsAround(table: seq<Fde>, a: nat)
    requires Ascending(table)
    ensures FdeFor(table, a).Some? ==>
              var f := FdeFor(table, a).value; f in table && f.lo <= a < f.hi
  {
  }

  function Max(a: nat, b: nat): nat {
    if a >= b then a else b
  }

  /** Function i goes on behind the end of the later function j, before the next one starts. */
  predicate Gap(table: seq<Fde>, i: nat, j: nat)
    requires i < j < |table|
  {
    && table[j].hi < table[i].hi && table[j].lo < table[i].hi
    && (j + 1 < |table| ==> Max(table[j].lo, table[j].hi) < table[j + 1].lo)
  }

  predicate HasGap(table: seq<Fde>) {
    exists i, j :: 0 <= i < j < |table| && Gap(table, i, j)
  }

  predicate Covered(table: seq<Fde>, a: nat) {
    exists k :: 0 <= k < |table| && Around(table[k], a)
  }

  /** Every address inside some function is found exactly if the table has no gap. */
  lemma LookupIsComplete(table: seq<Fde>)
    requires Ascending(table)
    ensures !HasGap(table) <==> forall a: nat :: Covered(table, a) ==> FdeFor(table, a).Some?
  {
    if i, j :| 0 <= i < j < |table| && Gap(table, i, j) {
      GapIsMissed(table, i, j);
    } else {
      forall a: nat | Covered(table, a) ensures FdeFor(table, a).Some? {
        var k :| 0 <= k < |table| && Around(table[k], a);
        MissedIsGap(table, k, a);
      }
    }
  }

  lemma GapIsMissed(table: seq<Fde>, i: nat, j: nat)
    requires Ascending(table) && i < j < |table| && Gap(table, i, j)
    ensures var a := Max(table[j].lo, table[j].hi); Covered(table, a) && FdeFor(table, a).None?
  {
    var a := Max(table[j].lo, table[j].hi);
    var n := BisectRight(table, a, 0, |table|);
    assert j < n && n <= j + 1;
    assert Around(table[i], a);
  }

  lemma MissedIsGap(table: seq<Fde>, k: nat, a: nat)
    requires Ascending(table) && k < |table| && Around(table[k], a)
    ensures FdeFor(table, a).Some? || HasGap(table)
  {
    var n := BisectRight(table, a, 0, |table|);
    assert k < n;
    if FdeFor(table, a).None? {
      assert k < n - 1 && table[n - 1].lo <= a;
      assert Gap(table, k, n - 1);
    }
  }

  /** A table with a gap: an outer function behind a nested one. */
  lemma NestedFunctionHidesOuter()
    ensures var table := [Fde(0, 100), Fde(10, 20)];
            && Ascending(table) && HasGap(table) && Around(table[0], 50) && FdeFor(table, 50) == None
  {
    var table := [Fde(0, 100), Fde(10, 20)];
    assert Gap(table, 0, 1);
  }
}
