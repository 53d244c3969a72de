/** Protobuf packets of src/Hook/Hooks_NetPacket.cpp: a message type with its flag, a header and
    a body behind eight bytes.  Received packets are rewritten into a ring of eight slots or
    shrunk where they lie. */
module PacketFrames {
  import opened Outcomes
  import opened Bytes

  const TWO32 := 0x1_0000_0000
  const PROTO_FLAG := 0x8000_0000
  const HEADER := 8
  const MAX_HEADER := 1024
  const MAX_BODY := 65536
  const MAX_PACKET := HEADER + MAX_HEADER + MAX_BODY
  const SLOTS := 8

  /** The word at an offset of a packet. */
  function Word(data: seq<byte>, at: nat): nat
    requires at + 4 <= |data|
  {
    FromLE(data[at..at + 4])
  }

  /** A packet of this type, header and body. */
  function FrameBytes(eMsg: nat, header: seq<byte>, body: seq<byte>): seq<byte> {
    ToLE(eMsg + PROTO_FLAG, 4) + ToLE(|header|, 4) + header + body
  }

  datatype Unpacked = Unpacked(eMsg: nat, cbHdr: nat, off: nat)

  /** UnpackRaw: the message type, the header length, and the offset of the body, added in 32 bits. */
  function Unpack(data: seq<byte>): Option<Unpacked> {
    if |data| < HEADER then None
    else if Word(data, 0) < PROTO_FLAG then None
    else
      var off := (HEADER + Word(data, 4)) % TWO32;
      if off > |data| then None else Some(Unpacked(Word(data, 0) - PROTO_FLAG, Word(data, 4), off))
  }

  /** The sum of the sizes in front of the body does not fit in 32 bits. */
  predicate HeaderWraps(data: seq<byte>) {
    |data| >= HEADER && HEADER + Word(data, 4) >= TWO32
  }

  lemma WordOfFrame(eMsg: nat, header: seq<byte>, body: seq<byte>)
    requires eMsg < PROTO_FLAG && |header| < TWO32
    ensures var d := FrameBytes(eMsg, header, body);
            && |d| == HEADER + |header| + |body|
            && Word(d, 0) == eMsg + PROTO_FLAG && Word(d, 4) == |header|
            && d[HEADER..HEADER + |header|] == header && d[HEADER + |header|..] == body
  {
    var d := FrameBytes(eMsg, header, body);
    Pow256Four();
    FromToLE(eMsg + PROTO_FLAG, 4);
    FromToLE(|header|, 4);
    assert d[0..4] == ToLE(eMsg + PROTO_FLAG, 4) && d[4..8] == ToLE(|header|, 4);
  }

  /** Exactly which bytes unpack: eight or more, the highest bit of the first word set, and the
      header, whose length is the second word, not beyond the end. */
  lemma UnpackIs(data: seq<byte>)
    ensures Unpack(data).Some? <==>
            |data| >= 8 && data[3] >= 0x80 && (8 + FromLE(data[4..8])) % 0x1_0000_0000 <= |data|
    ensures Unpack(data).Some? ==>
              var u := Unpack(data).value;
              && u.eMsg == FromLE(data[0..3] + [data[3] - 0x80]) && u.cbHdr == FromLE(data[4..8])
              && u.off == (8 + u.cbHdr) % 0x1_0000_0000
  {
    if |data| >= 8 {
      Pow256Four();
      var low, high := data[0..3], data[3];
      assert data[0..4] == low + [high];
      FromLESplit(low, [high]);
      if high >= 0x80 {
        FromLESplit(low, [high - 0x80]);
      }
    }
  }

  lemma Pow256Four()
    ensures Pow256(4) == TWO32
  {
    assert Pow256(2) == 0x1_0000;
  }

  /** Unpacking undoes packing. */
  lemma UnpackUndoesPack(eMsg: nat, header: seq<byte>, body: seq<byte>)
    requires eMsg < PROTO_FLAG && HEADER + |header| < TWO32
    ensures Unpack(FrameBytes(eMsg, header, body)) == Some(Unpacked(eMsg, |header|, HEADER + |header|))
  {
    WordOfFrame(eMsg, header, body);
  }

  /** Conversely, what unpacks without wrapping is the packet of its parts. */
  lemma UnpackIsFrame(data: seq<byte>)
    requires Unpack(data).Some? && !HeaderWraps(data)
    ensures var u := Unpack(data).value;
            && u.eMsg < PROTO_FLAG && u.off == HEADER + u.cbHdr <= |data|
            && data == FrameBytes(u.eMsg, data[HEADER..u.off], data[u.off..])
  {
    var u := Unpack(data).value;
    Pow256Four();
    ToFromLE(data[0..4]);
    ToFromLE(data[4..8]);
    assert data == data[0..4] + data[4..8] + data[HEADER..u.off] + data[u.off..];
  }

  /** A packet is a frame exactly when it unpacks and its header length does not wrap. */
  lemma FrameIffUnpacks(data: seq<byte>)
    requires |data| < TWO32
    ensures Unpack(data).Some? && !HeaderWraps(data) <==>
            exists eMsg: nat, header: seq<byte>, body: seq<byte> ::
              eMsg < PROTO_FLAG && data == FrameBytes(eMsg, header, body)
  {
    if Unpack(data).Some? && !HeaderWraps(data) {
      UnpackIsFrame(data);
    }
    if eMsg: nat, header: seq<byte>, body: seq<byte> :| eMsg < PROTO_FLAG && data == FrameBytes(eMsg, header, body) {
      WordOfFrame(eMsg, header, body);
      UnpackUndoesPack(eMsg, header, body);
    }
  }

  // ---- the ring of slots ----

  function Slot(n: nat): nat {
    (n % SLOTS) * MAX_PACKET
  }

  /** A packet as the client holds it: a stretch of some memory. */
  class NetPacket {
    var data: array<byte>
    var at: nat
    var len: nat

    ghost predicate Valid()
      reads this
    {
      at + len <= data.Length
    }

    ghost function Contents(): seq<byte>
      requires Valid()
      reads this, data
    {
      data[at..at + len]
    }
  }

  /** The slot of frame n holds it. */
  predicate Holds(data: seq<byte>, n: nat, frame: seq<byte>) {
    |frame| <= MAX_PACKET && Slot(n) + |frame| <= |data| && data[Slot(n)..Slot(n) + |frame|] == frame
  }

  /** The last eight frames are intact. */
  predicate RingHolds(data: seq<byte>, history: seq<seq<byte>>) {
    |data| == 8 * 66568 && forall n :: 0 <= n < |history| <= n + 8 ==> Holds(data, n, history[n])
  }

  lemma RingKeeps(data: seq<byte>, history: seq<seq<byte>>, frame: seq<byte>)
    requires RingHolds(data, history) && |frame| <= MAX_PACKET
    ensures Slot(|history|) + |frame| <= |data|
    ensures RingHolds(Patch(data, Slot(|history|), frame), history + [frame])
  {
    var m := |history|;
    var after, all := Patch(data, Slot(m), frame), history + [frame];
    PatchSlices(data, Slot(m), frame);
    forall n | 0 <= n < |all| <= n + SLOTS ensures Holds(after, n, all[n]) {
      if n < m {
        assert Holds(data, n, history[n]);
        OtherSlot(data, frame, m, n, history[n]);
      }
    }
  }

  /** The slots of two frames fewer than eight apart do not overlap. */
  lemma OtherSlot(data: seq<byte>, frame: seq<byte>, m: nat, n: nat, held: seq<byte>)
    requires |data| == SLOTS * MAX_PACKET && n < m < n + SLOTS && |frame| <= MAX_PACKET && Holds(data, n, held)
    ensures Slot(m) + |frame| <= |data| && Holds(Patch(data, Slot(m), frame), n, held)
  {
    assert m % SLOTS != n % SLOTS;
    var p := Patch(data, Slot(m), frame);
    assert p[Slot(n)..Slot(n) + |held|] == data[Slot(n)..Slot(n) + |held|];
  }

  lemma FourCopies(data: seq<byte>, at: nat, a: seq<byte>, b: seq<byte>, c: seq<byte>, d: seq<byte>)
    requires at + |a| + |b| + |c| + |d| <= |data|
    ensures Patch(Patch(Patch(Patch(data, at, a), at + |a|, b), at + |a| + |b|, c), at + |a| + |b| + |c|, d)
            == Patch(data, at, a + b + c + d)
  {
    PatchTwice(data, at, a, b);
    PatchTwice(data, at, a + b, c);
    PatchTwice(data, at, a + b + c, d);
  }

  class PacketPool {
    const pool: array<byte>
    var idx: nat
    /** Every frame put into the pool so far. */
    ghost var history: seq<seq<byte>>

    ghost predicate Valid()
      reads this, pool
    {
      idx == |history| % SLOTS && RingHolds(pool[..], history)
    }

    constructor ()
      ensures Valid() && history == [] && fresh(pool)
    {
      pool := new byte[SLOTS * MAX_PACKET](_ => 0);
      idx, history := 0, [];
    }

    method Assemble(at: nat, flagged: seq<byte>, header: seq<byte>, body: seq<byte>)
      requires |flagged| == 4 && at + HEADER + |header| + |body| <= pool.Length
      modifies pool
      ensures pool[..] == Patch(old(pool[..]), at, flagged + ToLE(|header|, 4) + header + body)
    {
      hide Patch;
      MemCopy(pool, at, flagged);
      MemCopy(pool, at + 4, ToLE(|header|, 4));
      MemCopy(pool, at + HEADER, header);
      MemCopy(pool, at + HEADER + |header|, body);
      FourCopies(old(pool[..]), at, flagged, ToLE(|header|, 4), header, body);
    }

    /** Assemble a frame in the next slot, if it fits one.  The last eight frames stay intact. */
    method Put(flagged: seq<byte>, header: seq<byte>, body: seq<byte>) returns (slot: Option<nat>)
      requires Valid() && |flagged| == 4 && HEADER + |header| + |body| < TWO32
      modifies this, pool
      ensures Valid()
      ensures slot.Some? <==> HEADER + |header| + |body| <= MAX_PACKET
      ensures slot.None? ==> history == old(history) && pool[..] == old(pool[..])
      ensures slot.Some? ==> slot.value == Slot(|old(history)|)
                             && history == old(history) + [flagged + ToLE(|header|, 4) + header + body]
    {
      hide Patch, RingHolds, ToLE;
      var newSize := (HEADER + |header| + |body|) % TWO32;
      if newSize > MAX_PACKET {
        return None;
      }
      var at := idx * MAX_PACKET;
      ghost var frame := flagged + ToLE(|header|, 4) + header + body;
      RingKeeps(pool[..], history, frame);
      Assemble(at, flagged, header, body);
      history := history + [frame];
      idx := (idx + 1) % SLOTS;
      slot := Some(at);
    }
  }

  // ---- rewriting a received packet ----

  /** What the handlers left in the flags and buffers: a new header, a new body, or a body
      they shrank in place. */
  datatype Rewrite = Rewrite(header: Option<seq<byte>>, body: Option<seq<byte>>, shrunk: Option<seq<byte>>)

  function NewHeader(w: Rewrite, header: seq<byte>): seq<byte> {
    if w.header.Some? then w.header.value else header
  }

  /** The shrunk body goes before a new one. */
  function NewBody(w: Rewrite, body: seq<byte>): seq<byte> {
    if w.shrunk.Some? then w.shrunk.value else if w.body.Some? then w.body.value else body
  }

  /** Is the packet moved to a slot of the ring? */
  predicate NeedsSlot(w: Rewrite) {
    w.header.Some? || (w.shrunk.None? && w.body.Some?)
  }

  predicate FitsSlot(header: seq<byte>, body: seq<byte>) {
    HEADER + |header| + |body| <= MAX_PACKET
  }

  /** What the packet holds after the rewrite.  When a replacement does not fit a slot the
      packet keeps its length, and a body already shrunk in place keeps its old tail. */
  function Rewritten(w: Rewrite, eMsg: nat, header: seq<byte>, body: seq<byte>): seq<byte> {
    if !NeedsSlot(w) || FitsSlot(NewHeader(w, header), NewBody(w, body)) then
      FrameBytes(eMsg, NewHeader(w, header), NewBody(w, body))
    else if w.shrunk.Some? && |w.shrunk.value| <= |body| then
      FrameBytes(eMsg, header, w.shrunk.value + body[|w.shrunk.value|..])
    else FrameBytes(eMsg, header, body)
  }

  /** Overwriting the front of the body of a frame. */
  lemma ShrunkInPlace(data: seq<byte>, at: nat, len: nat, eMsg: nat, header: seq<byte>, body: seq<byte>,
                      shrunk: seq<byte>)
    requires at + len <= |data| && data[at..at + len] == FrameBytes(eMsg, header, body) && |shrunk| <= |body|
    ensures len == HEADER + |header| + |body|
    ensures var after := Patch(data, at + HEADER + |header|, shrunk);
            after[at..at + len] == FrameBytes(eMsg, header, shrunk + body[|shrunk|..])
  {
    var pre, o, k := FrameBytes(eMsg, header, []), at + HEADER + |header|, |shrunk|;
    assert FrameBytes(eMsg, header, body) == pre + body;
    assert FrameBytes(eMsg, header, shrunk + body[k..]) == pre + (shrunk + body[k..]);
    Middle(data, at, len, pre, body, shrunk);
  }

  lemma Middle(data: seq<byte>, at: nat, len: nat, pre: seq<byte>, body: seq<byte>, front: seq<byte>)
    requires at + len <= |data| && data[at..at + len] == pre + body && |front| <= |body|
    ensures Patch(data, at + |pre|, front)[at..at + len] == pre + (front + body[|front|..])
  {
    var o, k := at + |pre|, |front|;
    assert data[at..o] == (pre + body)[..|pre|] == pre;
    assert data[o + k..at + len] == (pre + body)[|pre| + k..] == body[k..];
  }

  /** A shorter stretch of a frame with a shrunk body is the frame of the shrunk body. */
  lemma CutShort(eMsg: nat, header: seq<byte>, shrunk: seq<byte>, tail: seq<byte>)
    ensures FrameBytes(eMsg, header, shrunk + tail)[..HEADER + |header| + |shrunk|] == FrameBytes(eMsg, header, shrunk)
  {
  }

  /** Point the packet at a new frame in the ring, if that fits; else leave it alone. */
  method MoveToSlot(p: NetPacket, ring: PacketPool, eMsg: nat, header: seq<byte>, body: seq<byte>)
    requires p.Valid() && ring.Valid() && HEADER + |header| + |body| < TWO32
    modifies p, ring, ring.pool
    ensures p.Valid() && ring.Valid()
    ensures if FitsSlot(header, body)
            then p.data == ring.pool && p.Contents() == FrameBytes(eMsg, header, body)
                 && ring.history == old(ring.history) + [p.Contents()]
            else p.data == old(p.data) && p.at == old(p.at) && p.len == old(p.len) && ring.history == old(ring.history)
                 && ring.pool[..] == old(ring.pool[..])
  {
    var slot := ring.Put(ToLE(eMsg + PROTO_FLAG, 4), header, body);
    if slot.Some? {
      ghost var n := |ring.history| - 1;
      assert Holds(ring.pool[..], n, ring.history[n]);
      p.data, p.at, p.len := ring.pool, slot.value, HEADER + |header| + |body|;
      assert p.Contents() == ring.pool[..][slot.value..slot.value + p.len];
    }
  }

  /** The serialisation of a smaller body over the old one. */
  method Overwrite(p: NetPacket, off: nat, shrunk: seq<byte>, ghost eMsg: nat, ghost header: seq<byte>,
                   ghost body: seq<byte>)
    requires p.Valid() && p.Contents() == FrameBytes(eMsg, header, body) && |shrunk| <= |body|
             && off == HEADER + |header|
    modifies p.data
    ensures p.Contents() == FrameBytes(eMsg, header, shrunk + body[|shrunk|..])
  {
    assert p.Contents() == p.data[..][p.at..p.at + p.len];
    ShrunkInPlace(p.data[..], p.at, p.len, eMsg, header, body, shrunk);
    MemCopy(p.data, p.at + off, shrunk);
    assert p.Contents() == p.data[..][p.at..p.at + p.len];
  }

  /** The rewrite at the end of the receive hook, for a packet that unpacked: the body and the
      header that were meant, in a slot or in place, whenever they fit. */
  method RewriteReceived(p: NetPacket, ring: PacketPool, w: Rewrite, ghost header: seq<byte>, ghost body: seq<byte>,
                         ghost eMsg: nat)
    requires p.Valid() && ring.Valid() && p.data != ring.pool
    requires eMsg < PROTO_FLAG && p.Contents() == FrameBytes(eMsg, header, body) && p.len < TWO32
    requires w.shrunk.Some? ==> |w.shrunk.value| <= |body|
    requires HEADER + |NewHeader(w, header)| + |NewBody(w, body)| < TWO32
    modifies p, p.data, ring, ring.pool
    ensures p.Valid() && ring.Valid() && p.Contents() == Rewritten(w, eMsg, header, body)
    ensures var h, b := if w.header.Some? then w.header.value else header,
                        if w.shrunk.Some? then w.shrunk.value else if w.body.Some? then w.body.value else body;
            if (w.header == None && (w.shrunk.Some? || w.body == None)) || 8 + |h| + |b| <= 66568 then
              Carries(p.Contents(), eMsg, h, b)
            else
              Carries(p.Contents(), eMsg, header, if w.shrunk.Some? then b + body[|b|..] else body)
    ensures ring.history == if NeedsSlot(w) && FitsSlot(NewHeader(w, header), NewBody(w, body))
                            then old(ring.history) + [p.Contents()] else old(ring.history)
  {
    hide FrameBytes, PacketPool.Valid, Word, Carries;
    var packet := p.data[p.at..p.at + p.len];
    assert packet == p.Contents();
    FrameSize(eMsg, header, body);
    RewrittenUnpacks(w, eMsg, header, body);
    WordOfFrame(eMsg, header, body);
    var kind, off := Word(packet, 0) - PROTO_FLAG, HEADER + Word(packet, 4);
    assert kind == eMsg && packet[HEADER..off] == header && packet[off..] == body;
    if w.shrunk.Some? {
      RewriteShrunk(p, ring, w, kind, off, header, body);
    } else if w.header.Some? || w.body.Some? {
      var newHeader := if w.header.Some? then w.header.value else packet[HEADER..off];
      var newBody := if w.body.Some? then w.body.value else packet[off..];
      assert newHeader == NewHeader(w, header) && newBody == NewBody(w, body);
      MoveToSlot(p, ring, kind, newHeader, newBody);
    }
  }

  /** The branches for a body shrunk in place. */
  method RewriteShrunk(p: NetPacket, ring: PacketPool, w: Rewrite, eMsg: nat, off: nat, ghost header: seq<byte>,
                       ghost body: seq<byte>)
    requires p.Valid() && ring.Valid() && p.data != ring.pool
    requires p.Contents() == FrameBytes(eMsg, header, body) && off == HEADER + |header|
    requires w.shrunk.Some? && |w.shrunk.value| <= |body| && HEADER + |NewHeader(w, header)| + |w.shrunk.value| < TWO32
    modifies p, p.data, ring, ring.pool
    ensures p.Valid() && ring.Valid() && p.Contents() == Rewritten(w, eMsg, header, body)
    ensures ring.history == if NeedsSlot(w) && FitsSlot(NewHeader(w, header), NewBody(w, body))
                            then old(ring.history) + [p.Contents()] else old(ring.history)
  {
    hide FrameBytes;
    FrameSize(eMsg, header, body);
    Overwrite(p, off, w.shrunk.value, eMsg, header, body);
    if w.header.Some? {
      MoveToSlot(p, ring, eMsg, w.header.value, w.shrunk.value);
    } else {
      var end := off + |w.shrunk.value|;
      CutShort(eMsg, header, w.shrunk.value, body[|w.shrunk.value|..]);
      assert p.Contents()[..end] == p.data[p.at..p.at + end];
      p.len := end;
    }
  }

  lemma FrameSize(eMsg: nat, header: seq<byte>, body: seq<byte>)
    ensures |FrameBytes(eMsg, header, body)| == HEADER + |header| + |body|
  {
  }

  /** A packet with this message type, header and body. */
  predicate Carries(data: seq<byte>, eMsg: nat, header: seq<byte>, body: seq<byte>) {
    && Unpack(data) == Some(Unpacked(eMsg, |header|, 8 + |header|))
    && |data| == 8 + |header| + |body| && data[8..8 + |header|] == header && data[8 + |header|..] == body
  }

  /** Such a packet is told apart from all others by what it carries. */
  lemma CarriesIsFrame(data: seq<byte>, eMsg: nat, header: seq<byte>, body: seq<byte>)
    requires eMsg < PROTO_FLAG && 8 + |header| < TWO32
    ensures Carries(data, eMsg, header, body) <==> data == FrameBytes(eMsg, header, body)
  {
    if Carries(data, eMsg, header, body) {
      UnpackIsFrame(data);
    }
    UnpackUndoesPack(eMsg, header, body);
    WordOfFrame(eMsg, header, body);
  }

  /** What a received packet carries after a rewrite: the new header if one was given; the body
      that was shrunk in place, or else the new one if one was given.  A packet that is moved
      must fit a slot of 66568 bytes; otherwise it carries what it did, except that a body shrunk
      already stands in front of what is left of the old one. */
  lemma RewrittenUnpacks(w: Rewrite, eMsg: nat, header: seq<byte>, body: seq<byte>)
    requires eMsg < PROTO_FLAG && 8 + |header| < TWO32 && (w.shrunk.Some? ==> |w.shrunk.value| <= |body|)
    ensures var h, b := if w.header.Some? then w.header.value else header,
                        if w.shrunk.Some? then w.shrunk.value else if w.body.Some? then w.body.value else body;
            var d := Rewritten(w, eMsg, header, body);
            var inPlace := w.header == None && (w.shrunk.Some? || w.body == None);
            && (inPlace || 8 + |h| + |b| <= 66568 ==> Carries(d, eMsg, h, b))
            && (!inPlace && 8 + |h| + |b| > 66568 ==>
                Carries(d, eMsg, header, if w.shrunk.Some? then b + body[|b|..] else body))
  {
    hide FrameBytes, Carries;
    var mixed := if w.shrunk.Some? then w.shrunk.value + body[|w.shrunk.value|..] else body;
    var h, b := NewHeader(w, header), NewBody(w, body);
    if !NeedsSlot(w) || FitsSlot(h, b) {
      CarriesIsFrame(Rewritten(w, eMsg, header, body), eMsg, h, b);
    } else {
      CarriesIsFrame(Rewritten(w, eMsg, header, body), eMsg, header, mixed);
    }
  }

  /** A rewrite that does not fit leaves the original packet, unless the body had been shrunk
      in place already: then the new body stands in front of what is left of the old one. */
  lemma UnfitRewrite(w: Rewrite, eMsg: nat, header: seq<byte>, body: seq<byte>)
    requires NeedsSlot(w) && !FitsSlot(NewHeader(w, header), NewBody(w, body))
    requires w.shrunk.Some? ==> |w.shrunk.value| <= |body|
    ensures Rewritten(w, eMsg, header, body) == FrameBytes(eMsg, header, body) <==>
            w.shrunk.None? || w.shrunk.value <= body
  {
    if w.shrunk.Some? {
      var k := |w.shrunk.value|;
      var mixed := w.shrunk.value + body[k..];
      assert FrameBytes(eMsg, header, mixed)[HEADER + |header|..] == mixed;
      assert FrameBytes(eMsg, header, body)[HEADER + |header|..] == body;
      assert mixed[..k] == w.shrunk.value;
      assert w.shrunk.value <= body ==> mixed == body;
    }
  }

  /** Such a rewrite is one that the handlers can ask for: a long body that is shrunk and still, with
      the new header, too long for a slot.  The packet that results is neither the one that came
      nor the one that was meant. */
  lemma UnfitHappens() returns (w: Rewrite, header: seq<byte>, body: seq<byte>)
    ensures NeedsSlot(w) && !FitsSlot(NewHeader(w, header), NewBody(w, body))
    ensures w.header.Some? && |w.header.value| <= 1024 && w.shrunk.Some? && |w.shrunk.value| <= |body|
    ensures HEADER + |NewHeader(w, header)| + |NewBody(w, body)| < TWO32
    ensures Rewritten(w, 0, header, body) != FrameBytes(0, header, body)
    ensures Rewritten(w, 0, header, body) != FrameBytes(0, NewHeader(w, header), NewBody(w, body))
  {
    header, body := [], seq(70000, _ => 1);
    w := Rewrite(Some(Zeros(MAX_HEADER)), None, Some(Zeros(66000)));
    assert w.shrunk.value[0] == 0 && body[0] == 1;
    hide FrameBytes;
    UnfitRewrite(w, 0, header, body);
    FrameSize(0, header, w.shrunk.value + body[66000..]);
    FrameSize(0, NewHeader(w, header), NewBody(w, body));
  }
}
