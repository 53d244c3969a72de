/** The debugger connection of tools/ui_probe.py: a reader that takes a byte stream in whatever
    chunks the socket gives, the frames of RFC 6455 sections 5.2 and 5.3 on top of it, and the
    question-and-answer loop on top of those. */
module WebSocket {
  import opened Outcomes
  import opened Bytes

  // ---- big-endian numbers ----

  function FromBE(b: seq<byte>): (n: nat)
    ensures n < Pow256(|b|)
  {
    if b == [] then 0 else FromBE(b[..|b| - 1]) * 0x100 + b[|b| - 1]
  }

  function ToBE(n: nat, width: nat): (b: seq<byte>)
    ensures |b| == width
  {
    if width == 0 then [] else ToBE(n / 0x100, width - 1) + [n % 0x100]
  }

  lemma {:induction false} FromToBE(n: nat, width: nat)
    requires n < Pow256(width)
    ensures FromBE(ToBE(n, width)) == n
  {
    if width > 0 {
      FromToBE(n / 0x100, width - 1);
      assert ToBE(n, width)[..width - 1] == ToBE(n / 0x100, width - 1);
    }
  }

  lemma LastDigit(high: nat, low: byte)
    ensures (high * 0x100 + low) / 0x100 == high && (high * 0x100 + low) % 0x100 == low
  {
  }

  /** The most significant byte comes first. */
  lemma {:induction false} FromBESplit(high: seq<byte>, low: seq<byte>)
    ensures FromBE(high + low) == FromBE(high) * Pow256(|low|) + FromBE(low)
    ensures forall b: byte :: FromBE([b]) == b
  {
    assert forall b: byte :: FromBE([b]) == FromBE([]) * 0x100 + b;
    if low == [] {
      assert high + low == high;
    } else {
      var all, front := high + low, low[..|low| - 1];
      FromBESplit(high, front);
      assert all[..|all| - 1] == high + front;
      Distribute(FromBE(high), Pow256(|front|), FromBE(front));
    }
  }

  lemma Distribute(high: nat, weight: nat, low: nat)
    ensures (high * weight + low) * 0x100 == high * (0x100 * weight) + low * 0x100
  {
  }

  lemma {:induction false} ToFromBE(b: seq<byte>)
    ensures ToBE(FromBE(b), |b|) == b
  {
    if b != [] {
      ToFromBE(b[..|b| - 1]);
      LastDigit(FromBE(b[..|b| - 1]), b[|b| - 1]);
    }
  }

  // ---- masking (section 5.3) ----

  function Pow2(n: nat): nat {
    if n == 0 then 1 else 2 * Pow2(n - 1)
  }

  /** Exclusive or, bit by bit. */
  function BitXor(a: nat, b: nat, width: nat): (r: nat)
    requires a < Pow2(width) && b < Pow2(width)
    ensures r < Pow2(width)
  {
    if width == 0 then 0
    else 2 * BitXor(a / 2, b / 2, width - 1) + if a % 2 == b % 2 then 0 else 1
  }

  lemma {:induction false} XorTwice(a: nat, b: nat, width: nat)
    requires a < Pow2(width) && b < Pow2(width)
    ensures BitXor(BitXor(a, b, width), b, width) == a
    ensures BitXor(a, b, width) == a <==> b == 0
  {
    if width > 0 {
      XorTwice(a / 2, b / 2, width - 1);
      var r := BitXor(a, b, width);
      assert r / 2 == BitXor(a / 2, b / 2, width - 1);
      assert r % 2 == if a % 2 == b % 2 then 0 else 1;
    }
  }

  /** The binary digit of n at place i. */
  function Bit(n: nat, i: nat): nat {
    if i == 0 then n % 2 else Bit(n / 2, i - 1)
  }

  /** Each bit of the result is set exactly if it is set in one of the two numbers. */
  lemma {:induction false} XorBit(a: nat, b: nat, width: nat, i: nat)
    requires a < Pow2(width) && b < Pow2(width) && i < width
    ensures Bit(BitXor(a, b, width), i) == 1 <==> Bit(a, i) != Bit(b, i)
  {
    var r := BitXor(a, b, width);
    assert r / 2 == BitXor(a / 2, b / 2, width - 1);
    assert r % 2 == if a % 2 == b % 2 then 0 else 1;
    if i > 0 {
      XorBit(a / 2, b / 2, width - 1, i - 1);
    }
  }

  function Xor(a: byte, b: byte): byte {
    assert Pow2(8) == 0x100;
    BitXor(a, b, 8)
  }

  type Key = k: seq<byte> | |k| == 4 witness [0, 0, 0, 0]

  /** Every byte against the key, taken around. */
  function Masking(key: Key, data: seq<byte>): (r: seq<byte>)
    ensures |r| == |data|
  {
    seq(|data|, i requires 0 <= i < |data| => Xor(data[i], key[i % 4]))
  }

  lemma MaskingTwice(key: Key, data: seq<byte>)
    ensures Masking(key, Masking(key, data)) == data
  {
    assert Pow2(8) == 0x100;
    var twice := Masking(key, Masking(key, data));
    forall i | 0 <= i < |data| ensures twice[i] == data[i] {
      XorTwice(data[i], key[i % 4], 8);
    }
  }

  /** Masking leaves data alone exactly if the part of the key that is used is zero. */
  lemma MaskingIsIdentity(key: Key, data: seq<byte>)
    ensures Masking(key, data) == data <==> forall i :: 0 <= i < |data| && i < 4 ==> key[i] == 0
  {
    assert Pow2(8) == 0x100;
    var masked := Masking(key, data);
    forall i | 0 <= i < |data| ensures masked[i] == data[i] <==> key[i % 4] == 0 {
      XorTwice(data[i], key[i % 4], 8);
    }
    if masked == data {
      forall i | 0 <= i < |data| && i < 4 ensures key[i] == 0 {
        assert masked[i] == data[i] && i % 4 == i;
      }
    }
    if forall i :: 0 <= i < |data| && i < 4 ==> key[i] == 0 {
      forall i | 0 <= i < |data| ensures masked[i] == data[i] {
        var j := i % 4;
        assert 0 <= j < |data| && j < 4;
      }
    }
  }

  // ---- frames (section 5.2) ----

  /** One frame on the wire: the first byte (final bit, reserved bits and opcode), the masking
      key if there is one, and the payload as it stands there. */
  datatype Frame = Frame(head: byte, key: Option<Key>, wire: seq<byte>) {
    function Opcode(): nat {
      head % 0x10
    }

    /** What the sender meant. */
    function Payload(): seq<byte> {
      match key
      case None => wire
      case Some(k) => Masking(k, wire)
    }
  }

  /** Taking the bytes on the wire for the payload is right exactly for the frames without a key
      and those whose key is zero where it is used.  Servers must not mask (section 5.1), so
      the first is the case for every frame the reader should get. */
  lemma WireIsPayload(f: Frame)
    ensures f.wire == f.Payload() <==>
            f.key.None? || forall i :: 0 <= i < |f.wire| && i < 4 ==> f.key.value[i] == 0
  {
    if f.key.Some? {
      MaskingIsIdentity(f.key.value, f.wire);
    }
  }

  /** The three ways to write the length of a payload. */
  datatype Form = Short | Medium | Long

  function LengthCode(form: Form, n: nat): nat {
    match form
    case Short => n
    case Medium => 126
    case Long => 127
  }

  function LengthWidth(form: Form): nat {
    match form
    case Short => 0
    case Medium => 2
    case Long => 8
  }

  predicate FitsForm(form: Form, n: nat) {
    match form
    case Short => n < 126
    case Medium => n < 0x1_0000
    case Long => n < 0x1_0000_0000_0000_0000
  }

  function LengthBytes(form: Form, n: nat): seq<byte> {
    if form.Short? then [] else ToBE(n, LengthWidth(form))
  }

  function KeyBytes(key: Option<Key>): seq<byte> {
    match key
    case None => []
    case Some(k) => k
  }

  function EncodeFrame(f: Frame, form: Form): seq<byte>
    requires FitsForm(form, |f.wire|)
  {
    [f.head, SecondByte(f, form)] + LengthBytes(form, |f.wire|) + KeyBytes(f.key) + f.wire
  }

  /** The bytes at the front of a stream and what follows them. */
  function Take(s: seq<byte>, n: nat): (r: Option<(seq<byte>, seq<byte>)>)
    ensures r.Some? ==> s == r.value.0 + r.value.1 && |r.value.0| == n
  {
    if n <= |s| then Some((s[..n], s[n..])) else None
  }

  lemma TakeFront(front: seq<byte>, tail: seq<byte>)
    ensures Take(front + tail, |front|) == Some((front, tail))
  {
  }

  datatype Decoded = Decoded(frame: Frame, form: Form, rest: seq<byte>)

  function FormOf(b1: byte): Form {
    if b1 % 0x80 == 126 then Medium else if b1 % 0x80 == 127 then Long else Short
  }

  /** The length of the payload, from the second byte and what follows it. */
  function DecodeLength(b1: byte, s: seq<byte>): (r: Option<(nat, seq<byte>)>)
    ensures r.Some? ==> |r.value.1| <= |s|
  {
    var form := FormOf(b1);
    if form.Short? then Some((b1 % 0x80, s)) else
      match Take(s, LengthWidth(form))
      case None => None
      case Some((bytes, rest)) => Some((FromBE(bytes), rest))
  }

  function DecodeKey(b1: byte, s: seq<byte>): (r: Option<(Option<Key>, seq<byte>)>)
    ensures r.Some? ==> |r.value.1| <= |s|
  {
    if b1 < 0x80 then Some((None, s)) else
      match Take(s, 4)
      case None => None
      case Some((bytes, rest)) => Some((Some(bytes), rest))
  }

  /** The frame at the front of a stream, or nothing if the stream ends inside it. */
  function DecodeFrame(s: seq<byte>): (r: Option<Decoded>)
    ensures r.Some? ==> |r.value.rest| < |s|
  {
    if |s| < 2 then None else
      match DecodeLength(s[1], s[2..])
      case None => None
      case Some((n, afterLength)) =>
        match DecodeKey(s[1], afterLength)
        case None => None
        case Some((key, afterKey)) =>
          match Take(afterKey, n)
          case None => None
          case Some((wire, rest)) => Some(Decoded(Frame(s[0], key, wire), FormOf(s[1]), rest))
  }

  lemma WidthHolds(form: Form)
    ensures Pow256(2) == 0x1_0000 && Pow256(8) == 0x1_0000_0000_0000_0000
  {
    assert Pow256(4) == 0x1_0000_0000;
    assert Pow256(8) == 0x1_0000_0000 * Pow256(4);
  }

  function SecondByte(f: Frame, form: Form): byte
    requires FitsForm(form, |f.wire|)
  {
    LengthCode(form, |f.wire|) + if f.key.Some? then 0x80 else 0
  }

  lemma LengthIsRead(f: Frame, form: Form, tail: seq<byte>)
    requires FitsForm(form, |f.wire|)
    ensures FormOf(SecondByte(f, form)) == form
    ensures DecodeLength(SecondByte(f, form), LengthBytes(form, |f.wire|) + tail) == Some((|f.wire|, tail))
  {
    var n := |f.wire|;
    if form.Short? {
      assert LengthBytes(form, n) + tail == tail;
    } else {
      WidthHolds(form);
      FromToBE(n, LengthWidth(form));
      TakeFront(LengthBytes(form, n), tail);
    }
  }

  lemma KeyIsRead(f: Frame, form: Form, tail: seq<byte>)
    requires FitsForm(form, |f.wire|)
    ensures DecodeKey(SecondByte(f, form), KeyBytes(f.key) + tail) == Some((f.key, tail))
  {
    if f.key.Some? {
      TakeFront(KeyBytes(f.key), tail);
    } else {
      assert KeyBytes(f.key) + tail == tail;
    }
  }

  /** Decoding undoes framing, in each of the three length forms, masked or not, and leaves
      whatever follows the frame. */
  lemma DecodeUndoesEncode(f: Frame, form: Form, tail: seq<byte>)
    requires FitsForm(form, |f.wire|)
    ensures DecodeFrame(EncodeFrame(f, form) + tail) == Some(Decoded(f, form, tail))
  {
    hide DecodeLength, DecodeKey, FormOf, LengthBytes, KeyBytes, SecondByte, Take;
    var s := EncodeFrame(f, form) + tail;
    assert s[0] == f.head && s[1] == SecondByte(f, form);
    assert s[2..] == LengthBytes(form, |f.wire|) + (KeyBytes(f.key) + (f.wire + tail));
    LengthIsRead(f, form, KeyBytes(f.key) + (f.wire + tail));
    KeyIsRead(f, form, f.wire + tail);
    TakeFront(f.wire, tail);
  }

  /** Frames without a key, byte for byte: the length in seven bits, in two bytes behind 126, or
      in eight behind 127, the most significant first. */
  lemma PlainFrame(head: byte, payload: seq<byte>, length: seq<byte>, tail: seq<byte>)
    ensures |payload| < 126 ==>
              DecodeFrame([head, |payload|] + payload + tail) == Some(Decoded(Frame(head, None, payload), Short, tail))
    ensures |payload| < 0x1_0000 ==>
              DecodeFrame([head, 126, |payload| / 0x100, |payload| % 0x100] + payload + tail) ==
              Some(Decoded(Frame(head, None, payload), Medium, tail))
    ensures |length| == 8 && |payload| == FromBE(length) ==>
              DecodeFrame([head, 127] + length + payload + tail) ==
              Some(Decoded(Frame(head, None, payload), Long, tail))
  {
    hide DecodeFrame;
    var f, n := Frame(head, None, payload), |payload|;
    if n < 126 {
      assert EncodeFrame(f, Short) + tail == [head, n] + payload + tail;
      DecodeUndoesEncode(f, Short, tail);
    }
    if n < 0x1_0000 {
      assert ToBE(n, 2) == ToBE(n / 0x100, 1) + [n % 0x100] && ToBE(n / 0x100, 1) == ToBE(0, 0) + [n / 0x100];
      assert EncodeFrame(f, Medium) + tail == [head, 126, n / 0x100, n % 0x100] + payload + tail;
      DecodeUndoesEncode(f, Medium, tail);
    }
    if |length| == 8 && n == FromBE(length) {
      WidthHolds(Long);
      ToFromBE(length);
      assert EncodeFrame(f, Long) + tail == [head, 127] + length + payload + tail;
      DecodeUndoesEncode(f, Long, tail);
    }
  }

  /** A frame with a key has it in front of the payload, and the highest bit of its second byte set. */
  lemma MaskedFrame(head: byte, key: Key, wire: seq<byte>, tail: seq<byte>)
    requires |wire| < 126
    ensures DecodeFrame([head, 0x80 + |wire|] + key + wire + tail) ==
            Some(Decoded(Frame(head, Some(key), wire), Short, tail))
  {
    hide DecodeFrame;
    var f := Frame(head, Some(key), wire);
    assert EncodeFrame(f, Short) + tail == [head, 0x80 + |wire|] + key + wire + tail;
    DecodeUndoesEncode(f, Short, tail);
  }

  /** A masked text frame of one byte: the reader delivers the byte on the wire, not the one that
      was meant. */
  lemma MaskedIsMisread()
    ensures var stream := [0x81, 0x81, 1, 0, 0, 0, 0x40];
            var d := DecodeFrame(stream);
            d.Some? && d.value.rest == [] && d.value.frame.wire == [0x40] && d.value.frame.Payload() == [0x41]
  {
    hide DecodeFrame, Masking;
    MaskedFrame(0x81, [1, 0, 0, 0], [0x40], []);
    assert [0x81, 0x80 + 1] + [1, 0, 0, 0] + [0x40] + [] == [0x81, 0x81, 1, 0, 0, 0, 0x40];
    MaskedByte();
  }

  lemma MaskedByte()
    ensures Masking([1, 0, 0, 0], [0x40]) == [0x41]
  {
    assert Pow2(8) == 0x100 && BitXor(0x20, 0, 7) == 0x20 by {
      XorTwice(0x20, 0, 7);
    }
  }

  lemma LengthWasWritten(b1: byte, s: seq<byte>)
    requires DecodeLength(b1, s).Some?
    ensures var (n, rest) := DecodeLength(b1, s).value;
            && FitsForm(FormOf(b1), n) && LengthCode(FormOf(b1), n) == b1 % 0x80
            && LengthBytes(FormOf(b1), n) + rest == s
  {
    if !FormOf(b1).Short? {
      WidthHolds(FormOf(b1));
      ToFromBE(Take(s, LengthWidth(FormOf(b1))).value.0);
    }
  }

  lemma KeyWasWritten(b1: byte, s: seq<byte>)
    requires DecodeKey(b1, s).Some?
    ensures var (key, rest) := DecodeKey(b1, s).value;
            KeyBytes(key) + rest == s && (key.Some? <==> b1 >= 0x80)
  {
  }

  /** And only frames decode: what was read, framed again, is what the stream began with. */
  lemma EncodeUndoesDecode(s: seq<byte>)
    requires DecodeFrame(s).Some?
    ensures var d := DecodeFrame(s).value;
            FitsForm(d.form, |d.frame.wire|) && EncodeFrame(d.frame, d.form) + d.rest == s
  {
    hide DecodeLength, DecodeKey, FormOf, LengthBytes, LengthCode, FitsForm, KeyBytes;
    var d := DecodeFrame(s).value;
    var (n, afterLength) := DecodeLength(s[1], s[2..]).value;
    LengthWasWritten(s[1], s[2..]);
    KeyWasWritten(s[1], afterLength);
    var afterKey := DecodeKey(s[1], afterLength).value.1;
    assert afterKey == d.frame.wire + d.rest;
    assert s == [s[0], s[1]] + s[2..];
  }

  // ---- the client's own frames ----

  /** The question as evaluate frames it: a final text frame, always masked; a payload beyond
      16 bits of length is not sent at all. */
  function Question(key: Key, payload: seq<byte>): Option<seq<byte>> {
    if |payload| < 126 then Some([0x81, 0x80 + |payload|] + key + Masking(key, payload))
    else if |payload| < 0x1_0000 then Some([0x81, 0x80 + 126] + ToBE(|payload|, 2) + key + Masking(key, payload))
    else None
  }

  /** The other side, reading by the standard, gets one masked text frame whose payload is the
      question, and there is a question for exactly the payloads of up to 16 bits of length. */
  lemma QuestionIsUnderstood(key: Key, payload: seq<byte>, tail: seq<byte>)
    ensures Question(key, payload).Some? <==> |payload| < 0x1_0000
    ensures Question(key, payload).Some? ==>
              var d := DecodeFrame(Question(key, payload).value + tail);
              && d.Some? && d.value.rest == tail
              && d.value.frame.head == 0x81 && d.value.frame.key == Some(key) && d.value.frame.Payload() == payload
  {
    hide DecodeFrame, Masking, ToBE;
    if |payload| < 0x1_0000 {
      var f, form := Frame(0x81, Some(key), Masking(key, payload)), if |payload| < 126 then Short else Medium;
      assert Question(key, payload).value == EncodeFrame(f, form);
      DecodeUndoesEncode(f, form, tail);
      MaskingTwice(key, payload);
    }
  }

  // ---- the answer in a stream ----

  /** What the payload of a message says: an answer to the question with an identifier, some
      other message, or nothing that can be read. */
  datatype Message<+V> = Answer(id: int, value: V) | Other | Unreadable

  datatype Reply<+V> = Got(value: V) | Garbled | Closed

  /** The reply in a stream and the bytes that are left after it.  The payload is taken as it
      stands on the wire: the reader drops a masking key without applying it. */
  function ReplyIn<V>(s: seq<byte>, id: int, parse: seq<byte> -> Message<V>): (Reply<V>, seq<byte>)
    decreases |s|
  {
    match DecodeFrame(s)
    case None => (Closed, [])
    case Some(d) =>
      if d.frame.Opcode() !in {1, 2} then ReplyIn(d.rest, id, parse) else
        match parse(d.frame.wire)
        case Unreadable => (Garbled, d.rest)
        case Other => ReplyIn(d.rest, id, parse)
        case Answer(i, value) => if i == id then (Got(value), d.rest) else ReplyIn(d.rest, id, parse)
  }

  /** A run of frames, each with its length in some form that holds it. */
  predicate Framed(frames: seq<(Frame, Form)>) {
    forall i :: 0 <= i < |frames| ==> FitsForm(frames[i].1, |frames[i].0.wire|)
  }

  function EncodeAll(frames: seq<(Frame, Form)>): seq<byte>
    requires Framed(frames)
  {
    if frames == [] then [] else
      assert FitsForm(frames[0].1, |frames[0].0.wire|);
      EncodeFrame(frames[0].0, frames[0].1) + EncodeAll(frames[1..])
  }

  /** Frames whose opcode is neither that of text (1) nor that of binary data (2), other messages
      and answers to other questions change nothing about the reply to this one. */
  lemma {:induction false} PassedAreSkipped<V>(before: seq<(Frame, Form)>, tail: seq<byte>, id: int,
                                               parse: seq<byte> -> Message<V>)
    requires Framed(before)
    requires forall i :: 0 <= i < |before| && before[i].0.head % 0x10 in {1, 2} ==>
               var m := parse(before[i].0.wire); m == Other || (m.Answer? && m.id != id)
    ensures ReplyIn(EncodeAll(before) + tail, id, parse) == ReplyIn(tail, id, parse)
    decreases before
  {
    hide DecodeFrame, EncodeFrame;
    if before == [] {
      assert EncodeAll(before) + tail == tail;
    } else {
      var g, form := before[0].0, before[0].1;
      var rest := EncodeAll(before[1..]) + tail;
      assert EncodeAll(before) + tail == EncodeFrame(g, form) + rest;
      DecodeUndoesEncode(g, form, rest);
      PassedAreSkipped(before[1..], tail, id, parse);
    }
  }

  /** The first text or binary frame that answers this question gives the reply, the first that
      cannot be read garbles it, and what follows stays unread; if the stream ends before there is
      one, the connection was closed. */
  lemma FirstFrameDecides<V>(before: seq<(Frame, Form)>, f: Frame, form: Form, tail: seq<byte>, id: int,
                             parse: seq<byte> -> Message<V>)
    requires Framed(before) && FitsForm(form, |f.wire|)
    requires forall i :: 0 <= i < |before| && before[i].0.head % 0x10 in {1, 2} ==>
               var m := parse(before[i].0.wire); m == Other || (m.Answer? && m.id != id)
    ensures var r := ReplyIn(EncodeAll(before) + (EncodeFrame(f, form) + tail), id, parse);
            f.head % 0x10 == 1 || f.head % 0x10 == 2 ==>
              && (forall value :: parse(f.wire) == Answer(id, value) ==> r == (Got(value), tail))
              && (parse(f.wire) == Unreadable ==> r == (Garbled, tail))
    ensures DecodeFrame(tail).None? ==> ReplyIn(EncodeAll(before) + tail, id, parse) == (Closed, [])
  {
    hide DecodeFrame, EncodeFrame, EncodeAll;
    PassedAreSkipped(before, EncodeFrame(f, form) + tail, id, parse);
    PassedAreSkipped(before, tail, id, parse);
    DecodeUndoesEncode(f, form, tail);
  }

  /** The usual answer: one whole text frame with the answer to this question. */
  lemma TextFrameIsReply<V>(payload: seq<byte>, tail: seq<byte>, id: int, value: V, parse: seq<byte> -> Message<V>)
    requires |payload| < 126 && parse(payload) == Answer(id, value)
    ensures ReplyIn([0x81, |payload|] + payload + tail, id, parse) == (Got(value), tail)
  {
    hide DecodeFrame;
    PlainFrame(0x81, payload, [], tail);
  }

  // ---- the connection ----

  /** The bytes that a socket still gives: its chunks up to the empty one that says it closed. */
  function Stream(chunks: seq<seq<byte>>): seq<byte> {
    if chunks == [] || chunks[0] == [] then [] else chunks[0] + Stream(chunks[1..])
  }

  function Joined(chunks: seq<seq<byte>>): seq<byte> {
    if chunks == [] then [] else chunks[0] + Joined(chunks[1..])
  }

  /** However a stream is divided into chunks, it is the same stream; nothing behind an empty chunk
      belongs to it. */
  lemma {:induction false} ChunksDoNotMatter(chunks: seq<seq<byte>>)
    requires forall i :: 0 <= i < |chunks| ==> chunks[i] != []
    ensures Stream(chunks) == Joined(chunks)
    ensures forall later :: Stream(chunks + [[]] + later) == Joined(chunks)
  {
    forall later ensures Stream(chunks + [[]] + later) == Joined(chunks) {
      if chunks != [] {
        ChunksDoNotMatter(chunks[1..]);
        assert (chunks + [[]] + later)[1..] == chunks[1..] + [[]] + later;
      }
    }
    if chunks != [] {
      ChunksDoNotMatter(chunks[1..]);
    }
  }

  const BLANK_LINE: seq<byte> := [13, 10, 13, 10]

  function FindBlankLine(s: seq<byte>): (r: Option<nat>)
    ensures r.Some? ==> r.value + 4 <= |s| && s[r.value..r.value + 4] == BLANK_LINE
  {
    if |s| < 4 then None
    else if s[..4] == BLANK_LINE then Some(0)
    else
      match FindBlankLine(s[1..])
      case None => None
      case Some(k) => assert s[1..][k..k + 4] == s[k + 1..k + 5]; Some(k + 1)
  }

  /** It is the first place with carriage return and line feed twice. */
  lemma {:induction false} BlankLineIsFirst(s: seq<byte>)
    ensures var r := FindBlankLine(s);
            && (r.Some? ==> r.value <= |s| && [13, 10, 13, 10] <= s[r.value..])
            && forall k :: 0 <= k <= |s| && (r.Some? ==> k < r.value) ==> !([13, 10, 13, 10] <= s[k..])
  {
    if |s| >= 4 && s[..4] != BLANK_LINE {
      BlankLineIsFirst(s[1..]);
      forall k | 0 < k <= |s| ensures s[1..][k - 1..] == s[k..] {
      }
      assert s[0..] == s;
      assert forall k :: 0 <= k <= |s| ==> k == 0 || s[k..] == s[1..][k - 1..];
    } else if |s| >= 4 {
      assert s[0..] == s;
    }
  }

  /** More bytes do not change where the first blank line is. */
  lemma {:induction false} BlankLineStays(s: seq<byte>, more: seq<byte>)
    requires FindBlankLine(s).Some?
    ensures FindBlankLine(s + more) == FindBlankLine(s)
  {
    assert (s + more)[..4] == s[..4];
    if s[..4] != BLANK_LINE {
      assert (s + more)[1..] == s[1..] + more;
      BlankLineStays(s[1..], more);
    }
  }

  lemma MoveFront(out: seq<byte>, chunk: seq<byte>, n: nat, after: seq<byte>)
    requires n <= |chunk|
    ensures (out + chunk[..n]) + (chunk[n..] + after) == out + ([] + (chunk + after))
  {
  }

  lemma CutFront(buf: seq<byte>, after: seq<byte>, k: nat)
    requires k + 4 <= |buf|
    ensures (buf + after)[..k] == buf[..k] && (buf + after)[k + 4..] == buf[k + 4..] + after
  {
  }

  /** What stands in front of the first line break. */
  function FirstLine(s: seq<byte>): seq<byte> {
    if |s| < 2 then s
    else if s[0] == 13 && s[1] == 10 then []
    else [s[0]] + FirstLine(s[1..])
  }

  /** Does the line contain "101", the status that grants the upgrade? */
  predicate Grants(line: seq<byte>) {
    exists i :: 0 <= i < |line| - 2 && line[i] == 0x31 && line[i + 1] == 0x30 && line[i + 2] == 0x31
  }

  /** The line ends in front of the first carriage return with line feed. */
  lemma {:induction false} FirstLineIs(line: seq<byte>, rest: seq<byte>)
    requires forall i :: 0 <= i < |line| - 1 ==> !(line[i] == 13 && line[i + 1] == 10)
    ensures FirstLine(line + [13, 10] + rest) == line
  {
    var s := line + [13, 10] + rest;
    if line != [] {
      FirstLineIs(line[1..], rest);
      assert s[1..] == line[1..] + [13, 10] + rest;
      assert s[1] == if |line| > 1 then line[1] else 13;
    }
  }

  /** The upgrade is granted exactly if the digits 101 stand somewhere in the line. */
  lemma GrantsIf101(line: seq<byte>)
    ensures Grants(line) <==> exists i :: 0 <= i <= |line| && [0x31, 0x30, 0x31] <= line[i..]
  {
    if Grants(line) {
      var i :| 0 <= i < |line| - 2 && line[i] == 0x31 && line[i + 1] == 0x30 && line[i + 2] == 0x31;
      assert [0x31, 0x30, 0x31] <= line[i..];
    }
    if i :| 0 <= i <= |line| && [0x31, 0x30, 0x31] <= line[i..] {
      assert line[i..][0] == line[i] && line[i..][1] == line[i + 1] && line[i..][2] == line[i + 2];
    }
  }

  /** The line does not depend on what came with the response. */
  lemma {:induction false} FirstLineIsInResponse(s: seq<byte>)
    requires FindBlankLine(s).Some?
    ensures FirstLine(s) == FirstLine(s[..FindBlankLine(s).value])
  {
    var k := FindBlankLine(s).value;
    if k > 0 {
      FirstLineIsInResponse(s[1..]);
      assert s[1..][..k - 1] == s[..k][1..];
      assert s[k..k + 4][0] == 13;
    } else {
      assert s[..4][0] == s[0] && s[..4][1] == s[1];
    }
  }

  datatype Handshake = Upgraded(response: seq<byte>) | Refused | HungUp

  class Debugger {
    var incoming: seq<seq<byte>>   // the chunks that the socket will give
    var sent: seq<byte>            // what was sent on it
    var rest: seq<byte>
    var number: nat                // seq, the identifier of the last question

    /** All bytes that are still to be read. */
    ghost function Pending(): seq<byte>
      reads this
    {
      rest + Stream(incoming)
    }

    method Receive() returns (chunk: seq<byte>)
      modifies `incoming
      ensures chunk + Stream(incoming) == Stream(old(incoming))
      ensures chunk == [] ==> Stream(incoming) == []
      ensures |incoming| <= |old(incoming)| && (chunk != [] ==> |incoming| < |old(incoming)|)
    {
      if incoming == [] || incoming[0] == [] {
        return [];
      }
      chunk := incoming[0];
      incoming := incoming[1..];
    }

    /** The end of the handshake: everything up to the first blank line is the response, and what
        came with it beyond that is kept. */
    method ReadResponse() returns (r: Handshake)
      modifies `incoming, `rest, `number
      ensures match FindBlankLine(Stream(old(incoming)))
              case None => r == HungUp && Stream(incoming) == []
              case Some(k) =>
                var response := Stream(old(incoming))[..k];
                if Grants(FirstLine(response)) then
                  r == Upgraded(response) && Pending() == Stream(old(incoming))[k + 4..] && number == 0
                else r == Refused
    {
      hide Stream, FindBlankLine, FirstLine, Grants;
      var buf: seq<byte> := [];
      while FindBlankLine(buf).None?
        invariant buf + Stream(incoming) == Stream(old(incoming))
        decreases |incoming|
      {
        var chunk := Receive();
        if chunk == [] {
          assert chunk + Stream(incoming) == [] && buf + [] == buf;
          return HungUp;
        }
        assert buf + (chunk + Stream(incoming)) == buf + chunk + Stream(incoming);
        buf := buf + chunk;
      }
      BlankLineStays(buf, Stream(incoming));
      FirstLineIsInResponse(buf);
      var k := FindBlankLine(buf).value;
      CutFront(buf, Stream(incoming), k);
      if !Grants(FirstLine(buf)) {
        return Refused;
      }
      rest, number := buf[k + 4..], 0;
      return Upgraded(buf[..k]);
    }

    /** The next n bytes, whatever the chunks were; nothing else is lost, except that a connection
        that closes first takes the incomplete rest with it. */
    method Read(n: nat) returns (r: Option<seq<byte>>)
      modifies `incoming, `rest
      ensures match Take(old(Pending()), n)
              case None => r == None && Pending() == []
              case Some((front, tail)) => r == Some(front) && Pending() == tail
    {
      hide Stream;
      var have := if n <= |rest| then n else |rest|;
      var out := rest[..have];
      rest := rest[have..];
      ghost var all := old(Pending());
      while |out| < n
        invariant out + Pending() == all
        invariant |out| <= n && (|out| < n ==> rest == [])
        decreases |incoming|
      {
        var chunk := Receive();
        if chunk == [] {
          return None;
        }
        var need := n - |out|;
        var part := if need <= |chunk| then need else |chunk|;
        MoveFront(out, chunk, part, Stream(incoming));
        out := out + chunk[..part];
        rest := chunk[part..];
      }
      TakeFront(out, Pending());
      return Some(out);
    }

    /** One turn of the receiving loop: exactly the frame at the front of the stream. */
    method ReadFrame() returns (r: Option<(byte, seq<byte>)>)
      modifies `incoming, `rest
      ensures match DecodeFrame(old(Pending()))
              case None => r == None && Pending() == []
              case Some(d) => r == Some((d.frame.head, d.frame.wire)) && Pending() == d.rest
    {
      ghost var s := Pending();
      var head := Read(2);
      if head == None {
        return None;
      }
      var b0, b1 := head.value[0], head.value[1];
      assert s[0] == b0 && s[1] == b1 && s[2..] == Pending();
      var length: nat := b1 % 0x80;
      if length == 126 {
        var bytes := Read(2);
        if bytes == None {
          return None;
        }
        length := FromBE(bytes.value);
      } else if length == 127 {
        var bytes := Read(8);
        if bytes == None {
          return None;
        }
        length := FromBE(bytes.value);
      }
      assert DecodeLength(b1, s[2..]) == Some((length, Pending()));
      if b1 >= 0x80 {
        var key := Read(4);
        if key == None {
          return None;
        }
      }
      var data := Read(length);
      if data == None {
        return None;
      }
      return Some((b0, data.value));
    }

    /** Asking a question and waiting for its answer.  Nothing is returned for a question that is
        too long to be framed, which is not sent. */
    method Evaluate<V>(request: nat -> seq<byte>, key: Key, parse: seq<byte> -> Message<V>)
      returns (r: Option<Reply<V>>)
      modifies this
      ensures number == old(number) + 1
      ensures match Question(key, request(number))
              case None => r == None && sent == old(sent) && Pending() == old(Pending())
              case Some(q) =>
                && sent == old(sent) + q
                && (r, Pending()) ==
                   (Some(ReplyIn(old(Pending()), number, parse).0), ReplyIn(old(Pending()), number, parse).1)
    {
      hide DecodeFrame, Question;
      number := number + 1;
      var question := Question(key, request(number));
      if question == None {
        return None;
      }
      sent := sent + question.value;
      ghost var expected := ReplyIn(Pending(), number, parse);
      while true
        invariant number == old(number) + 1 && sent == old(sent) + question.value
        invariant ReplyIn(Pending(), number, parse) == expected
        decreases |Pending()|
      {
        var frame := ReadFrame();
        if frame == None {
          return Some(Closed);
        }
        var (b0, data) := frame.value;
        if b0 % 0x10 == 1 || b0 % 0x10 == 2 {
          match parse(data) {
            case Unreadable => return Some(Garbled);
            case Other =>
            case Answer(id, value) =>
              if id == number {
                return Some(Got(value));
              }
          }
        }
      }
    }
  }
}
