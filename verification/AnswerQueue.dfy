/** Answering requests locally (src/Hook/Hooks_NetPacket.cpp): the send hook passes a frame on,
    rewritten or not, or suppresses it and queues a response; the receive hook delivers the
    queued responses by borrowing the packet that happens to arrive.  One thread sends and one
    receives; they meet only at the queue, under its lock. */
module AnswerQueue {
  import opened Outcomes
  import opened Bytes
  import opened PacketFrames

  const QUEUE_LIMIT := 64

  /** A response is a packet, correlated to the request by a job id. */
  datatype Response = Response(job: nat, packet: seq<byte>)

  /** What the handlers decide about a request: let it pass, replace its body, or answer it. */
  datatype Handling = Pass | Replace(body: seq<byte>) | Answer(packet: seq<byte>)

  /** A frame to be sent, the job it asks for, and how the handlers will take it. */
  datatype RawRequest = Request(bytes: seq<byte>, job: nat, handling: Handling)

  /** The premise about frames: the header length does not wrap when the size of what stands in
      front of the header is added to it in 32 bits. */
  type Request = q: RawRequest | !HeaderWraps(q.bytes) witness RawRequest.Request([], 0, Pass)

  /** Frames without the protobuf flag, and those cut short, are not looked at. */
  predicate Inspected(q: Request) {
    Unpack(q.bytes).Some?
  }

  /** The bytes that go on the wire when a frame passes: a new body behind the old header, if
      the frame still fits a slot of the ring, and the frame itself otherwise. */
  function Outgoing(q: Request): seq<byte> {
    if Inspected(q) && q.handling.Replace? then
      UnpackIsFrame(q.bytes);
      var u := Unpack(q.bytes).value;
      var header := q.bytes[HEADER..u.off];
      if FitsSlot(header, q.handling.body) then FrameBytes(u.eMsg, header, q.handling.body) else q.bytes
    else q.bytes
  }

  /** A frame whose body is replaced goes out with its type and header and the new body, if that
      makes no more than 66568 bytes, and unchanged otherwise; all other frames go out unchanged. */
  lemma OutgoingIs(q: Request)
    ensures var out := Outgoing(q);
            if Unpack(q.bytes).Some? && q.handling.Replace? then
              var u, body := Unpack(q.bytes).value, q.handling.body;
              && 8 <= u.off <= |q.bytes|
              && if u.off + |body| <= 66568 then
                   Unpack(out) == Some(u) && out[8..u.off] == q.bytes[8..u.off] && out[u.off..] == body
                 else out == q.bytes
            else out == q.bytes
  {
    if Inspected(q) && q.handling.Replace? {
      UnpackIsFrame(q.bytes);
      var u := Unpack(q.bytes).value;
      var header := q.bytes[HEADER..u.off];
      WordOfFrame(u.eMsg, header, q.handling.body);
      UnpackUndoesPack(u.eMsg, header, q.handling.body);
    }
  }

  /** What became of a frame. */
  datatype Fate = Passed(bytes: seq<byte>) | Answered(response: Response) | Dropped

  // ---- the two threads ----

  datatype Sender = Idle | Working(q: Request) | Deciding(q: Request)

  datatype Receiver =
    | Waiting
    | Draining
    | Holding(r: Response)
    | Borrowing(r: Response, saved: seq<byte>)
    | Restoring(saved: seq<byte>)

  /** The threads' positions, the flags of the send hook, the queue, the packet that arrived,
      and what the outside has seen; log is what became of every frame so far, in order. */
  datatype State = State(sender: Sender, suppress: bool, replace: bool,
                         pending: seq<Response>,
                         receiver: Receiver, arrived: seq<byte>, carrier: seq<byte>,
                         wire: seq<seq<byte>>, delivered: seq<Response>, seen: seq<seq<byte>>,
                         log: seq<(Request, Fate)>)

  /** One atomic step of a thread. */
  datatype Action =
    | Submit(q: Request)            // the client calls the send hook
    | Handle                        // the handlers run; the queue is locked while they push
    | Decide                        // suppress, or pass on
    | Arrive(packet: seq<byte>)     // the client calls the receive hook
    | Pop                           // the drain loop takes the first response, or ends
    | Borrow                        // the carrier is pointed at the response
    | Deliver                       // the original receive function runs on the carrier
    | Restore                       // the carrier gets its own data back

  function Enqueue(pending: seq<Response>, r: Response): seq<Response> {
    if |pending| < QUEUE_LIMIT then pending + [r] else pending
  }

  /** A step that its thread is not at does nothing. */
  function Step(s: State, a: Action): State {
    match (a, s.sender, s.receiver)
    case (Submit(q), Idle, _) =>
      if Inspected(q) then s.(sender := Working(q), suppress := false, replace := false)
      else s.(wire := s.wire + [q.bytes], log := s.log + [(q, Passed(q.bytes))])
    case (Handle, Working(q), _) =>
      (match q.handling
       case Pass => s.(sender := Deciding(q))
       case Replace(_) => s.(sender := Deciding(q), replace := true)
       case Answer(packet) =>
         var r := Response(q.job, packet);
         s.(sender := Deciding(q), suppress := true, pending := Enqueue(s.pending, r),
            log := s.log + [(q, if |s.pending| < QUEUE_LIMIT then Answered(r) else Dropped)]))
    case (Decide, Deciding(q), _) =>
      if s.suppress then s.(sender := Idle)
      else
        var bytes := if s.replace then Outgoing(q) else q.bytes;
        s.(sender := Idle, wire := s.wire + [bytes], log := s.log + [(q, Passed(bytes))])
    case (Arrive(packet), _, Waiting) => s.(receiver := Draining, arrived := packet, carrier := packet)
    case (Pop, _, Draining) =>
      if s.pending == [] then s.(receiver := Waiting, seen := s.seen + [s.carrier])
      else s.(receiver := Holding(s.pending[0]), pending := s.pending[1..])
    case (Borrow, _, Holding(r)) => s.(receiver := Borrowing(r, s.carrier), carrier := r.packet)
    case (Deliver, _, Borrowing(r, saved)) =>
      s.(receiver := Restoring(saved), delivered := s.delivered + [Response(r.job, s.carrier)])
    case (Restore, _, Restoring(saved)) => s.(receiver := Draining, carrier := saved)
    case _ => s
  }

  function Run(s: State, actions: seq<Action>): State
    decreases actions
  {
    if actions == [] then s else Run(Step(s, actions[0]), actions[1..])
  }

  predicate Initial(s: State) {
    s.sender.Idle? && s.receiver.Waiting? && s.pending == [] && s.wire == []
    && s.delivered == [] && s.log == [] && s.seen == []
  }

  // ---- what every interleaving keeps ----

  /** The frames of a log that were passed on, as they went out. */
  function Wires(log: seq<(Request, Fate)>): seq<seq<byte>> {
    if log == [] then []
    else Wires(log[..|log| - 1]) + match log[|log| - 1].1 case Passed(bytes) => [bytes] case _ => []
  }

  /** The responses of a log that were queued. */
  function Answers(log: seq<(Request, Fate)>): seq<Response> {
    if log == [] then []
    else Answers(log[..|log| - 1]) + match log[|log| - 1].1 case Answered(r) => [r] case _ => []
  }

  /** The fate a frame may meet: answered only with a response to its own job, dropped only
      if it was to be answered, and otherwise passed on as its handling says. */
  predicate Fair(q: Request, fate: Fate) {
    if Inspected(q) && q.handling.Answer? then fate == Answered(Response(q.job, q.handling.packet)) || fate == Dropped
    else fate == Passed(Outgoing(q))
  }

  /** The response the receive thread holds, between taking it and delivering it. */
  function InHand(s: State): seq<Response> {
    match s.receiver
    case Holding(r) => [r]
    case Borrowing(r, _) => [r]
    case _ => []
  }

  predicate Inv(s: State) {
    && s.wire == Wires(s.log)
    && s.delivered + InHand(s) + s.pending == Answers(s.log)
    && (forall i :: 0 <= i < |s.log| ==> Fair(s.log[i].0, s.log[i].1))
    && |s.pending| <= QUEUE_LIMIT
    && (match s.sender
        case Idle => true
        case Working(q) => Inspected(q) && !s.suppress && !s.replace
        case Deciding(q) => Inspected(q) && s.suppress == q.handling.Answer? && s.replace == q.handling.Replace?)
    && (match s.receiver
        case Waiting => true
        case Draining => s.carrier == s.arrived
        case Holding(_) => s.carrier == s.arrived
        case Borrowing(r, saved) => saved == s.arrived && s.carrier == r.packet
        case Restoring(saved) => saved == s.arrived)
  }

  lemma LogGrows(log: seq<(Request, Fate)>, e: (Request, Fate))
    ensures Wires(log + [e]) == Wires(log) + (match e.1 case Passed(bytes) => [bytes] case _ => [])
    ensures Answers(log + [e]) == Answers(log) + (match e.1 case Answered(r) => [r] case _ => [])
  {
    assert (log + [e])[..|log|] == log;
  }

  lemma SenderKeeps(s: State, a: Action)
    requires Inv(s) && (a.Submit? || a.Handle? || a.Decide?)
    ensures Inv(Step(s, a))
  {
    hide Inspected, Outgoing, Wires, Answers;
    match (a, s.sender)
    case (Submit(q), Idle) =>
      LogGrows(s.log, (q, Passed(q.bytes)));
      Uninspected(q);
    case (Handle, Working(q)) =>
      if q.handling.Answer? {
        var r := Response(q.job, q.handling.packet);
        var fate := if |s.pending| < QUEUE_LIMIT then Answered(r) else Dropped;
        LogGrows(s.log, (q, fate));
        assert s.delivered + InHand(s) + (s.pending + [r]) == s.delivered + InHand(s) + s.pending + [r];
      }
    case (Decide, Deciding(q)) =>
      var bytes := if s.replace then Outgoing(q) else q.bytes;
      LogGrows(s.log, (q, Passed(bytes)));
      Uninspected(q);
    case _ =>
  }

  lemma ReceiverKeeps(s: State, a: Action)
    requires Inv(s) && !(a.Submit? || a.Handle? || a.Decide?)
    ensures Inv(Step(s, a))
  {
    hide Inspected, Outgoing, Wires, Answers;
    match (a, s.receiver)
    case (Pop, Draining) =>
      if s.pending != [] {
        assert s.pending == [s.pending[0]] + s.pending[1..];
      }
    case (Deliver, Borrowing(r, saved)) =>
      assert s.delivered + [r] + s.pending == s.delivered + [r] + [] + s.pending;
    case _ =>
  }

  lemma StepKeeps(s: State, a: Action)
    requires Inv(s)
    ensures Inv(Step(s, a))
  {
    hide Inv;
    if a.Submit? || a.Handle? || a.Decide? {
      SenderKeeps(s, a);
    } else {
      ReceiverKeeps(s, a);
    }
  }

  lemma Uninspected(q: Request)
    ensures !Inspected(q) || !q.handling.Replace? ==> Outgoing(q) == q.bytes
  {
  }

  lemma {:induction false} RunKeeps(s: State, actions: seq<Action>)
    requires Inv(s)
    ensures Inv(Run(s, actions))
    decreases actions
  {
    if actions != [] {
      StepKeeps(s, actions[0]);
      RunKeeps(Step(s, actions[0]), actions[1..]);
    }
  }

  /** A request is to be answered while the queue is full. */
  predicate Overflows(s: State, a: Action) {
    a.Handle? && s.sender.Working? && s.sender.q.handling.Answer? && |s.pending| >= 64
  }

  /** How often that happens in a run. */
  function OverflowCount(s: State, actions: seq<Action>): nat
    decreases actions
  {
    if actions == [] then 0
    else (if Overflows(s, actions[0]) then 1 else 0) + OverflowCount(Step(s, actions[0]), actions[1..])
  }

  function DropCount(log: seq<(Request, Fate)>): nat {
    if log == [] then 0
    else DropCount(log[..|log| - 1]) + if log[|log| - 1].1.Dropped? then 1 else 0
  }

  lemma {:induction false} NoDrops(log: seq<(Request, Fate)>)
    ensures DropCount(log) == 0 <==> forall i :: 0 <= i < |log| ==> !log[i].1.Dropped?
  {
    if log != [] {
      var front := log[..|log| - 1];
      NoDrops(front);
      assert forall i :: 0 <= i < |front| ==> front[i] == log[i];
    }
  }

  lemma DropStep(s: State, a: Action)
    ensures DropCount(Step(s, a).log) == DropCount(s.log) + if Overflows(s, a) then 1 else 0
  {
    hide Inspected, Outgoing;
    var log := Step(s, a).log;
    assert |log| > |s.log| ==> log[..|log| - 1] == s.log;
  }

  /** Requests are dropped -- suppressed without a response -- exactly as often as one is to be
      answered while 64 responses wait. */
  lemma {:induction false} DroppedExactlyWhenFull(s: State, actions: seq<Action>)
    ensures DropCount(Run(s, actions).log) == DropCount(s.log) + OverflowCount(s, actions)
    decreases actions
  {
    hide Step, Overflows;
    if actions != [] {
      DropStep(s, actions[0]);
      DroppedExactlyWhenFull(Step(s, actions[0]), actions[1..]);
    }
  }

  /** Answer or forward, over every interleaving of the two threads: every frame dealt with met
      one fate.  One to be answered was, with a response to its own job, or was dropped; one whose
      body is replaced went out with its type and header and the new body, or unchanged where that
      makes more than 66568 bytes; any other went out unchanged.  None was dropped exactly if no
      request was to be answered while 64 responses waited.  The wire carries exactly the passed
      ones in order; delivered, in hand and pending together are the answers in the order they were
      given; and whenever the receive thread is not borrowing, the carrier has its own data. */
  lemma AnswerOrForward(s: State, actions: seq<Action>)
    requires Initial(s)
    ensures var t := Run(s, actions);
            && (forall i :: 0 <= i < |t.log| ==>
                  var q, fate := t.log[i].0, t.log[i].1;
                  if Unpack(q.bytes).Some? && q.handling.Answer? then
                    fate == Answered(Response(q.job, q.handling.packet)) || fate == Dropped
                  else if Unpack(q.bytes).Some? && q.handling.Replace? then
                    var u, body := Unpack(q.bytes).value, q.handling.body;
                    && fate.Passed? && 8 <= u.off <= |q.bytes|
                    && if u.off + |body| <= 66568 then
                         && Unpack(fate.bytes) == Some(u)
                         && fate.bytes[8..u.off] == q.bytes[8..u.off] && fate.bytes[u.off..] == body
                       else fate.bytes == q.bytes
                  else fate == Passed(q.bytes))
            && (OverflowCount(s, actions) == 0 <==> forall i :: 0 <= i < |t.log| ==> !t.log[i].1.Dropped?)
            && t.wire == Wires(t.log)
            && t.delivered + InHand(t) + t.pending == Answers(t.log)
            && (t.receiver.Draining? || t.receiver.Holding? ==> t.carrier == t.arrived)
  {
    RunKeeps(s, actions);
    DroppedExactlyWhenFull(s, actions);
    var log := Run(s, actions).log;
    NoDrops(log);
    hide Run, Unpack, Outgoing, Fair, OverflowCount, Wires, Answers;
    forall i | 0 <= i < |log| {
      FairIs(log[i].0, log[i].1);
    }
  }

  lemma FairIs(q: Request, fate: Fate)
    requires Fair(q, fate)
    ensures if Unpack(q.bytes).Some? && q.handling.Answer? then
              fate == Answered(Response(q.job, q.handling.packet)) || fate == Dropped
            else if Unpack(q.bytes).Some? && q.handling.Replace? then
              var u, body := Unpack(q.bytes).value, q.handling.body;
              && fate.Passed? && 8 <= u.off <= |q.bytes|
              && if u.off + |body| <= 66568 then
                   && Unpack(fate.bytes) == Some(u)
                   && fate.bytes[8..u.off] == q.bytes[8..u.off] && fate.bytes[u.off..] == body
                 else fate.bytes == q.bytes
            else fate == Passed(q.bytes)
  {
    hide Unpack, Outgoing;
    OutgoingIs(q);
  }

  // ---- every submitted frame is dealt with, once ----

  /** The frames the client has submitted while the send hook was free, in order. */
  function Submitted(s: State, actions: seq<Action>): seq<Request>
    decreases actions
  {
    if actions == [] then []
    else (if actions[0].Submit? && s.sender.Idle? then [actions[0].q] else [])
         + Submitted(Step(s, actions[0]), actions[1..])
  }

  function Frames(log: seq<(Request, Fate)>): seq<Request> {
    seq(|log|, i requires 0 <= i < |log| => log[i].0)
  }

  /** The frame the send hook is at that has met no fate yet. */
  function InWork(s: State): seq<Request> {
    match s.sender
    case Idle => []
    case Working(q) => [q]
    case Deciding(q) => if s.suppress then [] else [q]
  }

  /** The frames with a fate, and the one in work, are the frames submitted: none is lost and
      none is dealt with twice. */
  lemma {:induction false} EveryFrameOnce(s: State, actions: seq<Action>)
    requires Inv(s)
    ensures var t := Run(s, actions);
            Frames(t.log) + InWork(t) == Frames(s.log) + InWork(s) + Submitted(s, actions)
    decreases actions
  {
    hide Inv, Step, Frames, InWork;
    if actions != [] {
      var t := Step(s, actions[0]);
      StepKeeps(s, actions[0]);
      FrameStep(s, actions[0]);
      EveryFrameOnce(t, actions[1..]);
      var first := if actions[0].Submit? && s.sender.Idle? then [actions[0].q] else [];
      var rest := Submitted(t, actions[1..]);
      assert Frames(s.log) + InWork(s) + first + rest == Frames(s.log) + InWork(s) + (first + rest);
    } else {
      assert Frames(s.log) + InWork(s) + [] == Frames(s.log) + InWork(s);
    }
  }

  lemma FrameStep(s: State, a: Action)
    requires Inv(s)
    ensures Frames(Step(s, a).log) + InWork(Step(s, a)) ==
            Frames(s.log) + InWork(s) + (if a.Submit? && s.sender.Idle? then [a.q] else [])
  {
    hide Inspected, Outgoing, Wires, Answers, Fair;
  }

  // ---- the receive hook in the end sees every packet ----

  /** The packets that arrived while the receive hook was free, in order. */
  function Arrived(s: State, actions: seq<Action>): seq<seq<byte>>
    decreases actions
  {
    if actions == [] then []
    else (if actions[0].Arrive? && s.receiver.Waiting? then [actions[0].packet] else [])
         + Arrived(Step(s, actions[0]), actions[1..])
  }

  function InProgress(s: State): seq<seq<byte>> {
    if s.receiver.Waiting? then [] else [s.arrived]
  }

  /** However many responses were borrowed a carrier for, what the receive hook goes on with after
      draining is every packet that arrived, once, in order and with its own data. */
  lemma {:induction false} SeenInOrder(s: State, actions: seq<Action>)
    requires Inv(s)
    ensures var t := Run(s, actions); t.seen + InProgress(t) == s.seen + InProgress(s) + Arrived(s, actions)
    decreases actions
  {
    hide Inv, Step, InProgress;
    if actions != [] {
      var a, t := actions[0], Step(s, actions[0]);
      StepKeeps(s, a);
      SeenStep(s, a);
      SeenInOrder(t, actions[1..]);
      var first := if a.Arrive? && s.receiver.Waiting? then [a.packet] else [];
      assert s.seen + InProgress(s) + first + Arrived(t, actions[1..]) ==
             s.seen + InProgress(s) + (first + Arrived(t, actions[1..]));
    } else {
      assert s.seen + InProgress(s) + [] == s.seen + InProgress(s);
    }
  }

  lemma SeenStep(s: State, a: Action)
    requires Inv(s)
    ensures Step(s, a).seen + InProgress(Step(s, a)) ==
            s.seen + InProgress(s) + if a.Arrive? && s.receiver.Waiting? then [a.packet] else []
  {
    hide Inspected, Outgoing, Wires, Answers, Fair;
  }

  // ---- the hooks as runs of the two threads ----

  function QueueAfter(pending: seq<Response>, q: Request): seq<Response> {
    if Inspected(q) && q.handling.Answer? then Enqueue(pending, Response(q.job, q.handling.packet)) else pending
  }

  function WireAfter(wire: seq<seq<byte>>, q: Request): seq<seq<byte>> {
    if Inspected(q) && q.handling.Answer? then wire else wire + [Outgoing(q)]
  }

  /** One frame adds one to the wire, as OutgoingIs says, unless it is answered. */
  lemma WireAfterIs(wire: seq<seq<byte>>, q: Request)
    ensures var after := WireAfter(wire, q);
            if Unpack(q.bytes).Some? && q.handling.Answer? then after == wire
            else
              && |after| == |wire| + 1 && after[..|wire|] == wire
              && var out := after[|wire|];
                 if Unpack(q.bytes).Some? && q.handling.Replace? then
                   var u, body := Unpack(q.bytes).value, q.handling.body;
                   && 8 <= u.off <= |q.bytes|
                   && if u.off + |body| <= 66568 then
                        Unpack(out) == Some(u) && out[8..u.off] == q.bytes[8..u.off] && out[u.off..] == body
                      else out == q.bytes
                 else out == q.bytes
  {
    hide Unpack, Outgoing;
    OutgoingIs(q);
  }

  /** The send hook at work on one frame, without the other thread. */
  function Sending(q: Request): seq<Action> {
    [Submit(q), Handle, Decide]
  }

  lemma RunThree(s: State, a: Action, b: Action, c: Action)
    ensures Run(s, [a, b, c]) == Step(Step(Step(s, a), b), c)
  {
    hide Step;
    assert [a, b, c][1..] == [b, c] && [b, c][1..] == [c] && [c][1..] == [];
    var s1 := Step(s, a);
    var s2 := Step(s1, b);
    var s3 := Step(s2, c);
    assert Run(s3, []) == s3 && Run(s2, [c]) == s3 && Run(s1, [b, c]) == s3;
  }

  /** What the send hook does to one frame is what the three steps do in a row. */
  lemma SendingIsRun(s: State, q: Request)
    requires s.sender.Idle?
    ensures var t := Run(s, Sending(q));
            && t.sender.Idle? && t.wire == WireAfter(s.wire, q) && t.pending == QueueAfter(s.pending, q)
            && t.delivered == s.delivered && t.seen == s.seen
            && t.receiver == s.receiver && t.arrived == s.arrived && t.carrier == s.carrier
  {
    hide Inspected;
    RunThree(s, Submit(q), Handle, Decide);
  }

  function QueueAfterAll(pending: seq<Response>, qs: seq<Request>): seq<Response> {
    if qs == [] then pending else QueueAfter(QueueAfterAll(pending, qs[..|qs| - 1]), qs[|qs| - 1])
  }

  function WireAfterAll(wire: seq<seq<byte>>, qs: seq<Request>): seq<seq<byte>> {
    if qs == [] then wire else WireAfter(WireAfterAll(wire, qs[..|qs| - 1]), qs[|qs| - 1])
  }

  function SendingAll(qs: seq<Request>): seq<Action> {
    if qs == [] then [] else SendingAll(qs[..|qs| - 1]) + Sending(qs[|qs| - 1])
  }

  lemma {:induction false} RunAppend(s: State, a: seq<Action>, b: seq<Action>)
    ensures Run(s, a + b) == Run(Run(s, a), b)
    decreases a
  {
    hide Step;
    if a == [] {
      assert a + b == b;
    } else {
      assert (a + b)[1..] == a[1..] + b;
      RunAppend(Step(s, a[0]), a[1..], b);
    }
  }

  lemma {:induction false} SendingAllIsRun(s: State, qs: seq<Request>)
    requires s.sender.Idle?
    ensures var t := Run(s, SendingAll(qs));
            && t.sender.Idle? && t.wire == WireAfterAll(s.wire, qs) && t.pending == QueueAfterAll(s.pending, qs)
            && t.delivered == s.delivered && t.seen == s.seen
            && t.receiver == s.receiver && t.arrived == s.arrived && t.carrier == s.carrier
    decreases |qs|
  {
    hide Sending, WireAfter, QueueAfter;
    if qs != [] {
      var front, q := qs[..|qs| - 1], qs[|qs| - 1];
      SendingAllIsRun(s, front);
      RunAppend(s, SendingAll(front), Sending(q));
      SendingIsRun(Run(s, SendingAll(front)), q);
    }
  }

  function First(sends: seq<seq<Request>>): seq<Request> {
    if sends == [] then [] else sends[0]
  }

  function Rest(sends: seq<seq<Request>>): seq<seq<Request>> {
    if sends == [] then [] else sends[1..]
  }

  /** The responses that the drain loop delivers if the send hook gets to deal with sends[n]
      before the loop looks at the queue for the n-th time. */
  function Drained(pending: seq<Response>, sends: seq<seq<Request>>): seq<Response>
    decreases |sends|, |pending|
  {
    var queue := QueueAfterAll(pending, First(sends));
    if queue == [] then [] else [queue[0]] + Drained(queue[1..], Rest(sends))
  }

  /** And what is on the wire when the loop ends. */
  function DrainWire(wire: seq<seq<byte>>, pending: seq<Response>, sends: seq<seq<Request>>): seq<seq<byte>>
    decreases |sends|, |pending|
  {
    var queue := QueueAfterAll(pending, First(sends));
    var after := WireAfterAll(wire, First(sends));
    if queue == [] then after else DrainWire(after, queue[1..], Rest(sends))
  }

  /** The same as steps of the two threads. */
  function DrainActions(pending: seq<Response>, sends: seq<seq<Request>>): seq<Action>
    decreases |sends|, |pending|
  {
    var queue := QueueAfterAll(pending, First(sends));
    if queue == [] then SendingAll(First(sends)) + [Pop]
    else SendingAll(First(sends)) + (Delivery() + DrainActions(queue[1..], Rest(sends)))
  }

  function Delivery(): seq<Action> {
    [Pop, Borrow, Deliver, Restore]
  }

  lemma DeliveryIsRun(s: State)
    requires s.receiver.Draining? && s.pending != []
    ensures Run(s, Delivery()) == s.(pending := s.pending[1..], delivered := s.delivered + [s.pending[0]])
  {
    assert Delivery()[0] == Pop && Delivery()[1..] == [Borrow, Deliver, Restore];
    RunThree(Step(s, Pop), Borrow, Deliver, Restore);
    FourSteps(s);
    hide Step;
  }

  lemma FourSteps(s: State)
    requires s.receiver.Draining? && s.pending != []
    ensures Step(Step(Step(Step(s, Pop), Borrow), Deliver), Restore)
            == s.(pending := s.pending[1..], delivered := s.delivered + [s.pending[0]])
  {
    var s1 := Step(s, Pop);
    var s2 := Step(s1, Borrow);
    var s3 := Step(s2, Deliver);
    assert s1.receiver == Holding(s.pending[0]);
    assert s2.receiver == Borrowing(s.pending[0], s.carrier) && s2.carrier == s.pending[0].packet;
    assert s3.receiver == Restoring(s.carrier);
  }

  lemma PopEnds(s: State)
    requires s.receiver.Draining? && s.pending == []
    ensures Run(s, [Pop]) == s.(receiver := Waiting, seen := s.seen + [s.carrier])
  {
    assert [Pop][1..] == [];
  }

  /** The drain loop, with the send hook in between as often as it likes, is a run of the two
      threads. */
  lemma {:induction false} DrainIsRun(s: State, sends: seq<seq<Request>>)
    requires s.sender.Idle? && s.receiver.Draining?
    ensures var t := Run(s, DrainActions(s.pending, sends));
            && t.sender.Idle? && t.receiver.Waiting? && t.pending == [] && t.carrier == s.carrier
            && t.delivered == s.delivered + Drained(s.pending, sends) && t.wire == DrainWire(s.wire, s.pending, sends)
            && t.seen == s.seen + [s.carrier]
    decreases |sends|, |s.pending|
  {
    hide Run, SendingAll, QueueAfterAll, WireAfterAll, Delivery, Step;
    var batch := First(sends);
    var u, queue := Run(s, SendingAll(batch)), QueueAfterAll(s.pending, batch);
    SendingAllIsRun(s, batch);
    if queue == [] {
      RunAppend(s, SendingAll(batch), [Pop]);
      PopEnds(u);
    } else {
      var rest := DrainActions(queue[1..], Rest(sends));
      RunAppend(s, SendingAll(batch), Delivery() + rest);
      RunAppend(u, Delivery(), rest);
      DeliveryIsRun(u);
      NothingSent(s.pending, sends);
      DrainIsRun(Run(u, Delivery()), Rest(sends));
      assert s.delivered + [queue[0]] + Drained(queue[1..], Rest(sends)) == s.delivered + Drained(s.pending, sends);
    }
  }

  lemma NothingSent(pending: seq<Response>, sends: seq<seq<Request>>)
    ensures sends == [] ==> QueueAfterAll(pending, First(sends)) == pending
  {
  }

  /** The responses to requests, in order. */
  function AnswersTo(qs: seq<Request>): seq<Response> {
    if qs == [] then []
    else
      var q := qs[|qs| - 1];
      AnswersTo(qs[..|qs| - 1])
      + if Inspected(q) && q.handling.Answer? then [Response(q.job, q.handling.packet)] else []
  }

  function AnswersToAll(sends: seq<seq<Request>>): seq<Response> {
    if sends == [] then [] else AnswersTo(sends[0]) + AnswersToAll(sends[1..])
  }

  lemma {:induction false} RoomForAll(pending: seq<Response>, qs: seq<Request>)
    requires |pending| + |AnswersTo(qs)| <= QUEUE_LIMIT
    ensures QueueAfterAll(pending, qs) == pending + AnswersTo(qs)
  {
    hide Inspected;
    if qs != [] {
      RoomForAll(pending, qs[..|qs| - 1]);
    }
  }

  lemma {:induction false} DrainedAlone(pending: seq<Response>)
    ensures Drained(pending, []) == pending
  {
    hide QueueAfterAll;
    NothingSent(pending, []);
    if pending != [] {
      DrainedAlone(pending[1..]);
    }
  }

  lemma Regroup(queue: seq<Response>, pending: seq<Response>, answers: seq<Response>, later: seq<Response>)
    requires queue == pending + answers && queue != []
    ensures [queue[0]] + (queue[1..] + later) == pending + (answers + later)
  {
  }

  lemma AnswersUpTo(sends: seq<seq<Request>>, n: nat)
    requires n < |sends|
    ensures AnswersToAll(sends[..n + 1]) == AnswersTo(sends[0]) + AnswersToAll(sends[1..][..n])
  {
    hide AnswersTo;
    assert sends[..n + 1][1..] == sends[1..][..n];
  }

  /** With never more than 64 waiting, delivery is first in, first out: what was pending, and then
      the answers given while the loop ran. */
  lemma {:induction false} DrainedInOrder(pending: seq<Response>, sends: seq<seq<Request>>) returns (n: nat)
    requires |pending| + |AnswersToAll(sends)| <= QUEUE_LIMIT
    ensures n <= |sends| && Drained(pending, sends) == pending + AnswersToAll(sends[..n])
    decreases |sends|
  {
    hide AnswersTo, QueueAfterAll;
    n := 0;
    if sends == [] {
      DrainedAlone(pending);
    } else {
      var queue := QueueAfterAll(pending, sends[0]);
      RoomForAll(pending, sends[0]);
      if queue != [] {
        n := DrainedInOrder(queue[1..], sends[1..]);
        AnswersUpTo(sends, n);
        Regroup(queue, pending, AnswersTo(sends[0]), AnswersToAll(sends[1..][..n]));
        n := n + 1;
      }
    }
  }

  // ---- a run that drops a request ----

  function Asking(): Request {
    NotWrapping();
    RawRequest.Request(FrameBytes(0, [], []), 1, Answer([]))
  }

  lemma NotWrapping()
    ensures !HeaderWraps(FrameBytes(0, [], [])) && Unpack(FrameBytes(0, [], [])).Some?
  {
    WordOfFrame(0, [], []);
    UnpackUndoesPack(0, [], []);
  }

  function Flood(n: nat): seq<Action> {
    if n == 0 then [] else Flood(n - 1) + Sending(Asking())
  }

  lemma {:induction false} OverflowsAppend(s: State, a: seq<Action>, b: seq<Action>)
    ensures OverflowCount(s, a + b) == OverflowCount(s, a) + OverflowCount(Run(s, a), b)
    decreases a
  {
    hide Step, Overflows;
    if a == [] {
      assert a + b == b;
    } else {
      assert (a + b)[1..] == a[1..] + b;
      OverflowsAppend(Step(s, a[0]), a[1..], b);
    }
  }

  lemma OverflowThree(s: State, q: Request)
    requires s.sender.Idle? && Inspected(q) && q.handling.Answer?
    ensures OverflowCount(s, Sending(q)) == if |s.pending| >= QUEUE_LIMIT then 1 else 0
  {
    hide Inspected;
    var all := Sending(q);
    assert all[1..] == [Handle, Decide] && [Handle, Decide][1..] == [Decide] && [Decide][1..] == [];
    var t := Step(s, Submit(q));
    var u := Step(t, Handle);
    assert OverflowCount(u, [Decide]) == 0;
    assert OverflowCount(t, [Handle, Decide]) == if Overflows(t, Handle) then 1 else 0;
  }

  /** Requests that come while nothing is received: from the 65th on every one is dropped. */
  lemma {:induction false} FloodDrops(s: State, n: nat)
    requires Initial(s)
    ensures var t := Run(s, Flood(n));
            && t.sender.Idle? && |t.pending| == (if n <= 64 then n else 64)
            && DropCount(t.log) == (if n <= 64 then 0 else n - 64)
  {
    NotWrapping();
    hide Sending, HeaderWraps, Unpack, FrameBytes, Overflows, Step;
    DroppedExactlyWhenFull(s, Flood(n));
    if n > 0 {
      FloodDrops(s, n - 1);
      DroppedExactlyWhenFull(s, Flood(n - 1));
      var t := Run(s, Flood(n - 1));
      RunAppend(s, Flood(n - 1), Sending(Asking()));
      OverflowsAppend(s, Flood(n - 1), Sending(Asking()));
      SendingIsRun(t, Asking());
      OverflowThree(t, Asking());
    }
  }

  // ---- the hooks themselves ----

  class Cloud {
    var pending: seq<Response>
    var suppressSend: bool
    var needReplaceSend: bool
    var sendNewBody: seq<byte>
    /** What the original send and receive functions have been called with. */
    var wire: seq<seq<byte>>
    var delivered: seq<Response>

    constructor ()
      ensures pending == [] && delivered == [] && wire == []
    {
      pending, delivered, wire := [], [], [];
      suppressSend, needReplaceSend, sendNewBody := false, false, [];
    }

    /** The dispatch: flags down, then whatever the handlers decide. */
    method SendJob(q: Request)
      modifies this`pending, this`suppressSend, this`needReplaceSend, this`sendNewBody
      ensures suppressSend == q.handling.Answer? && needReplaceSend == q.handling.Replace?
      ensures q.handling.Replace? ==> sendNewBody == q.handling.body
      ensures pending ==
              if q.handling.Answer? then Enqueue(old(pending), Response(q.job, q.handling.packet)) else old(pending)
    {
      needReplaceSend := false;
      suppressSend := false;
      match q.handling
      case Pass =>
      case Replace(body) =>
        sendNewBody := body;
        needReplaceSend := true;
      case Answer(packet) =>
        Push(Response(q.job, packet));
        suppressSend := true;
    }

    /** The send hook: a frame is answered and suppressed, or one frame goes out.  SendingIsRun
        says the same of the three steps of the send thread. */
    method SendFrame(q: Request, ring: PacketPool)
      requires ring.Valid()
      requires q.handling.Replace? ==> |q.bytes| + |q.handling.body| < TWO32
      modifies this, ring, ring.pool
      ensures ring.Valid() && delivered == old(delivered)
      ensures wire == WireAfter(old(wire), q) && pending == QueueAfter(old(pending), q)
      ensures Unpack(q.bytes).Some? && q.handling.Replace? ==>
                var u, body, sent := Unpack(q.bytes).value, q.handling.body, |old(wire)|;
                && |wire| == sent + 1 && wire[..sent] == old(wire) && 8 <= u.off <= |q.bytes|
                && if u.off + |body| <= 66568 then
                     && Unpack(wire[sent]) == Some(u)
                     && wire[sent][8..u.off] == q.bytes[8..u.off] && wire[sent][u.off..] == body
                   else wire[sent] == q.bytes
    {
      hide FrameBytes, RingHolds;
      WireAfterIs(wire, q);
      var u := Unpack(q.bytes);
      Uninspected(q);
      if u.None? {
        wire := wire + [q.bytes];
        return;
      }
      SendJob(q);
      if suppressSend {
        return;
      }
      if !needReplaceSend {
        wire := wire + [q.bytes];
        return;
      }
      UnpackIsFrame(q.bytes);
      var header := q.bytes[HEADER..u.value.off];
      var frame := ReplaceSendPacket(u.value.eMsg, header, sendNewBody, ring);
      wire := wire + [if frame.Some? then frame.value else q.bytes];
    }

    /** Assemble the modified frame in the ring, if it fits. */
    method ReplaceSendPacket(eMsg: nat, header: seq<byte>, body: seq<byte>, ring: PacketPool)
      returns (frame: Option<seq<byte>>)
      requires ring.Valid() && HEADER + |header| + |body| < TWO32
      modifies ring, ring.pool
      ensures ring.Valid()
      ensures frame == if FitsSlot(header, body) then Some(FrameBytes(eMsg, header, body)) else None
    {
      var slot := ring.Put(ToLE(eMsg + PROTO_FLAG, 4), header, body);
      if slot.None? {
        return None;
      }
      ghost var n := |ring.history| - 1;
      assert Holds(ring.pool[..], n, ring.history[n]);
      var end := slot.value + HEADER + |header| + |body|;
      assert ring.pool[slot.value..end] == ring.pool[..][slot.value..end];
      return Some(ring.pool[slot.value..end]);
    }

    method Push(r: Response)
      modifies this`pending
      ensures pending == Enqueue(old(pending), r)
    {
      if |pending| < QUEUE_LIMIT {
        pending := pending + [r];
      }
    }

    method DeliverOne(carrier: NetPacket, r: Response)
      requires carrier.Valid()
      modifies carrier, this`delivered
      ensures carrier.data == old(carrier.data) && carrier.at == old(carrier.at) && carrier.len == old(carrier.len)
      ensures carrier.Valid() && delivered == old(delivered) + [r]
    {
      var origData, origAt, origSize := carrier.data, carrier.at, carrier.len;
      var buffer := new byte[|r.packet|](i requires 0 <= i < |r.packet| => r.packet[i]);
      carrier.data, carrier.at, carrier.len := buffer, 0, |r.packet|;
      assert carrier.Contents() == r.packet;
      delivered := delivered + [Response(r.job, carrier.data[carrier.at..carrier.at + carrier.len])];
      carrier.data, carrier.at, carrier.len := origData, origAt, origSize;
    }

    /** The other thread's send hook at work on some frames. */
    method OtherThread(qs: seq<Request>)
      modifies this`pending, this`wire
      ensures pending == QueueAfterAll(old(pending), qs) && wire == WireAfterAll(old(wire), qs)
    {
      hide QueueAfter, WireAfter;
      for n := 0 to |qs|
        invariant pending == QueueAfterAll(old(pending), qs[..n]) && wire == WireAfterAll(old(wire), qs[..n])
      {
        assert qs[..n + 1][..n] == qs[..n];
        wire := WireAfter(wire, qs[n]);
        pending := QueueAfter(pending, qs[n]);
      }
      assert qs[..|qs|] == qs;
    }

    /** The drain loop: the queue ends empty, and what it delivers is Drained, where sends[n] is
        what the other thread deals with before the n-th look at the queue.  The carrier has its
        own data again when the loop ends.  DrainIsRun says the same of the two threads. */
    method Drain(carrier: NetPacket, sends: seq<seq<Request>>)
      requires carrier.Valid()
      modifies carrier, this`pending, this`wire, this`delivered
      ensures carrier.data == old(carrier.data) && carrier.at == old(carrier.at) && carrier.len == old(carrier.len)
      ensures pending == [] && delivered == old(delivered) + Drained(old(pending), sends)
      ensures wire == DrainWire(old(wire), old(pending), sends)
    {
      hide NetPacket.Contents, QueueAfterAll, WireAfterAll;
      var left := sends;
      while true
        invariant carrier.Valid()
        invariant carrier.data == old(carrier.data) && carrier.at == old(carrier.at) && carrier.len == old(carrier.len)
        invariant delivered + Drained(pending, left) == old(delivered) + Drained(old(pending), sends)
        invariant DrainWire(wire, pending, left) == DrainWire(old(wire), old(pending), sends)
        decreases |left|, |pending|
      {
        ghost var before := pending;
        OtherThread(First(left));
        if pending == [] {
          return;
        }
        var r := pending[0];
        pending := pending[1..];
        assert delivered + ([r] + Drained(pending, Rest(left))) == delivered + [r] + Drained(pending, Rest(left));
        DeliverOne(carrier, r);
        NothingSent(before, left);
        left := Rest(left);
      }
    }
  }
}
