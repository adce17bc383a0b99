/**
 One IPC connection (handle_client_read, process_request, push_notify and
 handle_client_write in src/agent/ipc.c): request reassembly in one buffer,
 and one send buffer shared by replies and coalesced notifications.

 Conn is the connection's state as a value, together with a log of its whole
 history, and the step functions say what each event does to it. Module
 IpcClient has the source's buffers and flags.
 */
module Connection {
  import opened ByteCodec
  import opened BitWords
  import opened Framing

  const IPC_MAGIC := 0x4C4F5441
  const IPC_VERSION := 1

  const CMD_PING := 1
  const CMD_GET_STATUS := 2
  const CMD_GET_TOKEN := 3
  const CMD_SUBSCRIBE := 4
  const CMD_PROTECT_PID := 5
  const CMD_UNPROTECT_PID := 6
  const CMD_SHUTDOWN := 7

  const OK := 0
  const ERR_UNKNOWN_CMD := 1
  const ERR_BAD_REQUEST := 2
  const ERR_ACCESS_DENIED := 7
  const ERR_BAD_VERSION := 8
  const ERR_TPM_LOCKOUT := 9
  const NOTIFY := 0x80

  /** A LOTA_IPC_EVENT_* mask. */
  type Events = U32

  const EVENT_STATUS: Events := 1

  /** The status fields a notification reports. */
  datatype Status = Status(flags: U32, lastAttest: U64, validUntil: U64, attested: U32, failed: U32, mode: Byte)

  /** What a command handler outside this module answers, and whether it raised a TPM lockout on the way. */
  datatype Outcome = Outcome(result: U32, payload: Payload, lockout: bool)

  type Payload = p: Bytes | |p| <= MAX_PAYLOAD witness []

  // ----- messages

  function Response(result: U32, payload: Payload): (r: Bytes)
    ensures |r| == HEADER + |payload| <= BUFFER
  {
    Le32(IPC_MAGIC) + Le32(IPC_VERSION) + Le32(result) + Le32(|payload|) + payload
  }

  /** The header of every response declares its payload exactly. */
  lemma ResponseIsFrame(result: U32, payload: Payload)
    ensures IsFrame(Response(result, payload))
  {
    var r := Response(result, payload);
    assert r[12..16] == Le32(|payload|);
    Le32RoundTrip(r, 12, |payload|);
  }

  function NoticePayload(events: Events, st: Status): (p: Payload)
    ensures |p| == 36
  {
    Le32(events) + Le32(st.flags) + Le64(st.lastAttest) + Le64(st.validUntil)
      + Le32(st.attested) + Le32(st.failed) + [st.mode, 0, 0, 0]
  }

  predicate LengthAllowed(cmd: U32, len: U32) {
    if cmd == CMD_GET_TOKEN then len == 0 || len == 32
    else if cmd == CMD_SUBSCRIBE || cmd == CMD_PROTECT_PID || cmd == CMD_UNPROTECT_PID then len == 4
    else len == 0
  }

  /** The header checks of process_request, in order. */
  function Refusal(f: Bytes): Option<U32>
    requires IsFrame(f)
  {
    if ReadLe32(f, 0) != IPC_MAGIC then Some(ERR_BAD_REQUEST)
    else if ReadLe32(f, 4) != IPC_VERSION then Some(ERR_BAD_VERSION)
    else if !LengthAllowed(ReadLe32(f, 8), PayloadLen(f)) then Some(ERR_BAD_REQUEST)
    else if ReadLe32(f, 8) == 0 || ReadLe32(f, 8) > CMD_SHUTDOWN then Some(ERR_UNKNOWN_CMD)
    else None
  }

  function Command(f: Bytes): U32
    requires |f| >= HEADER
  {
    ReadLe32(f, 8)
  }

  /** A message put in the send buffer: the reply to a request, or a notification covering some pushes. */
  datatype Message =
    | Reply(request: Bytes, result: U32, payload: Payload)
    | Notice(covers: seq<Events>, status: Status)

  function OrAll(es: seq<Events>): Events {
    if es == [] then 0 else Or(OrAll(es[..|es| - 1]), es[|es| - 1])
  }

  function Wire(m: Message): (w: Bytes)
    ensures HEADER <= |w| <= BUFFER
  {
    match m
    case Reply(_, result, payload) => Response(result, payload)
    case Notice(covers, status) => Response(NOTIFY, NoticePayload(OrAll(covers), status))
  }

  function Wires(ms: seq<Message>): (ws: seq<Bytes>)
    ensures |ws| == |ms|
  {
    if ms == [] then [] else Wires(ms[..|ms| - 1]) + [Wire(ms[|ms| - 1])]
  }

  /** The requests replied to, in reply order. */
  function Answered(ms: seq<Message>): seq<Bytes> {
    if ms == [] then []
    else
      var m := ms[|ms| - 1];
      Answered(ms[..|ms| - 1]) + if m.Reply? then [m.request] else []
  }

  /** The pushes reported by notifications, in order. */
  function Covered(ms: seq<Message>): seq<Events> {
    if ms == [] then []
    else
      var m := ms[|ms| - 1];
      Covered(ms[..|ms| - 1]) + if m.Notice? then m.covers else []
  }

  /** What one more message adds to each of the three. */
  lemma AddMessage(ms: seq<Message>, m: Message)
    ensures Wires(ms + [m]) == Wires(ms) + [Wire(m)]
    ensures Flatten(Wires(ms + [m])) == Flatten(Wires(ms)) + Wire(m)
    ensures Answered(ms + [m]) == Answered(ms) + if m.Reply? then [m.request] else []
    ensures Covered(ms + [m]) == Covered(ms) + if m.Notice? then m.covers else []
  {
    assert (ms + [m])[..|ms|] == ms;
    FlattenAppend(Wires(ms), Wire(m));
  }

  lemma WireIsFrame(m: Message)
    ensures IsFrame(Wire(m))
  {
    match m
    case Reply(_, result, payload) => ResponseIsFrame(result, payload);
    case Notice(covers, status) => ResponseIsFrame(NOTIFY, NoticePayload(OrAll(covers), status));
  }

  lemma {:induction false} WiresAreFrames(ms: seq<Message>)
    ensures AllFrames(Wires(ms))
  {
    if ms == [] {
    } else {
      WiresAreFrames(ms[..|ms| - 1]);
      WireIsFrame(ms[|ms| - 1]);
    }
  }

  lemma OrAllAppend(es: seq<Events>, e: Events)
    ensures OrAll(es + [e]) == Or(OrAll(es), e)
  {
    assert (es + [e])[..|es|] == es;
  }

  lemma OrAllOne(e: Events)
    ensures OrAll([e]) == e
  {
    assert OrAll([e][..0]) == 0;
  }

  /** The bits of a notification are exactly the bits of the pushes it covers. */
  lemma {:induction false} OrAllBit(es: seq<Events>, k: nat)
    ensures Bit(OrAll(es), k) <==> exists i :: 0 <= i < |es| && Bit(es[i], k)
  {
    if es == [] {
      ZeroBit(k);
    } else {
      var n := |es| - 1;
      OrAllBit(es[..n], k);
      OrBit(OrAll(es[..n]), es[n], k);
    }
  }

  // ----- the connection as a value

  /**
   Bytes received and sent, frames dispatched, messages built, every relevant
   push raised, and those still deferred.
   */
  datatype Log = Log(received: Bytes, dispatched: seq<Bytes>, sent: Bytes, messages: seq<Message>,
                     raised: seq<Raised>, deferred: seq<Events>)

  /**
   A push with the bits the client subscribed to. It is overwritten when it
   was raised while the client's own GET_TOKEN was being answered: the error
   reply takes the buffer the notification was in.
   */
  datatype Raised = Raised(events: Events, overwritten: bool)

  /** The pushes that were not overwritten, in order; and those that were. */
  function Kept(rs: seq<Raised>): seq<Events> {
    if rs == [] then []
    else
      var r := rs[|rs| - 1];
      Kept(rs[..|rs| - 1]) + if r.overwritten then [] else [r.events]
  }

  function Overwritten(rs: seq<Raised>): seq<Events> {
    if rs == [] then []
    else
      var r := rs[|rs| - 1];
      Overwritten(rs[..|rs| - 1]) + if r.overwritten then [r.events] else []
  }

  lemma AddRaised(rs: seq<Raised>, r: Raised)
    ensures Kept(rs + [r]) == if r.overwritten then Kept(rs) else Kept(rs) + [r.events]
    ensures Overwritten(rs + [r]) == if r.overwritten then Overwritten(rs) + [r.events] else Overwritten(rs)
  {
    assert (rs + [r])[..|rs|] == rs;
  }

  /** `inbox` is what recv_buf holds; `out` is the message in send_buf, `off` of whose bytes are sent. */
  datatype Conn = Conn(inbox: Bytes, out: Bytes, off: nat, subscribed: bool, mask: Events,
                       notifyPending: bool, pendingEvents: Events, armed: bool, log: Log)

  const FRESH := Conn([], [], 0, false, 0, false, 0, false, Log([], [], [], [], [], []))

  /** Every byte received was dispatched in a whole frame or is still buffered. */
  ghost predicate ReceiveOk(inbox: Bytes, received: Bytes, dispatched: seq<Bytes>) {
    |inbox| <= BUFFER && received == Flatten(dispatched) + inbox && AllFrames(dispatched)
  }

  /** The messages built are the bytes sent and those still to send, all of the last one. */
  ghost predicate SendOk(out: Bytes, off: nat, sent: Bytes, messages: seq<Message>) {
    && off <= |out|
    && sent + out[off..] == Flatten(Wires(messages))
    && (out != [] ==> messages != [] && out == Wire(messages[|messages| - 1]))
  }

  /** Every push not overwritten is covered by one notification, in order, or waits behind the current send. */
  ghost predicate NotifyOk(pending: bool, events: Events, messages: seq<Message>, kept: seq<Events>,
                           deferred: seq<Events>)
  {
    && kept == Covered(messages) + deferred
    && pending == (deferred != [])
    && events == OrAll(deferred)
  }

  ghost predicate Sending(c: Conn) {
    && ReceiveOk(c.inbox, c.log.received, c.log.dispatched)
    && SendOk(c.out, c.off, c.log.sent, c.log.messages)
    && NotifyOk(c.notifyPending, c.pendingEvents, c.log.messages, Kept(c.log.raised), c.log.deferred)
    && (c.notifyPending ==> c.subscribed && c.out != [])
    && (c.armed ==> c.out != [])
    && Answered(c.log.messages) == c.log.dispatched
  }

  /** Between events a message in progress is never already out. */
  ghost predicate Ok(c: Conn) {
    Sending(c) && (c.out == [] || c.off < |c.out|)
  }

  // ----- steps

  /** A message goes into the empty send buffer. */
  function Build(c: Conn, m: Message): Conn {
    c.(out := Wire(m), off := 0, log := c.log.(messages := c.log.messages + [m]))
  }

  /** notify_subscribers for this client: builds a notification, or coalesces behind the current send. */
  function Push(c: Conn, events: Events, st: Status): Conn {
    var relevant := And(events, c.mask);
    if !c.subscribed || relevant == 0 then c
    else
      var c' := c.(log := c.log.(raised := c.log.raised + [Raised(relevant, false)]));
      if c.off < |c.out| then
        c'.(notifyPending := true, pendingEvents := Or(c.pendingEvents, relevant),
            log := c'.log.(deferred := c.log.deferred + [relevant]))
      else Build(c', Notice([relevant], st))
  }

  /** The reply to a frame. */
  function ReplyTo(f: Bytes, o: Outcome, self: bool): Message
    requires IsFrame(f)
  {
    match Refusal(f)
    case Some(code) => Reply(f, code, [])
    case None =>
      if Command(f) == CMD_SUBSCRIBE then Reply(f, if self then OK else ERR_ACCESS_DENIED, [])
      else if LocksOut(f, o) then Reply(f, ERR_TPM_LOCKOUT, [])
      else Reply(f, o.result, o.payload)
  }

  /** The frame is a GET_TOKEN whose quote ran into the TPM lockout. */
  predicate LocksOut(f: Bytes, o: Outcome)
    requires IsFrame(f)
  {
    Refusal(f) == None && Command(f) == CMD_GET_TOKEN && o.lockout
  }

  /** The event mask an accepted SUBSCRIBE asks for. */
  function NewMask(f: Bytes, self: bool): Option<Events>
    requires IsFrame(f)
  {
    if Refusal(f) == None && Command(f) == CMD_SUBSCRIBE && self then Some(ReadLe32(f, HEADER)) else None
  }

  /** Mask 0 cancels the subscription and drops what is pending. */
  function Subscribe(c: Conn, mask: Option<Events>): Conn {
    match mask
    case None => c
    case Some(m) =>
      if m == 0 then c.(subscribed := false, mask := 0, notifyPending := false, pendingEvents := 0)
      else c.(subscribed := true, mask := m)
  }

  /** A push whose notification the reply being built overwrites. */
  function Lose(c: Conn, events: Events): Conn {
    var relevant := And(events, c.mask);
    if !c.subscribed || relevant == 0 then c
    else c.(log := c.log.(raised := c.log.raised + [Raised(relevant, true)]))
  }

  /** What processing the frame f does besides replying. */
  function Process(c: Conn, f: Bytes, o: Outcome, self: bool): Conn
    requires IsFrame(f)
  {
    Subscribe(if LocksOut(f, o) then Lose(c, EVENT_STATUS) else c, NewMask(f, self))
  }

  /** The first buffered frame leaves the buffer and its reply takes the send buffer. */
  function Answer(c: Conn, m: Message): Conn
    requires Complete(c.inbox)
  {
    var f := First(c.inbox);
    Build(c.(inbox := c.inbox[|f|..], armed := true, log := c.log.(dispatched := c.log.dispatched + [f])), m)
  }

  function Dispatch(c: Conn, o: Outcome, self: bool): Conn
    requires Complete(c.inbox)
  {
    var f := First(c.inbox);
    Answer(Process(c, f, o, self), ReplyTo(f, o, self))
  }

  /** EPOLLOUT is armed for the reply, and the request f leaves the buffer. */
  function Consumed(c: Conn, f: Bytes): Conn
    requires |f| <= |c.inbox|
  {
    c.(inbox := c.inbox[|f|..], armed := true, log := c.log.(dispatched := c.log.dispatched + [f]))
  }

  lemma ConsumedFields(c: Conn, f: Bytes)
    requires |f| <= |c.inbox|
    ensures var d := Consumed(c, f);
            && d.inbox == c.inbox[|f|..] && d.armed && d.out == c.out && d.off == c.off && d.subscribed == c.subscribed
            && d.mask == c.mask && d.notifyPending == c.notifyPending && d.pendingEvents == c.pendingEvents
  {
  }

  /** The order of effects in the source: reply first, then the bytes are shifted out. */
  lemma DispatchInOrder(c: Conn, o: Outcome, self: bool)
    requires Complete(c.inbox)
    ensures var f := First(c.inbox);
            var b := Build(Process(c, f, o, self), ReplyTo(f, o, self));
            b.inbox == c.inbox && Dispatch(c, o, self) == Consumed(b, f)
  {
    hide Refusal, NewMask, LocksOut, And, Wire, First, Complete;
  }

  function Receive(c: Conn, chunk: Bytes): Conn {
    c.(inbox := c.inbox + chunk, log := c.log.(received := c.log.received + chunk))
  }

  /** n more bytes of the message in progress go to the socket. */
  function Transmit(c: Conn, n: nat): Conn
    requires c.off + n <= |c.out|
  {
    c.(off := c.off + n, log := c.log.(sent := c.log.sent + c.out[c.off..c.off + n]))
  }

  /** The message is out: the buffer is reset, and deferred pushes become one notification. */
  function Flush(c: Conn, st: Status): Conn {
    var c' := c.(out := [], off := 0);
    if c.subscribed && c.notifyPending then
      Build(c'.(notifyPending := false, pendingEvents := 0, log := c.log.(deferred := [])), Notice(c.log.deferred, st))
    else c'.(armed := false)
  }

  /** What recv finds: nothing yet, an error or end of stream, or bytes waiting in the socket. */
  datatype Recv = Again | Gone | Waiting(bytes: Bytes)

  datatype ReadResult = Idle | Close | Dispatched

  /** recv with room for `room` bytes. */
  function Taken(r: Recv, room: int): Bytes {
    if !r.Waiting? || room <= 0 then [] else if |r.bytes| <= room then r.bytes else r.bytes[..room]
  }

  /** After the buffer holds what it will: close on a bad length, dispatch a whole frame unless a send is pending. */
  function Serve(c: Conn, o: Outcome, self: bool): (Conn, ReadResult) {
    if Oversize(c.inbox) then (c, Close)
    else if Complete(c.inbox) && c.out == [] then (Dispatch(c, o, self), Dispatched)
    else (c, Idle)
  }

  /** EPOLLIN: a buffered frame is served first; otherwise one recv fills the buffer and is served. */
  function Read(c: Conn, r: Recv, o: Outcome, self: bool): (Conn, ReadResult) {
    if Oversize(c.inbox) || Complete(c.inbox) then Serve(c, o, self)
    else if r.Gone? || r == Waiting([]) then (c, Close)
    else if r.Again? then (c, Idle)
    else Serve(Receive(c, Taken(r, BUFFER - |c.inbox|)), o, self)
  }

  /** What send does next: takes up to n + 1 bytes, would block, or fails. */
  datatype Send = Takes(n: nat) | WouldBlock | Fails

  /** EPOLLOUT: sends until the message is out, the socket blocks, or it fails. */
  function Write(c: Conn, rs: seq<Send>, st: Status): (Conn, bool)
    decreases |rs|
  {
    if c.out == [] then (c, true)
    else if c.off >= |c.out| then (Flush(c, st), true)
    else if rs == [] || rs[0].WouldBlock? then (c, true)
    else if rs[0].Fails? then (c, false)
    else Write(Transmit(c, Accepted(rs[0].n, |c.out| - c.off)), rs[1..], st)
  }

  /** At least one byte, and no more than are left. */
  function Accepted(n: nat, left: nat): (k: nat)
    requires left > 0
    ensures 0 < k <= left
  {
    if n < left then n + 1 else left
  }

  // ----- every step keeps Ok

  lemma BuildOk(sent: Bytes, ms: seq<Message>, m: Message)
    requires SendOk([], 0, sent, ms)
    ensures SendOk(Wire(m), 0, sent, ms + [m])
  {
    AddMessage(ms, m);
    assert sent + [] == sent;
  }

  /** A push behind a send in progress is deferred. */
  lemma DeferOk(ms: seq<Message>, rs: seq<Raised>, deferred: seq<Events>, relevant: Events)
    requires Kept(rs) == Covered(ms) + deferred
    ensures NotifyOk(true, Or(OrAll(deferred), relevant), ms, Kept(rs + [Raised(relevant, false)]),
                     deferred + [relevant])
  {
    hide Covered, Kept, OrAll, Or;
    AddRaised(rs, Raised(relevant, false));
    Associative(Covered(ms), deferred, [relevant]);
    OrAllAppend(deferred, relevant);
  }

  /** A push to an idle client becomes a notification of its own. */
  lemma NoticeOk(ms: seq<Message>, rs: seq<Raised>, relevant: Events, st: Status)
    requires Kept(rs) == Covered(ms)
    ensures NotifyOk(false, 0, ms + [Notice([relevant], st)], Kept(rs + [Raised(relevant, false)]), [])
    ensures Answered(ms + [Notice([relevant], st)]) == Answered(ms)
  {
    hide Covered, Kept, Answered, Or;
    AddRaised(rs, Raised(relevant, false));
    AddMessage(ms, Notice([relevant], st));
    assert Answered(ms) + [] == Answered(ms);
  }

  lemma PushOk(c: Conn, events: Events, st: Status)
    requires Ok(c)
    ensures Ok(Push(c, events, st))
  {
    hide Covered, Kept, OrAll, Or, And, Answered, Wire, Wires, Flatten, AllFrames;
    var relevant := And(events, c.mask);
    if !c.subscribed || relevant == 0 {
    } else if c.off < |c.out| {
      DeferOk(c.log.messages, c.log.raised, c.log.deferred, relevant);
    } else {
      assert Covered(c.log.messages) + [] == Covered(c.log.messages);
      BuildOk(c.log.sent, c.log.messages, Notice([relevant], st));
      NoticeOk(c.log.messages, c.log.raised, relevant, st);
    }
  }

  lemma DispatchReceive(inbox: Bytes, received: Bytes, dispatched: seq<Bytes>)
    requires ReceiveOk(inbox, received, dispatched) && Complete(inbox)
    ensures ReceiveOk(inbox[|First(inbox)|..], received, dispatched + [First(inbox)])
  {
    var f := First(inbox);
    FlattenAppend(dispatched, f);
    CutFirst(inbox);
    Associative(Flatten(dispatched), f, inbox[|f|..]);
  }

  lemma AnswerOk(c: Conn, m: Message)
    requires Ok(c) && Complete(c.inbox) && c.out == [] && m.Reply? && m.request == First(c.inbox)
    ensures Ok(Answer(c, m))
  {
    hide Covered, Kept, OrAll, Answered, Wire, Wires, Flatten, AllFrames, First, Complete;
    DispatchReceive(c.inbox, c.log.received, c.log.dispatched);
    BuildOk(c.log.sent, c.log.messages, m);
    AddMessage(c.log.messages, m);
    assert Covered(c.log.messages) + [] == Covered(c.log.messages);
  }

  /** Nothing is pending when a request is processed, so cancelling a subscription drops nothing. */
  lemma ProcessOk(c: Conn, f: Bytes, o: Outcome, self: bool)
    requires Ok(c) && IsFrame(f) && c.out == []
    ensures Ok(Process(c, f, o, self))
    ensures c.log.deferred == []
  {
    hide Covered, Kept, Answered, Wire, Wires, Flatten, AllFrames, And, Refusal, NewMask, LocksOut;
    if LocksOut(f, o) {
      AddRaised(c.log.raised, Raised(And(EVENT_STATUS, c.mask), true));
    }
  }

  lemma ProcessKeeps(c: Conn, f: Bytes, o: Outcome, self: bool)
    requires IsFrame(f)
    ensures Process(c, f, o, self).inbox == c.inbox && Process(c, f, o, self).out == c.out
    ensures ReplyTo(f, o, self).Reply? && ReplyTo(f, o, self).request == f
  {
    hide Refusal, NewMask, LocksOut, And;
  }

  /** Besides the log, processing a frame changes what an accepted SUBSCRIBE sets. */
  lemma ProcessFlags(c: Conn, f: Bytes, o: Outcome, self: bool)
    requires IsFrame(f)
    ensures var d := Process(c, f, o, self);
            && d.inbox == c.inbox && d.out == c.out && d.off == c.off && d.armed == c.armed
            && match NewMask(f, self)
               case None =>
                 d.subscribed == c.subscribed && d.mask == c.mask
                 && d.notifyPending == c.notifyPending && d.pendingEvents == c.pendingEvents
               case Some(m) =>
                 d.subscribed == (m != 0) && d.mask == m
                 && d.notifyPending == (c.notifyPending && m != 0)
                 && d.pendingEvents == if m == 0 then 0 else c.pendingEvents
  {
    hide Refusal, NewMask, LocksOut, And;
  }

  lemma DispatchOk(c: Conn, o: Outcome, self: bool)
    requires Ok(c) && Complete(c.inbox) && c.out == []
    ensures Ok(Dispatch(c, o, self))
  {
    hide Ok, Process, ReplyTo, Answer, Complete;
    var f := First(c.inbox);
    ProcessOk(c, f, o, self);
    ProcessKeeps(c, f, o, self);
    AnswerOk(Process(c, f, o, self), ReplyTo(f, o, self));
  }

  lemma ReceivesOk(c: Conn, chunk: Bytes)
    requires Ok(c) && |c.inbox| + |chunk| <= BUFFER
    ensures Ok(Receive(c, chunk))
  {
    hide Covered, Kept, OrAll, Answered, Wire, Wires, Flatten, AllFrames;
    Associative(Flatten(c.log.dispatched), c.inbox, chunk);
  }

  lemma ServeOk(c: Conn, o: Outcome, self: bool)
    requires Ok(c)
    ensures Ok(Serve(c, o, self).0)
  {
    hide Ok, Dispatch, Oversize, Complete;
    if !Oversize(c.inbox) && Complete(c.inbox) && c.out == [] {
      DispatchOk(c, o, self);
    }
  }

  lemma TakenFits(r: Recv, room: nat)
    ensures |Taken(r, room)| <= room
  {
  }

  lemma ReadOk(c: Conn, r: Recv, o: Outcome, self: bool)
    requires Ok(c)
    ensures Ok(Read(c, r, o, self).0)
  {
    hide Ok, Serve, Receive, Oversize, Complete, Taken;
    if Oversize(c.inbox) || Complete(c.inbox) {
      ServeOk(c, o, self);
    } else if r.Waiting? && r.bytes != [] {
      RecvHasRoom(c);
      var chunk := Taken(r, BUFFER - |c.inbox|);
      TakenFits(r, BUFFER - |c.inbox|);
      ReceivesOk(c, chunk);
      ServeOk(Receive(c, chunk), o, self);
    }
  }

  lemma TransmitSend(out: Bytes, off: nat, n: nat, sent: Bytes, ms: seq<Message>)
    requires SendOk(out, off, sent, ms) && off + n <= |out|
    ensures SendOk(out, off + n, sent + out[off..off + n], ms)
  {
    assert out[off..] == out[off..off + n] + out[off + n..];
    Associative(sent, out[off..off + n], out[off + n..]);
  }

  lemma TransmitOk(c: Conn, n: nat)
    requires Sending(c) && c.off + n <= |c.out|
    ensures Sending(Transmit(c, n))
  {
    hide Covered, Kept, OrAll, Answered, Wire, Wires, Flatten, AllFrames;
    TransmitSend(c.out, c.off, n, c.log.sent, c.log.messages);
  }

  lemma FlushOk(c: Conn, st: Status)
    requires Sending(c) && c.off == |c.out|
    ensures Ok(Flush(c, st))
  {
    hide Covered, Kept, Answered, Wire, Wires, Flatten, AllFrames;
    assert c.log.sent + [] == c.log.sent;
    assert SendOk([], 0, c.log.sent, c.log.messages);
    if c.notifyPending {
      var m := Notice(c.log.deferred, st);
      BuildOk(c.log.sent, c.log.messages, m);
      AddMessage(c.log.messages, m);
      assert NotifyOk(false, 0, c.log.messages + [m], Kept(c.log.raised), []);
    }
  }

  lemma SendingOff(c: Conn)
    requires Sending(c)
    ensures c.off <= |c.out|
  {
  }

  lemma {:induction false} WriteOk(c: Conn, rs: seq<Send>, st: Status)
    requires Sending(c)
    ensures Ok(Write(c, rs, st).0)
    decreases |rs|
  {
    hide Sending, Transmit, Flush;
    assert c.off <= |c.out| by { SendingOff(c); }
    if c.out != [] && c.off == |c.out| {
      FlushOk(c, st);
    } else if c.out != [] && rs != [] && rs[0].Takes? {
      var c' := Transmit(c, Accepted(rs[0].n, |c.out| - c.off));
      TransmitOk(c, Accepted(rs[0].n, |c.out| - c.off));
      WriteOk(c', rs[1..], st);
      assert Write(c, rs, st) == Write(c', rs[1..], st);
    }
  }

  // ----- every run

  /** An epoll event on the socket, or a status change in the agent. EPOLLOUT is reported only while armed. */
  datatype Step =
    | Readable(recv: Recv, outcome: Outcome, self: bool)
    | Writable(sends: seq<Send>, status: Status)
    | Pushed(events: Events, status: Status)

  function Apply(c: Conn, s: Step): Conn {
    match s
    case Readable(r, o, self) => Read(c, r, o, self).0
    case Writable(rs, st) => if c.armed then Write(c, rs, st).0 else c
    case Pushed(events, st) => Push(c, events, st)
  }

  ghost predicate Next(c: Conn, c': Conn) {
    exists s: Step :: c' == Apply(c, s)
  }

  ghost predicate StepAt(tr: seq<Conn>, k: int) {
    0 <= k < |tr| - 1 ==> Next(tr[k], tr[k + 1])
  }

  ghost predicate IsChain(tr: seq<Conn>) {
    forall k :: StepAt(tr, k)
  }

  /** The states of a connection, from its creation on. */
  ghost predicate IsRun(tr: seq<Conn>) {
    tr != [] && tr[0] == FRESH && IsChain(tr)
  }

  lemma LongerRun(tr: seq<Conn>, s: Step)
    requires IsRun(tr)
    ensures Next(tr[|tr| - 1], Apply(tr[|tr| - 1], s)) && IsRun(tr + [Apply(tr[|tr| - 1], s)])
  {
    hide Apply;
    var n, d := |tr| - 1, Apply(tr[|tr| - 1], s);
    var longer := tr + [d];
    assert Next(tr[n], d);
    forall k ensures StepAt(longer, k) {
      if 0 <= k < n {
        assert StepAt(tr, k);
        assert longer[k] == tr[k] && longer[k + 1] == tr[k + 1];
      }
    }
  }

  lemma NextOk(c: Conn, c': Conn)
    requires Ok(c) && Next(c, c')
    ensures Ok(c')
  {
    hide Sending, Read, Write, Push;
    var s :| c' == Apply(c, s);
    match s
    case Readable(r, o, self) => ReadOk(c, r, o, self);
    case Writable(rs, st) => WriteOk(c, rs, st);
    case Pushed(events, st) => PushOk(c, events, st);
  }

  lemma FreshOk()
    ensures Ok(FRESH)
  {
  }

  lemma {:induction false} RunOk(tr: seq<Conn>, i: nat)
    requires IsRun(tr) && i < |tr|
    ensures Ok(tr[i])
  {
    hide Ok, Next;
    if i == 0 {
      FreshOk();
    } else {
      RunOk(tr, i - 1);
      assert StepAt(tr, i - 1);
      NextOk(tr[i - 1], tr[i]);
    }
  }

  lemma RoomLeft(inbox: Bytes)
    requires |inbox| <= BUFFER && !Oversize(inbox) && !Complete(inbox)
    ensures |inbox| < BUFFER
  {
    hide ReadLe32;
  }

  /** recv is called only with room for at least one byte. */
  lemma RecvHasRoom(c: Conn)
    requires Ok(c) && !Oversize(c.inbox) && !Complete(c.inbox)
    ensures |c.inbox| < BUFFER
  {
    hide Oversize, Complete;
    RoomLeft(c.inbox);
  }

  /**
   However recv chunks the stream and whatever is interleaved, the frames
   dispatched are the first frames of the unchunked stream, each has exactly
   one reply, in order, and the rest of the stream is in the buffer.
   */
  lemma DispatchIsFraming(tr: seq<Conn>, i: nat)
    requires IsRun(tr) && i < |tr|
    ensures tr[i].log.received == Flatten(tr[i].log.dispatched) + tr[i].inbox
    ensures Frames(tr[i].log.received) == tr[i].log.dispatched + Frames(tr[i].inbox)
    ensures Answered(tr[i].log.messages) == tr[i].log.dispatched
  {
    hide IsRun, Frames, Wires, Wire, Flatten, AllFrames, IsFrame, Answered, Covered, Kept, OrAll;
    RunOk(tr, i);
    FramesUnique(tr[i].log.dispatched, tr[i].inbox);
  }

  /**
   The bytes a peer has received, cut by their own length fields, are the
   messages in order: all of them, or all but the one still being sent.
   */
  lemma PeerSeesWholeMessages(tr: seq<Conn>, i: nat)
    requires IsRun(tr) && i < |tr|
    ensures Frames(tr[i].log.sent) == Wires(if tr[i].out == [] then tr[i].log.messages else Init(tr[i].log.messages))
  {
    hide IsRun, Frames, Wires, Wire, Flatten, AllFrames, IsFrame, Answered, Covered, Kept, OrAll;
    RunOk(tr, i);
    var c, ms := tr[i], tr[i].log.messages;
    if c.out == [] {
      assert c.log.sent + [] == c.log.sent;
      AllSent(ms);
    } else {
      PartOfLast(ms, c.log.sent, c.off);
    }
  }

  lemma AllSent(ms: seq<Message>)
    ensures Frames(Flatten(Wires(ms))) == Wires(ms)
  {
    hide Wires, Wire, Flatten, AllFrames, IsFrame;
    WiresAreFrames(ms);
    FramesUnique(Wires(ms), []);
    assert Flatten(Wires(ms)) + [] == Flatten(Wires(ms)) && Wires(ms) + [] == Wires(ms);
  }

  function Init<T>(s: seq<T>): seq<T> {
    if s == [] then [] else s[..|s| - 1]
  }

  lemma PartOfLast(ms: seq<Message>, sent: Bytes, off: nat)
    requires ms != [] && off < |Wire(ms[|ms| - 1])|
    requires sent + Wire(ms[|ms| - 1])[off..] == Flatten(Wires(ms))
    ensures Frames(sent) == Wires(Init(ms))
  {
    hide Frames, Wires, Wire, Flatten, AllFrames, IsFrame, Answered, Covered;
    var last, ws := ms[|ms| - 1], Wires(Init(ms));
    assert ms == Init(ms) + [last];
    AddMessage(Init(ms), last);
    WiresAreFrames(Init(ms));
    WireIsFrame(last);
    CutInLast(ws, Wire(last), sent, off);
  }

  lemma CutInLast(ws: seq<Bytes>, last: Bytes, sent: Bytes, off: nat)
    requires AllFrames(ws) && IsFrame(last) && off < |last|
    requires sent + last[off..] == Flatten(ws) + last
    ensures Frames(sent) == ws
  {
    hide Frames, Flatten, AllFrames, IsFrame;
    var done, rest := last[..off], last[off..];
    assert last == done + rest;
    Associative(Flatten(ws), done, rest);
    SplitEqual(sent, rest, Flatten(ws) + done, rest);
    FramesUnique(ws, done);
    PrefixHasNone(last, off);
    assert ws + [] == ws;
  }

  /** The receive buffer when a read decides what to serve. */
  function Buffered(c: Conn, r: Recv): Bytes {
    if Oversize(c.inbox) || Complete(c.inbox) then c.inbox else c.inbox + Taken(r, BUFFER - |c.inbox|)
  }

  /** The step serves a GET_TOKEN that runs into the TPM lockout, on a client subscribed to status events. */
  predicate Overwrites(c: Conn, s: Step) {
    && s.Readable? && c.out == [] && Complete(Buffered(c, s.recv)) && LocksOut(First(Buffered(c, s.recv)), s.outcome)
    && c.subscribed && And(EVENT_STATUS, c.mask) != 0
  }

  /** The push a step raises for this client, if any. */
  function RaisedBy(c: Conn, s: Step): seq<Raised> {
    if Overwrites(c, s) then [Raised(And(EVENT_STATUS, c.mask), true)]
    else if s.Pushed? && c.subscribed && And(s.events, c.mask) != 0 then [Raised(And(s.events, c.mask), false)]
    else []
  }

  lemma ServeRaises(c: Conn, o: Outcome, self: bool)
    ensures Serve(c, o, self).0.log.raised == c.log.raised +
            if !Oversize(c.inbox) && Complete(c.inbox) && c.out == [] && LocksOut(First(c.inbox), o) && c.subscribed
               && And(EVENT_STATUS, c.mask) != 0
            then [Raised(And(EVENT_STATUS, c.mask), true)] else []
  {
    hide And, Refusal, ReplyTo, NewMask, LocksOut, Complete, Oversize, First, Wire;
  }

  lemma {:induction false} WriteRaises(c: Conn, rs: seq<Send>, st: Status)
    ensures Write(c, rs, st).0.log.raised == c.log.raised
    decreases |rs|
  {
    if c.out == [] || c.off >= |c.out| || rs == [] {
    } else if rs[0].Takes? {
      WriteRaises(Transmit(c, Accepted(rs[0].n, |c.out| - c.off)), rs[1..], st);
    }
  }

  /**
   Every step logs exactly the pushes it raises: one per status change the
   client subscribed to. A push is overwritten exactly when the step serves a
   GET_TOKEN that runs into the TPM lockout.
   */
  lemma StepRaises(c: Conn, s: Step)
    ensures Apply(c, s).log.raised == c.log.raised + RaisedBy(c, s)
  {
    hide And, Serve, Complete, Oversize, First, LocksOut;
    match s
    case Readable(r, o, self) =>
      if Oversize(c.inbox) || Complete(c.inbox) {
        ServeRaises(c, o, self);
        OversizeIncomplete(c.inbox);
      } else if r.Waiting? && r.bytes != [] {
        ServeRaises(Receive(c, Taken(r, BUFFER - |c.inbox|)), o, self);
        OversizeIncomplete(Buffered(c, r));
      } else {
        assert c.inbox + [] == c.inbox;
      }
    case Writable(rs, st) => WriteRaises(c, rs, st);
    case Pushed(events, st) =>
  }

  /** A push goes without a notification exactly there, on every step of every run. */
  lemma OverwrittenExactly(c: Conn, s: Step)
    ensures Overwritten(Apply(c, s).log.raised) == Overwritten(c.log.raised) +
            if Overwrites(c, s) then [And(EVENT_STATUS, c.mask)] else []
  {
    hide Apply, Overwrites, And;
    StepRaises(c, s);
    if RaisedBy(c, s) == [] {
      assert c.log.raised + [] == c.log.raised;
    } else {
      AddRaised(c.log.raised, RaisedBy(c, s)[0]);
      assert RaisedBy(c, s) == [RaisedBy(c, s)[0]];
    }
  }

  /** A push is raised with exactly the bits of the status change that the client subscribed to. */
  lemma RaisedBits(c: Conn, s: Step, k: nat)
    requires RaisedBy(c, s) != []
    ensures var events := if s.Pushed? then s.events else EVENT_STATUS;
            |RaisedBy(c, s)| == 1 && (Bit(RaisedBy(c, s)[0].events, k) <==> Bit(events, k) && Bit(c.mask, k))
  {
    hide Bit, AndNat;
    AndBit(if s.Pushed? then s.events else EVENT_STATUS, c.mask, k);
  }

  lemma OversizeIncomplete(s: Bytes)
    ensures !(Oversize(s) && Complete(s))
  {
  }

  /**
   Of all pushes raised for a client, those not overwritten are each covered
   by exactly one notification, in order, or wait behind a send in progress;
   and the pending event word has every bit that waits.
   */
  lemma NoPushIsLost(tr: seq<Conn>, i: nat)
    requires IsRun(tr) && i < |tr|
    ensures Kept(tr[i].log.raised) == Covered(tr[i].log.messages) + tr[i].log.deferred
    ensures tr[i].log.deferred != [] ==> tr[i].out != [] && tr[i].subscribed
    ensures tr[i].pendingEvents == OrAll(tr[i].log.deferred)
  {
    RunOk(tr, i);
  }

  // ----- what becomes of a push

  /** The send side of c' is that of c, and so are the frames dispatched. */
  ghost predicate Unmoved(c: Conn, c': Conn) {
    && c'.out == c.out && c'.off == c.off && c'.armed == c.armed
    && c'.log.sent == c.log.sent && c'.log.dispatched == c.log.dispatched
  }

  lemma StuckStep(c: Conn, c': Conn)
    requires Next(c, c') && c.off < |c.out| && !c.armed
    ensures Unmoved(c, c')
  {
    hide And, Or, Complete, Oversize, Dispatch, Wire, Taken;
  }

  lemma {:induction false} StuckChain(tr: seq<Conn>, i: nat, j: nat)
    requires IsChain(tr)
    requires i <= j < |tr| && tr[i].off < |tr[i].out| && !tr[i].armed
    ensures Unmoved(tr[i], tr[j])
  {
    if i == j {
    } else {
      StuckChain(tr, i, j - 1);
      assert StepAt(tr, j - 1);
      StuckStep(tr[j - 1], tr[j]);
    }
  }

  /** While a message waits and EPOLLOUT is off, nothing more is ever sent or dispatched on the connection. */
  lemma UnarmedIsStuck(tr: seq<Conn>, i: nat, j: nat)
    requires IsRun(tr) && i <= j < |tr| && tr[i].out != [] && !tr[i].armed
    ensures Unmoved(tr[i], tr[j])
  {
    RunOk(tr, i);
    StuckChain(tr, i, j);
  }

  ghost predicate CanSend(c: Conn) {
    exists s: Step :: Apply(c, s).log.sent != c.log.sent
  }

  /** A socket that takes one byte. */
  lemma OneByteGoes(c: Conn, st: Status)
    requires c.off < |c.out| && c.armed
    ensures Apply(c, Writable([Takes(0)], st)).log.sent == c.log.sent + [c.out[c.off]]
  {
    var d := Transmit(c, 1);
    assert [Takes(0)][1..] == [];
    assert Write(c, [Takes(0)], st) == Write(d, [], st);
    assert c.out[c.off..c.off + 1] == [c.out[c.off]];
  }

  /** A waiting message can move on exactly while EPOLLOUT is armed. */
  lemma SendsIffArmed(c: Conn, st: Status)
    requires Ok(c) && c.out != []
    ensures CanSend(c) <==> c.armed
  {
    hide Sending, Write, Read, Push;
    if c.armed {
      OneByteGoes(c, st);
      assert Apply(c, Writable([Takes(0)], st)).log.sent != c.log.sent;
    } else {
      forall s: Step ensures Apply(c, s).log.sent == c.log.sent {
        StuckStep(c, Apply(c, s));
      }
    }
  }

  /**
   After a relevant push the connection can send exactly when a message was
   already on its way with EPOLLOUT armed. A push to an idle client never
   leaves, nor does one to a client stuck since an earlier push.
   */
  lemma PushMovesIffArmed(c: Conn, events: Events, st: Status)
    requires Ok(c) && c.subscribed && And(events, c.mask) != 0
    ensures CanSend(Push(c, events, st)) <==> c.out != [] && c.armed
  {
    hide And, Sending;
    PushOk(c, events, st);
    PushNeverArms(c, events, st);
    SendsIffArmed(Push(c, events, st), st);
  }

  /** A push always leaves a message waiting; the push itself never arms EPOLLOUT. */
  lemma PushNeverArms(c: Conn, events: Events, st: Status)
    requires Ok(c) && c.subscribed && And(events, c.mask) != 0
    ensures Push(c, events, st).out != []
    ensures c.out == [] ==> !Push(c, events, st).armed
    ensures c.out != [] ==> Push(c, events, st).armed == c.armed
  {
    hide And;
  }

  // ----- a run that gets stuck

  const SUBSCRIBE_STATUS: Bytes :=
    Le32(IPC_MAGIC) + Le32(IPC_VERSION) + Le32(CMD_SUBSCRIBE) + Le32(4) + Le32(EVENT_STATUS)

  lemma SubscribeReads()
    ensures |SUBSCRIBE_STATUS| == 20 && IsFrame(SUBSCRIBE_STATUS) && Refusal(SUBSCRIBE_STATUS) == None
    ensures Command(SUBSCRIBE_STATUS) == CMD_SUBSCRIBE && NewMask(SUBSCRIBE_STATUS, true) == Some(EVENT_STATUS)
  {
    var f := SUBSCRIBE_STATUS;
    assert f[0..4] == Le32(IPC_MAGIC) && f[4..8] == Le32(IPC_VERSION) && f[8..12] == Le32(CMD_SUBSCRIBE);
    assert f[12..16] == Le32(4) && f[16..20] == Le32(EVENT_STATUS);
    Le32RoundTrip(f, 0, IPC_MAGIC);
    Le32RoundTrip(f, 4, IPC_VERSION);
    Le32RoundTrip(f, 8, CMD_SUBSCRIBE);
    Le32RoundTrip(f, 12, 4);
    Le32RoundTrip(f, 16, EVENT_STATUS);
  }

  lemma StatusBit()
    ensures And(EVENT_STATUS, EVENT_STATUS) == 1
  {
    assert AndNat(0, 0) == 0;
  }

  /** The client subscribes and gets its reply. */
  lemma SubscribedAndIdle(o: Outcome, st: Status) returns (b: Conn, c: Conn)
    ensures b == Apply(FRESH, Readable(Waiting(SUBSCRIBE_STATUS), o, true))
    ensures c == Apply(b, Writable([Takes(15)], st))
    ensures c.subscribed && c.mask == EVENT_STATUS && c.inbox == [] && c.out == [] && !c.armed
  {
    hide Le32, ReadLe32, Refusal, Command, NewMask;
    SubscribeReads();
    var f := SUBSCRIBE_STATUS;
    b := Apply(FRESH, Readable(Waiting(f), o, true));
    assert [] + f == f && First(f) == f;
    assert b.subscribed && b.mask == EVENT_STATUS && b.inbox == [] && b.armed && b.off == 0 && |b.out| == 16;
    c := Apply(b, Writable([Takes(15)], st));
    assert [Takes(15)][1..] == [];
    assert Write(b, [Takes(15)], st) == Write(Transmit(b, 16), [], st);
  }

  /** Connecting, subscribing, being answered and then told of a status change is enough to get stuck. */
  lemma StuckIsReachable(o: Outcome, st: Status) returns (tr: seq<Conn>)
    ensures IsRun(tr) && |tr| == 4 && tr[3].out != [] && !tr[3].armed
    ensures tr[3] == Push(tr[2], EVENT_STATUS, st) && tr[2].out == [] && tr[2].subscribed
  {
    var b, c := SubscribedAndIdle(o, st);
    StatusBit();
    var d := Push(c, EVENT_STATUS, st);
    assert d.out != [] && !d.armed;
    hide Read, Write, Push;
    assert d == Apply(c, Pushed(EVENT_STATUS, st));
    tr := [FRESH, b, c, d];
    ThreeSteps(b, c, d);
  }

  lemma ThreeSteps(b: Conn, c: Conn, d: Conn)
    requires Next(FRESH, b) && Next(b, c) && Next(c, d)
    ensures IsRun([FRESH, b, c, d])
  {
    hide Next;
    var tr := [FRESH, b, c, d];
    forall k ensures StepAt(tr, k) {
      if k == 0 { assert Next(tr[0], tr[1]); }
      if k == 1 { assert Next(tr[1], tr[2]); }
      if k == 2 { assert Next(tr[2], tr[3]); }
    }
  }

  // ----- a run that overwrites a push

  const GET_TOKEN: Bytes := Le32(IPC_MAGIC) + Le32(IPC_VERSION) + Le32(CMD_GET_TOKEN) + Le32(0)

  lemma GetTokenReads()
    ensures |GET_TOKEN| == 16 && IsFrame(GET_TOKEN) && Refusal(GET_TOKEN) == None && Command(GET_TOKEN) == CMD_GET_TOKEN
  {
    hide Le32, ReadLe32;
    var f := GET_TOKEN;
    assert f[0..16] == f;
    FourAt(f, 0, Le32(IPC_MAGIC), Le32(IPC_VERSION), Le32(CMD_GET_TOKEN), Le32(0));
    Le32RoundTrip(f, 0, IPC_MAGIC);
    Le32RoundTrip(f, 4, IPC_VERSION);
    Le32RoundTrip(f, 8, CMD_GET_TOKEN);
    Le32RoundTrip(f, 12, 0);
  }

  lemma TokenRequestOverwrites(c: Conn, o: Outcome)
    requires c.subscribed && c.mask == EVENT_STATUS && c.inbox == [] && c.out == [] && o.lockout
    ensures Overwrites(c, Readable(Waiting(GET_TOKEN), o, true))
  {
    hide Le32, ReadLe32, Refusal, Command, And;
    GetTokenReads();
    StatusBit();
    assert [] + GET_TOKEN == GET_TOKEN && First(GET_TOKEN) == GET_TOKEN;
  }

  /** Subscribing, being answered and then asking for a token of a TPM that locks out loses a push. */
  lemma OverwriteIsReachable(o: Outcome, st: Status) returns (tr: seq<Conn>, s: Step)
    requires o.lockout
    ensures IsRun(tr) && |tr| == 4 && tr[3] == Apply(tr[2], s) && Overwrites(tr[2], s)
    ensures Overwritten(tr[3].log.raised) != []
  {
    var b, c := SubscribedAndIdle(o, st);
    hide Read, Write, Push, Overwrites, And, Overwritten;
    s := Readable(Waiting(GET_TOKEN), o, true);
    TokenRequestOverwrites(c, o);
    OverwrittenExactly(c, s);
    tr := [FRESH, b, c, Apply(c, s)];
    ThreeSteps(b, c, Apply(c, s));
  }
}
