/**
 struct ipc_client of src/agent/ipc.c: the fixed receive and send buffers and
 the subscription flags of one connection. Each handler is proved to do to the
 buffers what the corresponding step of module Connection does to their value.
 */
module IpcClient {
  import opened ByteCodec
  import opened BitWords
  import opened Framing
  import opened Connection

  class Client {
    const recvBuf: array<Byte>
    var recvLen: nat
    const sendBuf: array<Byte>
    var sendLen: nat
    var sendOffset: nat
    var subscribed: bool
    var eventMask: Events
    var notifyPending: bool
    var pendingEvents: Events
    /** EPOLLOUT is registered for the socket. */
    var armed: bool
    /** The connection state the fields stand for. */
    ghost var conn: Conn

    ghost predicate Valid()
      reads this, recvBuf, sendBuf
    {
      && recvBuf.Length == BUFFER && sendBuf.Length == BUFFER && recvBuf != sendBuf
      && recvLen <= BUFFER && recvBuf[..recvLen] == conn.inbox
      && SendMatches() && FlagsMatch()
    }

    ghost predicate SendMatches()
      requires sendBuf.Length == BUFFER
      reads this, sendBuf
    {
      sendLen <= BUFFER && sendBuf[..sendLen] == conn.out && sendOffset == conn.off <= sendLen
    }

    ghost predicate FlagsMatch()
      reads this
    {
      && subscribed == conn.subscribed && eventMask == conn.mask && armed == conn.armed
      && notifyPending == conn.notifyPending && pendingEvents == conn.pendingEvents
    }

    constructor ()
      ensures Valid() && fresh(recvBuf) && fresh(sendBuf) && conn == FRESH
    {
      recvBuf := new Byte[BUFFER](_ => 0);
      sendBuf := new Byte[BUFFER](_ => 0);
      recvLen, sendLen, sendOffset := 0, 0, 0;
      subscribed, eventMask, notifyPending, pendingEvents, armed := false, 0, false, 0, false;
      conn := FRESH;
    }

    /** A message is written over the send buffer. */
    method Fill(bytes: Bytes)
      requires sendBuf.Length == BUFFER && |bytes| <= BUFFER
      modifies sendBuf, this`sendLen, this`sendOffset
      ensures sendLen == |bytes| && sendOffset == 0 && sendBuf[..sendLen] == bytes
    {
      forall i | 0 <= i < |bytes| {
        sendBuf[i] := bytes[i];
      }
      sendLen, sendOffset := |bytes|, 0;
    }

    /** build_notification, into the empty send buffer. */
    method BuildNotification(events: Events, st: Status, ghost covers: seq<Events>)
      requires Valid() && sendOffset == sendLen && events == OrAll(covers)
      modifies sendBuf, this`sendLen, this`sendOffset, this`conn
      ensures Valid() && conn == Build(old(conn), Notice(covers, st))
    {
      Fill(Response(NOTIFY, NoticePayload(events, st)));
      conn := Build(conn, Notice(covers, st));
    }

    method Coalesce(relevant: Events)
      requires FlagsMatch()
      modifies this`notifyPending, this`pendingEvents, this`conn
      ensures FlagsMatch()
      ensures conn == old(conn).(notifyPending := true, pendingEvents := Or(old(conn).pendingEvents, relevant),
                                 log := old(conn).log.(deferred := old(conn).log.deferred + [relevant]))
    {
      notifyPending := true;
      pendingEvents := Or(pendingEvents, relevant);
      conn := conn.(notifyPending := true, pendingEvents := pendingEvents,
                    log := conn.log.(deferred := conn.log.deferred + [relevant]));
    }

    /** notify_subscribers and push_notify. */
    method PushNotify(events: Events, st: Status)
      requires Valid()
      modifies this, sendBuf
      ensures Valid() && conn == Push(old(conn), events, st)
    {
      if !subscribed {
        return;
      }
      var relevant := And(events, eventMask);
      if relevant == 0 {
        return;
      }
      conn := conn.(log := conn.log.(raised := conn.log.raised + [Raised(relevant, false)]));
      if sendLen > sendOffset {
        Coalesce(relevant);
        return;
      }
      OrAllOne(relevant);
      BuildNotification(relevant, st, [relevant]);
    }

    /** The reply to the request f goes into the send buffer, and an accepted SUBSCRIBE takes effect. */
    method ProcessRequest(f: Bytes, o: Outcome, self: bool, st: Status)
      requires Valid() && IsFrame(f)
      modifies this, sendBuf
      ensures Valid()
      ensures conn == Build(Process(old(conn), f, o, self), ReplyTo(f, o, self))
    {
      hide ReplyTo, NewMask, Refusal, Wire, First, Complete, IsFrame;
      ProcessFlags(conn, f, o, self);
      var reply := Handle(f, o, self, st);
      conn := Build(Process(conn, f, o, self), ReplyTo(f, o, self));
      Fill(reply);
    }

    /** process_request up to its reply: header checks, then the command's handler. */
    method Handle(f: Bytes, o: Outcome, self: bool, st: Status) returns (reply: Bytes)
      requires IsFrame(f) && sendBuf.Length == BUFFER
      modifies sendBuf, this`sendLen, this`sendOffset
      modifies this`subscribed, this`eventMask, this`notifyPending, this`pendingEvents
      ensures reply == Wire(ReplyTo(f, o, self))
      ensures match NewMask(f, self)
              case None =>
                subscribed == old(subscribed) && eventMask == old(eventMask) &&
                notifyPending == old(notifyPending) && pendingEvents == old(pendingEvents)
              case Some(m) =>
                subscribed == (m != 0) && eventMask == m &&
                notifyPending == (old(notifyPending) && m != 0) &&
                pendingEvents == if m == 0 then 0 else old(pendingEvents)
    {
      var refusal := Refusal(f);
      if refusal.Some? {
        return Response(refusal.value, []);
      }
      if Command(f) == CMD_SUBSCRIBE {
        if !self {
          return Response(ERR_ACCESS_DENIED, []);
        }
        var mask := ReadLe32(f, HEADER);
        if mask == 0 {
          subscribed, eventMask, notifyPending, pendingEvents := false, 0, false, 0;
        } else {
          subscribed, eventMask := true, mask;
        }
        return Response(OK, []);
      }
      if Command(f) == CMD_GET_TOKEN && o.lockout {
        // the status change is pushed to every subscriber, this client included,
        // before the error reply overwrites the send buffer
        if subscribed && And(EVENT_STATUS, eventMask) != 0 {
          Fill(Response(NOTIFY, NoticePayload(And(EVENT_STATUS, eventMask), st)));
        }
        return Response(ERR_TPM_LOCKOUT, []);
      }
      return Response(o.result, o.payload);
    }

    /** A whole request is buffered: it is processed unless a send is pending, and its bytes are shifted out. */
    method ServeBuffered(o: Outcome, self: bool, st: Status) returns (res: ReadResult)
      requires Valid() && Complete(conn.inbox)
      modifies this, recvBuf, sendBuf
      ensures Valid() && (conn, res) == Serve(old(conn), o, self)
    {
      if sendLen > 0 {
        return Idle;
      }
      DispatchInOrder(conn, o, self);
      var f := First(recvBuf[..recvLen]);
      ProcessRequest(f, o, self, st);
      Consume(f);
      return Dispatched;
    }

    /** EPOLLOUT is armed for the reply, and the request's bytes leave the buffer. */
    method Consume(f: Bytes)
      requires Valid() && |f| <= recvLen
      modifies recvBuf, this`recvLen, this`armed, this`conn
      ensures Valid() && |f| <= |old(conn).inbox| && conn == Consumed(old(conn), f)
    {
      hide Consumed;
      ConsumedFields(conn, f);
      Shift(|f|, conn.inbox);
      armed := true;
      conn := Consumed(conn, f);
    }

    /** memmove of the bytes after the first n to the front. */
    method Shift(n: nat, ghost held: Bytes)
      requires recvBuf.Length == BUFFER && n <= recvLen <= BUFFER && recvBuf[..recvLen] == held
      modifies recvBuf, this`recvLen
      ensures recvLen == old(recvLen) - n && recvBuf[..recvLen] == held[n..]
    {
      recvLen := recvLen - n;
      forall i | 0 <= i < recvLen {
        recvBuf[i] := recvBuf[i + n];
      }
    }

    method Append(chunk: Bytes)
      requires recvBuf.Length == BUFFER && recvLen + |chunk| <= BUFFER
      modifies recvBuf, this`recvLen
      ensures recvLen == old(recvLen) + |chunk| && recvBuf[..recvLen] == old(recvBuf[..recvLen]) + chunk
    {
      forall i | 0 <= i < |chunk| {
        recvBuf[recvLen + i] := chunk[i];
      }
      recvLen := recvLen + |chunk|;
    }

    /** The header check made before and after recv: `whole` when the buffer decides without more bytes. */
    method TryServe(o: Outcome, self: bool, st: Status) returns (whole: bool, res: ReadResult)
      requires Valid()
      modifies this, recvBuf, sendBuf
      ensures Valid() && (conn, res) == Serve(old(conn), o, self)
      ensures whole == (Oversize(old(conn).inbox) || Complete(old(conn).inbox))
    {
      if recvLen < HEADER {
        return false, Idle;
      }
      var len := PayloadLen(recvBuf[..recvLen]);
      if len > MAX_PAYLOAD {
        return true, Close;
      }
      if recvLen < HEADER + len {
        return false, Idle;
      }
      whole := true;
      res := ServeBuffered(o, self, st);
    }

    /** handle_client_read. */
    method HandleRead(r: Recv, o: Outcome, self: bool, st: Status) returns (res: ReadResult)
      requires Valid()
      modifies this, recvBuf, sendBuf
      ensures Valid() && (conn, res) == Read(old(conn), r, o, self)
    {
      hide Dispatch, First, Complete, Oversize;
      var whole;
      whole, res := TryServe(o, self, st);
      if whole {
        return;
      }
      assert recvLen < BUFFER by { RoomLeft(conn.inbox); }
      if r.Again? {
        return Idle;
      }
      if r.Gone? || r.bytes == [] {
        return Close;
      }
      var chunk := Taken(r, BUFFER - recvLen);
      Append(chunk);
      conn := Receive(conn, chunk);
      whole, res := TryServe(o, self, st);
    }

    /** The message is out: the buffer is reset and pending events become one notification. */
    method Finish(st: Status)
      requires Valid() && conn.pendingEvents == OrAll(conn.log.deferred)
      modifies this, sendBuf
      ensures Valid() && conn == Flush(old(conn), st)
    {
      sendLen, sendOffset := 0, 0;
      conn := conn.(out := [], off := 0);
      if subscribed && notifyPending {
        var pending := pendingEvents;
        ghost var covers := conn.log.deferred;
        notifyPending, pendingEvents := false, 0;
        conn := conn.(notifyPending := false, pendingEvents := 0, log := conn.log.(deferred := []));
        BuildNotification(pending, st, covers);
      }
      if sendLen == 0 {
        armed := false;
        conn := conn.(armed := false);
      }
    }

    /** handle_client_write: send until the message is out, the socket blocks or it fails. */
    method HandleWrite(rs: seq<Send>, st: Status) returns (ok: bool)
      requires Valid() && conn.pendingEvents == OrAll(conn.log.deferred)
      modifies this, sendBuf
      ensures Valid() && (conn, ok) == Write(old(conn), rs, st)
    {
      if sendLen == 0 {
        return true;
      }
      var k := 0;
      while sendOffset < sendLen
        invariant Valid() && sendLen > 0 && k <= |rs| && conn.pendingEvents == OrAll(conn.log.deferred)
        invariant Write(old(conn), rs, st) == Write(conn, rs[k..], st)
        decreases |rs| - k
      {
        if k == |rs| || rs[k].WouldBlock? {
          return true;
        }
        if rs[k].Fails? {
          return false;
        }
        var n := Accepted(rs[k].n, sendLen - sendOffset);
        conn := Transmit(conn, n);
        sendOffset := sendOffset + n;
        k := k + 1;
      }
      Finish(st);
      ok := true;
    }
  }

  /** One event on the connection, as the event loop hands it to the buffers. */
  method HandleEvent(c: Client, step: Step, st: Status)
    requires c.Valid() && Ok(c.conn)
    modifies c, c.recvBuf, c.sendBuf
    ensures c.Valid() && c.conn == Apply(old(c.conn), step)
  {
    hide Read, Write, Push;
    match step {
      case Readable(r, o, self) =>
        var _ := c.HandleRead(r, o, self, st);
      case Writable(rs, status) =>
        if c.armed {
          var _ := c.HandleWrite(rs, status);
        }
      case Pushed(events, status) =>
        c.PushNotify(events, status);
    }
  }

  /**
   A connection from its creation on: whatever events come, the buffers go
   through a run, so all that holds of runs holds of them. The event loop
   destroys the client after a failed call, which ends the run early.
   */
  method RunConnection(steps: seq<Step>, st: Status) returns (c: Client, ghost tr: seq<Conn>)
    ensures c.Valid() && IsRun(tr) && |tr| == |steps| + 1 && tr[|steps|] == c.conn && Ok(c.conn)
    ensures forall i :: 0 <= i < |steps| ==> tr[i + 1] == Apply(tr[i], steps[i])
  {
    hide Apply, Ok, Client.Valid;
    c := new Client();
    tr := [FRESH];
    FreshOk();
    for i := 0 to |steps|
      invariant c.Valid() && fresh(c) && fresh(c.recvBuf) && fresh(c.sendBuf)
      invariant IsRun(tr) && |tr| == i + 1 && tr[i] == c.conn && Ok(c.conn)
      invariant forall k :: 0 <= k < i ==> tr[k + 1] == Apply(tr[k], steps[k])
    {
      ghost var before := c.conn;
      HandleEvent(c, steps[i], st);
      LongerRun(tr, steps[i]);
      NextOk(before, c.conn);
      tr := tr + [c.conn];
    }
  }
}
