/**
 What a peer of the IPC server reads (process_request and its handlers,
 build_notification, handle_client_read and handle_client_write in
 src/agent/ipc.c), stated on the bytes of requests, replies and notifications:
 which result and payload answer a request, what a notification reports, when
 the connection is closed, and that a message in the send buffer keeps
 EPOLLOUT armed.
 */
module Replies {
  import opened ByteCodec
  import opened BitWords
  import opened Framing
  import opened Connection

  // ----- messages by their fields

  /** A response is magic, version, result, length and payload, each where the client looks for it. */
  lemma ResponseFields(result: U32, payload: Payload)
    ensures var r := Response(result, payload);
            && ReadLe32(r, 0) == 0x4C4F5441 && ReadLe32(r, 4) == 1 && ReadLe32(r, 8) == result
            && ReadLe32(r, 12) == |payload| && r[16..] == payload
  {
    hide Le32, ReadLe32;
    var r := Response(result, payload);
    var head := Le32(IPC_MAGIC) + Le32(IPC_VERSION) + Le32(result) + Le32(|payload|);
    assert r[0..16] == head && r == head + payload;
    FourAt(r, 0, Le32(IPC_MAGIC), Le32(IPC_VERSION), Le32(result), Le32(|payload|));
    Le32RoundTrip(r, 0, IPC_MAGIC);
    Le32RoundTrip(r, 4, IPC_VERSION);
    Le32RoundTrip(r, 8, result);
    Le32RoundTrip(r, 12, |payload|);
  }

  /** struct lota_ipc_notify: the events and the status, field by field. */
  ghost predicate ReportsAt(w: Bytes, at: nat, events: Events, st: Status)
    requires |w| == at + 36
  {
    && ReadLe32(w, at) == events && ReadLe32(w, at + 4) == st.flags
    && ReadLe64(w, at + 8) == st.lastAttest && ReadLe64(w, at + 16) == st.validUntil
    && ReadLe32(w, at + 24) == st.attested && ReadLe32(w, at + 28) == st.failed
    && w[at + 32..] == [st.mode, 0, 0, 0]
  }

  lemma NoticePayloadFields(events: Events, st: Status)
    ensures ReportsAt(NoticePayload(events, st), 0, events, st)
  {
    hide Le32, ReadLe32, Le64, ReadLe64;
    var p := NoticePayload(events, st);
    var a, b, c, d := Le32(events), Le32(st.flags), Le64(st.lastAttest), Le64(st.validUntil);
    var e, f, g := Le32(st.attested), Le32(st.failed), [st.mode, 0, 0, 0];
    assert p == a + b + c + d + e + f + g;
    assert p[0..4] == a && p[4..8] == b && p[8..16] == c && p[16..24] == d;
    assert p[24..28] == e && p[28..32] == f && p[32..36] == g;
    Le32RoundTrip(p, 0, events);
    Le32RoundTrip(p, 4, st.flags);
    Le64RoundTrip(p, 8, st.lastAttest);
    Le64RoundTrip(p, 16, st.validUntil);
    Le32RoundTrip(p, 24, st.attested);
    Le32RoundTrip(p, 28, st.failed);
  }

  lemma ReadShifted32(w: Bytes, p: Bytes, at: nat, i: nat)
    requires at + |p| == |w| && w[at..] == p && i + 4 <= |p|
    ensures ReadLe32(w, at + i) == ReadLe32(p, i)
  {
    assert forall k :: 0 <= k < |p| ==> w[at + k] == p[k];
  }

  lemma ReadShifted64(w: Bytes, p: Bytes, at: nat, i: nat)
    requires at + |p| == |w| && w[at..] == p && i + 8 <= |p|
    ensures ReadLe64(w, at + i) == ReadLe64(p, i)
  {
    ReadShifted32(w, p, at, i);
    ReadShifted32(w, p, at, i + 4);
  }

  /** A notification has result 0x80, every bit of the pushes it covers, and the status it was built with. */
  lemma NoticeFields(covers: seq<Events>, st: Status)
    ensures var w := Wire(Notice(covers, st));
            && |w| == 52 && ReadLe32(w, 0) == 0x4C4F5441 && ReadLe32(w, 4) == 1 && ReadLe32(w, 8) == 0x80
            && ReadLe32(w, 12) == 36 && ReportsAt(w, 16, OrAll(covers), st)
  {
    hide ReadLe32, ReadLe64, Response, NoticePayload, OrAll;
    var p := NoticePayload(OrAll(covers), st);
    var w := Wire(Notice(covers, st));
    ResponseFields(NOTIFY, p);
    NoticePayloadFields(OrAll(covers), st);
    ReadShifted32(w, p, 16, 0);
    ReadShifted32(w, p, 16, 4);
    ReadShifted64(w, p, 16, 8);
    ReadShifted64(w, p, 16, 16);
    ReadShifted32(w, p, 16, 24);
    ReadShifted32(w, p, 16, 28);
    assert w[48..] == w[16..][32..];
  }

  /** A push to an idle subscriber puts a notification of the subscribed events into the send buffer. */
  lemma PushReports(c: Conn, events: Events, st: Status)
    requires Ok(c) && c.out == [] && c.subscribed && And(events, c.mask) != 0
    ensures var d := Push(c, events, st);
            && d.off == 0 && |d.out| == 52 && ReadLe32(d.out, 8) == 0x80
            && ReportsAt(d.out, 16, And(events, c.mask), st)
  {
    hide And, Ok, Wire, OrAll, ReadLe32, ReadLe64, ReportsAt;
    OrAllOne(And(events, c.mask));
    NoticeFields([And(events, c.mask)], st);
    assert c.off >= |c.out|;
  }

  // ----- requests

  /** The read finds a whole request and the send buffer free. */
  ghost predicate Serves(c: Conn, r: Recv) {
    c.out == [] && Complete(Buffered(c, r))
  }

  /** The header is well-formed, and the command is one of the seven with a payload of its size. */
  ghost predicate Handled(f: Bytes)
    requires IsFrame(f)
  {
    var cmd, len := ReadLe32(f, 8), |f| - 16;
    && ReadLe32(f, 0) == 0x4C4F5441 && ReadLe32(f, 4) == 1
    && ((cmd in {1, 2, 7} && len == 0) || (cmd == 3 && len in {0, 32}) || (cmd in {4, 5, 6} && len == 4))
  }

  /**
   The result and payload the request f is answered with, where the command's
   own handler says o: bad magic and bad length are 2, a bad version 8, an
   unknown command 1; SUBSCRIBE is accepted from the agent itself only; a
   GET_TOKEN that runs into the lockout is 9; all else is the handler's.
   */
  ghost predicate AnswerOf(f: Bytes, o: Outcome, self: bool, result: U32, payload: Bytes)
    requires IsFrame(f)
  {
    var cmd, len := ReadLe32(f, 8), |f| - 16;
    && (ReadLe32(f, 0) != 0x4C4F5441 ==> result == 2 && payload == [])
    && (ReadLe32(f, 0) == 0x4C4F5441 && ReadLe32(f, 4) != 1 ==> result == 8 && payload == [])
    && (ReadLe32(f, 0) == 0x4C4F5441 && ReadLe32(f, 4) == 1 && !Handled(f) ==>
          result == (if len == 0 && (cmd == 0 || cmd > 7) then 1 else 2) && payload == [])
    && (Handled(f) && cmd == 4 ==> result == (if self then 0 else 7) && payload == [])
    && (Handled(f) && cmd == 3 && o.lockout ==> result == 9 && payload == [])
    && (Handled(f) && cmd != 4 && !(cmd == 3 && o.lockout) ==> result == o.result && payload == o.payload)
  }

  lemma RefusalMeans(f: Bytes)
    requires IsFrame(f)
    ensures Refusal(f) == None <==> Handled(f)
    ensures Refusal(f).Some? && Refusal(f).value == 8 <==> ReadLe32(f, 0) == 0x4C4F5441 && ReadLe32(f, 4) != 1
    ensures Refusal(f).Some? && Refusal(f).value == 1 <==>
            ReadLe32(f, 0) == 0x4C4F5441 && ReadLe32(f, 4) == 1
            && |f| == 16 && (ReadLe32(f, 8) == 0 || ReadLe32(f, 8) > 7)
    ensures Refusal(f).Some? ==> Refusal(f).value in {1, 2, 8}
  {
    hide ReadLe32;
  }

  lemma ReplyMeans(f: Bytes, o: Outcome, self: bool)
    requires IsFrame(f)
    ensures var m := ReplyTo(f, o, self); m.Reply? && AnswerOf(f, o, self, m.result, m.payload)
  {
    hide ReadLe32, Refusal, IsFrame;
    RefusalMeans(f);
  }

  /** The connection when a read decides what to serve. */
  ghost function Filled(c: Conn, r: Recv): Conn {
    if Oversize(c.inbox) || Complete(c.inbox) then c else Receive(c, Taken(r, BUFFER - |c.inbox|))
  }

  lemma ReadServes(c: Conn, r: Recv, o: Outcome, self: bool)
    requires Serves(c, r)
    ensures Filled(c, r).inbox == Buffered(c, r) && Read(c, r, o, self) == (Dispatch(Filled(c, r), o, self), Dispatched)
  {
    hide Dispatch, Complete, Oversize, Taken;
    OversizeIncomplete(Buffered(c, r));
    if !r.Waiting? || r.bytes == [] {
      NothingTaken(c, r);
    }
  }

  /** What dispatching a request does to the connection, by its parts. */
  lemma DispatchParts(c: Conn, o: Outcome, self: bool)
    requires Complete(c.inbox)
    ensures var f, d := First(c.inbox), Dispatch(c, o, self);
            && d.out == Wire(ReplyTo(f, o, self)) && d.off == 0 && d.armed && d.inbox == c.inbox[|f|..]
            && match NewMask(f, self)
               case None => d.subscribed == c.subscribed && d.mask == c.mask
               case Some(m) => d.subscribed == (m != 0) && d.mask == m
  {
    hide Wire, ReplyTo, NewMask, LocksOut, First, Complete, Process;
    ProcessFlags(c, First(c.inbox), o, self);
  }

  lemma FilledKeeps(c: Conn, r: Recv)
    ensures Filled(c, r).subscribed == c.subscribed && Filled(c, r).mask == c.mask
  {
  }

  lemma NothingTaken(c: Conn, r: Recv)
    requires !r.Waiting? || r.bytes == []
    ensures Buffered(c, r) == c.inbox
  {
    assert c.inbox + [] == c.inbox;
  }

  /**
   A served request is answered on the wire with exactly the result and
   payload it should have, and an accepted SUBSCRIBE, and nothing else,
   changes the subscription to the mask the request carries.
   */
  lemma ServedReply(c: Conn, r: Recv, o: Outcome, self: bool)
    requires Ok(c) && Serves(c, r)
    ensures var f, d := First(Buffered(c, r)), Apply(c, Readable(r, o, self));
            && |d.out| >= 16 && ReadLe32(d.out, 0) == 0x4C4F5441 && ReadLe32(d.out, 4) == 1
            && ReadLe32(d.out, 12) == |d.out| - 16
            && AnswerOf(f, o, self, ReadLe32(d.out, 8), d.out[16..])
    ensures var f, d := First(Buffered(c, r)), Apply(c, Readable(r, o, self));
            if Handled(f) && ReadLe32(f, 8) == 4 && self
            then d.mask == ReadLe32(f, 16) && d.subscribed == (ReadLe32(f, 16) != 0)
            else d.mask == c.mask && d.subscribed == c.subscribed
  {
    hide Ok, Read, ReplyTo, Response, ReadLe32, First, Buffered, Complete, IsFrame, Refusal, AnswerOf, Handled;
    hide Dispatch, Filled;
    var f := First(Buffered(c, r));
    ReadServes(c, r, o, self);
    DispatchParts(Filled(c, r), o, self);
    FilledKeeps(c, r);
    ReplyMeans(f, o, self);
    RefusalMeans(f);
    var m := ReplyTo(f, o, self);
    ResponseFields(m.result, m.payload);
  }

  // ----- when a connection is closed

  /**
   A read closes the connection exactly on a header that declares too long a
   payload, on end of stream, and on an error; it dispatches exactly when it
   finds a whole request and nothing is being sent; and otherwise it leaves the
   send side and the requests answered as they were.
   */
  lemma ReadResults(c: Conn, r: Recv, o: Outcome, self: bool)
    requires Ok(c)
    ensures var buf, res := Buffered(c, r), Read(c, r, o, self).1;
            && (res == Close <==>
                || (|buf| >= 16 && ReadLe32(buf, 12) > 8192)
                || (!Complete(c.inbox) && (r.Gone? || r == Waiting([]))))
            && (res == Dispatched <==> Serves(c, r))
    ensures var d := Read(c, r, o, self).0;
            !Serves(c, r) ==>
              && d.out == c.out && d.off == c.off && d.armed == c.armed && d.log.messages == c.log.messages
              && d.log.dispatched == c.log.dispatched && d.subscribed == c.subscribed && d.mask == c.mask
  {
    hide Ok, Dispatch, First, Complete, Taken, ReadLe32;
    var buf := Buffered(c, r);
    OversizeIncomplete(buf);
    if !r.Waiting? || r.bytes == [] {
      NothingTaken(c, r);
    }
  }

  /** The smaller of two lengths. */
  ghost function Least(a: nat, b: nat): nat {
    if a <= b then a else b
  }

  /**
   A read that finds no whole request buffered takes as many of the waiting
   bytes as fit, at least one; any other read takes none.
   */
  lemma ReadTakes(c: Conn, r: Recv, o: Outcome, self: bool)
    requires Ok(c)
    ensures |c.inbox| <= 8208
    ensures Read(c, r, o, self).0.log.received ==
            c.log.received +
            if r.Waiting? && !Oversize(c.inbox) && !Complete(c.inbox)
            then r.bytes[..Least(|r.bytes|, 8208 - |c.inbox|)] else []
    ensures !Oversize(c.inbox) && !Complete(c.inbox) ==> |c.inbox| < 8208
  {
    hide Dispatch, First, Complete, Oversize, Wires, Wire, Flatten, AllFrames, Covered, Kept, Answered, OrAll;
    var e := Filled(c, r);
    assert c.log.received + [] == c.log.received;
    if Oversize(c.inbox) || Complete(c.inbox) {
      ServeReceives(c, o, self);
    } else {
      RecvHasRoom(c);
      if r.Waiting? {
        assert r.bytes[..|r.bytes|] == r.bytes;
        ServeReceives(e, o, self);
      }
    }
  }

  lemma ServeReceives(c: Conn, o: Outcome, self: bool)
    ensures Serve(c, o, self).0.log.received == c.log.received
  {
    hide Complete, Oversize, Dispatch;
    if Complete(c.inbox) { DispatchReceives(c, o, self); }
  }

  lemma DispatchReceives(c: Conn, o: Outcome, self: bool)
    requires Complete(c.inbox)
    ensures Dispatch(c, o, self).log.received == c.log.received
  {
    hide First, Complete, ReplyTo, NewMask, LocksOut, Wire, And;
  }

  /** The bytes k sends that each take up to n + 1 bytes would take in all. */
  ghost function Offered(rs: seq<Send>): nat
    requires forall j :: 0 <= j < |rs| ==> rs[j].Takes?
  {
    if rs == [] then 0 else rs[0].n + 1 + Offered(rs[1..])
  }

  /** The k-th send fails, and those before it leave part of the message. */
  ghost predicate FailsAt(rs: seq<Send>, left: nat, k: int) {
    0 <= k < |rs| && rs[k].Fails? && (forall j :: 0 <= j < k ==> rs[j].Takes?) && Offered(rs[..k]) < left
  }

  ghost predicate SomeSendFails(rs: seq<Send>, left: nat) {
    exists k :: FailsAt(rs, left, k)
  }

  lemma FailsLater(rs: seq<Send>, left: nat, k: int)
    requires rs != [] && rs[0].Takes? && rs[0].n < left && k >= 0
    ensures FailsAt(rs, left, k + 1) <==> FailsAt(rs[1..], left - rs[0].n - 1, k)
  {
    assert forall j :: 0 <= j < |rs| - 1 ==> rs[1..][j] == rs[j + 1];
    if k + 1 < |rs| && forall j :: 0 <= j < k + 1 ==> rs[j].Takes? {
      assert rs[..k + 1][1..] == rs[1..][..k];
    }
  }

  lemma FailsFirst(rs: seq<Send>, left: nat)
    requires left > 0
    ensures FailsAt(rs, left, 0) <==> rs != [] && rs[0].Fails?
    ensures rs != [] && !rs[0].Takes? ==> forall k :: FailsAt(rs, left, k) ==> k == 0
  {
    assert |rs| >= 0 && rs[..0] == [];
  }

  /** After a send that takes part of the message, the rest of the sends decides; one that takes it all ends it. */
  lemma FailsNext(rs: seq<Send>, left: nat)
    requires rs != [] && rs[0].Takes? && left > 0
    ensures SomeSendFails(rs, left) <==> SomeSendFails(rs[1..], left - Accepted(rs[0].n, left))
  {
    if rs[0].n < left {
      if k :| FailsAt(rs, left, k) {
        FailsFirst(rs, left);
        FailsLater(rs, left, k - 1);
      }
      var rest, after := rs[1..], left - rs[0].n - 1;
      if k :| FailsAt(rest, after, k) {
        FailsLater(rs, left, k);
      }
    } else {
      assert forall k :: 0 < k <= |rs| ==> rs[..k][0] == rs[0];
    }
  }

  /** A write fails exactly when a send fails before the message is out. */
  lemma {:induction false} WriteFails(c: Conn, rs: seq<Send>, st: Status)
    requires c.off <= |c.out|
    ensures !Write(c, rs, st).1 <==> SomeSendFails(rs, |c.out| - c.off)
    decreases |rs|
  {
    hide Flush, FailsAt;
    var left := |c.out| - c.off;
    if left == 0 {
      assert !SomeSendFails(rs, 0) by { NothingLeft(rs); }
    } else if rs == [] || !rs[0].Takes? {
      FailsFirst(rs, left);
      if rs == [] { assert !SomeSendFails([], left) by { NoSends(left); } }
    } else {
      var d := Transmit(c, Accepted(rs[0].n, left));
      WriteFails(d, rs[1..], st);
      assert Write(c, rs, st) == Write(d, rs[1..], st);
      FailsNext(rs, left);
    }
  }

  lemma NothingLeft(rs: seq<Send>)
    ensures !SomeSendFails(rs, 0)
  {
  }

  lemma NoSends(left: nat)
    ensures !SomeSendFails([], left)
  {
  }

  // ----- EPOLLOUT behind a message

  lemma FlushArms(c: Conn, st: Status)
    requires Sending(c) && c.armed && c.off == |c.out|
    ensures Flush(c, st).armed <==> Flush(c, st).out != []
  {
    hide Covered, Kept, Answered, Wires, Flatten, AllFrames, OrAll;
  }

  lemma {:induction false} WriteArms(c: Conn, rs: seq<Send>, st: Status)
    requires Sending(c) && c.armed && c.out != []
    ensures Write(c, rs, st).0.armed <==> Write(c, rs, st).0.out != []
    decreases |rs|
  {
    hide Sending, Flush;
    SendingOff(c);
    if c.off == |c.out| {
      FlushArms(c, st);
    } else if rs != [] && rs[0].Takes? {
      var d := Transmit(c, Accepted(rs[0].n, |c.out| - c.off));
      TransmitOk(c, Accepted(rs[0].n, |c.out| - c.off));
      WriteArms(d, rs[1..], st);
      assert Write(c, rs, st) == Write(d, rs[1..], st);
    }
  }

  /** While EPOLLOUT is armed, every step leaves it armed exactly if a message is left to send. */
  lemma ArmedWhileWaiting(c: Conn, s: Step)
    requires Ok(c) && c.armed
    ensures Apply(c, s).armed <==> Apply(c, s).out != []
  {
    hide Write, And, Serve, Read;
    assert c.out != [];
    match s
    case Readable(r, o, self) => ReadResults(c, r, o, self);
    case Writable(rs, st) => WriteArms(c, rs, st);
    case Pushed(events, st) =>
  }

  /** Once armed, a connection can send in every later state until its buffer has been empty. */
  lemma {:induction false} SendsUntilDrained(tr: seq<Conn>, i: nat, j: nat, st: Status)
    requires IsRun(tr) && i <= j < |tr| && tr[i].armed && forall k :: i <= k <= j ==> tr[k].out != []
    ensures tr[j].armed && CanSend(tr[j])
  {
    hide Ok, Apply, CanSend;
    RunOk(tr, j);
    if i < j {
      SendsUntilDrained(tr, i, j - 1, st);
      RunOk(tr, j - 1);
      assert StepAt(tr, j - 1);
      var s :| tr[j] == Apply(tr[j - 1], s);
      ArmedWhileWaiting(tr[j - 1], s);
    }
    SendsIffArmed(tr[j], st);
  }

  lemma WriteAll(c: Conn, st: Status)
    requires Ok(c) && c.armed
    ensures Apply(c, Writable([Takes(|c.out|)], st)) == Flush(Transmit(c, |c.out| - c.off), st)
  {
    hide Flush, Sending;
    SendingOff(c);
    assert c.out != [] by { ArmedHasMessage(c); }
    var d := Transmit(c, |c.out| - c.off);
    assert [Takes(|c.out|)][1..] == [];
    assert Write(c, [Takes(|c.out|)], st) == Write(d, [], st);
  }

  lemma ArmedHasMessage(c: Conn)
    requires Sending(c) && c.armed
    ensures c.out != []
  {
  }

  /** A socket that takes the whole message is next offered the deferred pushes, in one notification. */
  lemma DrainStep(c: Conn, st: Status)
    requires Ok(c) && c.armed
    ensures var d := Apply(c, Writable([Takes(|c.out|)], st));
            && Ok(d) && d.log.sent == c.log.sent + c.out[c.off..] && d.log.deferred == []
            && d.log.raised == c.log.raised
            && if c.log.deferred == [] then d.out == [] && !d.armed
               else d.armed && d.off == 0 && d.out == Wire(Notice(c.log.deferred, st))
  {
    hide Covered, Kept, Answered, Wire, Wires, Flatten, AllFrames, OrAll;
    WriteAll(c, st);
    var e := Transmit(c, |c.out| - c.off);
    assert c.out[c.off..c.off + (|c.out| - c.off)] == c.out[c.off..];
    TransmitOk(c, |c.out| - c.off);
    FlushOk(e, st);
  }

  /**
   A push behind a message on its way arrives: once the socket has taken that
   message and the notification after it, every push that was not overwritten
   has been sent in a notification, and nothing is left in the buffer.
   */
  lemma DeferredPushArrives(c: Conn, events: Events, st: Status)
    requires Ok(c) && c.armed && c.subscribed && And(events, c.mask) != 0
    ensures var d := Apply(Push(c, events, st), Writable([Takes(|c.out|)], st));
            var e := Apply(d, Writable([Takes(|d.out|)], st));
            && CanSend(d) && |d.out| == 52 && ReportsAt(d.out, 16, OrAll(c.log.deferred + [And(events, c.mask)]), st)
            && e.out == [] && Covered(e.log.messages) == Kept(e.log.raised)
            && e.log.sent == Flatten(Wires(e.log.messages)) && e.log.raised == Push(c, events, st).log.raised
  {
    hide Covered, Kept, Answered, Wire, Wires, Flatten, AllFrames, OrAll, And, ReportsAt, CanSend, Apply, ReadLe32;
    var relevant := And(events, c.mask);
    assert c.out != [] && c.off < |c.out|;
    var b := Push(c, events, st);
    assert b.armed && b.out == c.out && b.log.deferred == c.log.deferred + [relevant];
    PushOk(c, events, st);
    DrainStep(b, st);
    var d := Apply(b, Writable([Takes(|c.out|)], st));
    NoticeFields(b.log.deferred, st);
    SendsIffArmed(d, st);
    DrainStep(d, st);
    var e := Apply(d, Writable([Takes(|d.out|)], st));
    assert Covered(e.log.messages) + [] == Covered(e.log.messages);
    assert e.log.sent + [] == e.log.sent;
  }
}
