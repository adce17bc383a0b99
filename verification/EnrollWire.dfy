/**
 The enrolment wire format (src/agent/enroll.c, include/lota_enroll.h): a
 big-endian preamble, then fields with 16-bit lengths. The agent writes the two
 requests and reads the two replies.
 */
module EnrollWire {
  import opened ByteCodec
  import opened Errors

  const MAGIC: U32 := 0x4C43_4145
  const VERSION: U16 := 1
  const MAX_EK_CERT := 2048
  const MAX_AIK_PUBLIC := 1024
  const MAX_CRED_BLOB := 1024
  const MAX_ENC_SECRET := 512
  const MAX_SECRET := 64
  const MAX_SESSION_ID := 64
  const MAX_AIK_CERT := 4096
  const MAX_DEVICE_ID := 128

  type Field = b: Bytes | |b| < 0x1_0000 witness []

  // ----- what is on the wire

  const PREAMBLE: Bytes := Be32(MAGIC) + Be16(VERSION)

  function Framed(f: Field): Bytes {
    Be16(|f|) + f
  }

  function Fields(fs: seq<Field>): Bytes {
    if fs == [] then [] else Framed(fs[0]) + Fields(fs[1..])
  }

  function RequestBytes(fs: seq<Field>): Bytes {
    PREAMBLE + Fields(fs)
  }

  datatype Reply = Reply(status: U16, fields: seq<Field>)

  function ReplyBytes(r: Reply): Bytes {
    PREAMBLE + Be16(r.status) + Fields(r.fields)
  }

  /** One field per bound, none longer than its bound. */
  predicate Within(fs: seq<Field>, bounds: seq<U16>) {
    |fs| == |bounds| && (fs == [] || (|fs[0]| <= bounds[0] && Within(fs[1..], bounds[1..])))
  }

  // ----- reading

  function TakeField(s: Bytes, max: U16): (r: Result<Field>)
    ensures r.Ok? ==> 2 + |r.value| <= |s| && |r.value| <= max
  {
    if |s| < 2 then Err(EBADMSG)
    else
      var n := ReadBe16(s, 0);
      if n > max then Err(EMSGSIZE)
      else if 2 + n > |s| then Err(EBADMSG)
      else Ok(s[2..2 + n])
  }

  function TakeFields(s: Bytes, bounds: seq<U16>): Result<seq<Field>>
    decreases |bounds|
  {
    if bounds == [] then Ok([])
    else
      match TakeField(s, bounds[0])
      case Err(e) => Err(e)
      case Ok(f) =>
        match TakeFields(s[2 + |f|..], bounds[1..])
        case Err(e) => Err(e)
        case Ok(fs) => Ok([f] + fs)
  }

  function TakePreamble(s: Bytes): (r: Option<Errno>)
    ensures r.None? ==> |s| >= 6
  {
    if |s| < 4 then Some(EBADMSG)
    else if ReadBe32(s, 0) != MAGIC then Some(EPROTO)
    else if |s| < 6 then Some(EBADMSG)
    else if ReadBe16(s, 4) != VERSION then Some(EPROTONOSUPPORT)
    else None
  }

  function DecodeReply(s: Bytes, bounds: seq<U16>): Result<Reply> {
    var bad := TakePreamble(s);
    if bad.Some? then Err(bad.value)
    else if |s| < 8 then Err(EBADMSG)
    else
      match TakeFields(s[8..], bounds)
      case Err(e) => Err(e)
      case Ok(fs) => Ok(Reply(ReadBe16(s, 6), fs))
  }

  // ----- readers invert writers

  lemma FieldIff(s: Bytes, max: U16, f: Field)
    ensures TakeField(s, max) == Ok(f) <==> |f| <= max && Framed(f) <= s
    ensures Framed(f) <= s ==> s == Framed(f) + s[2 + |f|..]
  {
    hide Be16, ReadBe16;
    if 2 + |f| <= |s| {
      Be16RoundTrip(s, 0, |f|);
      ConcatAt(s, 0, Be16(|f|), f);
      assert s[0..2 + |f|] == s[..2 + |f|];
    }
    if |s| >= 2 && Framed(f) <= s {
      assert s[..2 + |f|] == Framed(f);
    }
  }

  /** A list of fields is read back exactly from what begins with its encoding. */
  lemma {:induction false} FieldsIff(s: Bytes, bounds: seq<U16>, fs: seq<Field>)
    ensures TakeFields(s, bounds) == Ok(fs) <==> Within(fs, bounds) && Fields(fs) <= s
    decreases |bounds|
  {
    hide TakeField, Framed;
    if bounds == [] {
      assert fs == [] ==> Fields(fs) == [];
    } else if fs != [] {
      var f := fs[0];
      FieldIff(s, bounds[0], f);
      if TakeField(s, bounds[0]) == Ok(f) {
        var rest := s[2 + |f|..];
        FieldsIff(rest, bounds[1..], fs[1..]);
        PrefixSplit(Framed(f), Fields(fs[1..]), rest);
        assert fs == [f] + fs[1..];
      } else if Fields(fs) <= s {
        PrefixOf(Framed(f), Fields(fs[1..]), s);
      }
    }
  }

  lemma PrefixSplit(a: Bytes, b: Bytes, rest: Bytes)
    ensures a + b <= a + rest <==> b <= rest
  {
    if b <= rest {
      assert rest == b + rest[|b|..];
      Associative(a, b, rest[|b|..]);
    }
    if a + b <= a + rest {
      assert (a + rest)[|a|..|a| + |b|] == b;
      assert (a + b)[|a|..] == b;
    }
  }

  lemma PrefixOf(a: Bytes, b: Bytes, s: Bytes)
    requires a + b <= s
    ensures a <= s
  {
    assert (a + b)[..|a|] == a;
  }

  lemma PreambleIff(s: Bytes)
    ensures TakePreamble(s).None? <==> PREAMBLE <= s
  {
    hide Be16, Be32, ReadBe16, ReadBe32;
    if |s| >= 6 {
      Be32RoundTrip(s, 0, MAGIC);
      Be16RoundTrip(s, 4, VERSION);
      ConcatAt(s, 0, Be32(MAGIC), Be16(VERSION));
      assert s[0..6] == s[..6];
    }
  }

  /** A reply decodes to r exactly when r is in bounds and the body begins with its encoding. */
  lemma ReplyIff(s: Bytes, bounds: seq<U16>, r: Reply)
    ensures DecodeReply(s, bounds) == Ok(r) <==> Within(r.fields, bounds) && ReplyBytes(r) <= s
  {
    hide TakePreamble, TakeFields, Fields, Be16, ReadBe16;
    PreambleIff(s);
    assert |PREAMBLE| == 6;
    if |s| >= 8 {
      FieldsIff(s[8..], bounds, r.fields);
      Be16RoundTrip(s, 6, r.status);
      ConcatAt(s, 0, PREAMBLE, Be16(r.status));
      var head := PREAMBLE + Be16(r.status);
      assert s[0..8] == s[..8] && s[0..6] == s[..6];
      assert s == s[..8] + s[8..];
      if head <= s {
        PrefixSplit(head, Fields(r.fields), s[8..]);
      } else if ReplyBytes(r) <= s {
        PrefixOf(head, Fields(r.fields), s);
      }
    }
  }

  /** Cutting a reply short anywhere is noticed, as a truncated message. */
  lemma {:induction false} FieldsCut(fs: seq<Field>, bounds: seq<U16>, n: nat)
    requires Within(fs, bounds) && n < |Fields(fs)|
    ensures TakeFields(Fields(fs)[..n], bounds) == Err(EBADMSG)
    decreases |fs|
  {
    var f, rest := fs[0], Fields(fs[1..]);
    var s := Fields(fs)[..n];
    assert Fields(fs) == Framed(f) + rest;
    if n >= 2 + |f| {
      assert s == Framed(f) + rest[..n - 2 - |f|];
      FieldIff(s, bounds[0], f);
      assert s[2 + |f|..] == rest[..n - 2 - |f|];
      FieldsCut(fs[1..], bounds[1..], n - 2 - |f|);
    } else if n >= 2 {
      Be16RoundTrip(s, 0, |f|);
      assert s[0..2] == Be16(|f|);
    }
  }

  lemma PreambleCut(r: Reply, n: nat)
    requires n < 8
    ensures n < 6 ==> TakePreamble(ReplyBytes(r)[..n]) == Some(EBADMSG)
    ensures n >= 6 ==> TakePreamble(ReplyBytes(r)[..n]).None?
  {
    var s := ReplyBytes(r)[..n];
    if n >= 4 {
      Be32RoundTrip(s, 0, MAGIC);
      assert s[0..4] == Be32(MAGIC);
    }
    if n >= 6 {
      PreambleIff(s);
      assert s[..6] == PREAMBLE;
    }
  }

  /** Every strict prefix of a valid reply is rejected. */
  lemma CutRejected(r: Reply, bounds: seq<U16>, n: nat)
    requires Within(r.fields, bounds) && n < |ReplyBytes(r)|
    ensures DecodeReply(ReplyBytes(r)[..n], bounds) == Err(EBADMSG)
  {
    hide TakePreamble, TakeFields, Fields, Be16, ReadBe16;
    var s := ReplyBytes(r)[..n];
    if n < 8 {
      PreambleCut(r, n);
    } else {
      FieldsCut(r.fields, bounds, n - 8);
      var head := PREAMBLE + Be16(r.status);
      assert s == head + Fields(r.fields)[..n - 8];
      assert s[8..] == Fields(r.fields)[..n - 8] && s[..6] == PREAMBLE;
      PreambleIff(s);
    }
  }

  // ----- the bounded cursor over a reply

  class Reader {
    const buf: Bytes
    var pos: nat

    constructor (buf: Bytes)
      ensures this.buf == buf && pos == 0
    {
      this.buf, pos := buf, 0;
    }

    /** What is still unread. */
    ghost function Rest(): Bytes
      requires pos <= |buf|
      reads this`pos
    {
      buf[pos..]
    }

    method U16() returns (r: Result<U16>)
      requires pos <= |buf|
      modifies this`pos
      ensures pos <= |buf| && (r.Ok? <==> |old(Rest())| >= 2) && (r.Err? ==> r.error == EBADMSG)
      ensures r.Ok? ==> r.value == ReadBe16(old(Rest()), 0) && Rest() == old(Rest())[2..]
    {
      if pos + 2 > |buf| {
        return Err(EBADMSG);
      }
      r := Ok(ReadBe16(buf, pos));
      pos := pos + 2;
    }

    method U32() returns (r: Result<U32>)
      requires pos <= |buf|
      modifies this`pos
      ensures pos <= |buf| && (r.Ok? <==> |old(Rest())| >= 4) && (r.Err? ==> r.error == EBADMSG)
      ensures r.Ok? ==> r.value == ReadBe32(old(Rest()), 0) && Rest() == old(Rest())[4..]
    {
      if pos + 4 > |buf| {
        return Err(EBADMSG);
      }
      r := Ok(ReadBe32(buf, pos));
      pos := pos + 4;
    }

    method Bytes16(max: U16) returns (r: Result<Field>)
      requires pos <= |buf|
      modifies this`pos
      ensures pos <= |buf| && r == TakeField(old(Rest()), max)
      ensures r == Err(EMSGSIZE) <==> |old(Rest())| >= 2 && ReadBe16(old(Rest()), 0) > max
      ensures r.Err? ==> r.error in {EMSGSIZE, EBADMSG}
      ensures r.Ok? ==> |r.value| + 2 <= |old(Rest())| && Rest() == old(Rest())[2 + |r.value|..]
    {
      hide ReadBe16;
      var n := U16();
      if n.Err? {
        return Err(n.error);
      }
      if n.value > max {
        return Err(EMSGSIZE);
      }
      if pos + n.value > |buf| {
        return Err(EBADMSG);
      }
      assert old(Rest())[2..2 + n.value] == buf[pos..pos + n.value];
      r := Ok(buf[pos..pos + n.value]);
      pos := pos + n.value;
    }

    method Preamble() returns (r: Option<Errno>)
      requires pos == 0
      modifies this`pos
      ensures pos <= |buf| && r == TakePreamble(buf)
      ensures r.None? ==> pos == 6
      ensures r.None? <==> |buf| >= 6 && ReadBe32(buf, 0) == 0x4C43_4145 && ReadBe16(buf, 4) == 1
      ensures r == Some(EPROTO) <==> |buf| >= 4 && ReadBe32(buf, 0) != 0x4C43_4145
      ensures r == Some(EPROTONOSUPPORT) <==>
        |buf| >= 6 && ReadBe32(buf, 0) == 0x4C43_4145 && ReadBe16(buf, 4) != 1
      ensures r.Some? ==> r.value in {EPROTO, EPROTONOSUPPORT, EBADMSG}
    {
      var magic := U32();
      if magic.Err? {
        return Some(magic.error);
      }
      if magic.value != MAGIC {
        return Some(EPROTO);
      }
      var version := U16();
      if version.Err? {
        return Some(version.error);
      }
      if version.value != VERSION {
        return Some(EPROTONOSUPPORT);
      }
      return None;
    }
  }

  // ----- the two replies

  datatype Challenge = Challenge(status: U16, sessionId: Field, credBlob: Field, encSecret: Field)
  datatype Enrolled = Enrolled(status: U16, aikCert: Field, deviceId: Field)

  const CHALLENGE_BOUNDS: seq<U16> := [MAX_SESSION_ID, MAX_CRED_BLOB, MAX_ENC_SECRET]
  const RESULT_BOUNDS: seq<U16> := [MAX_AIK_CERT, MAX_DEVICE_ID]

  /** One, two and three fields, taken one after the other. */
  lemma TakeOne(s: Bytes, a: U16)
    ensures TakeFields(s, [a]) == match TakeField(s, a) case Err(e) => Err(e) case Ok(f) => Ok([f])
  {
    hide TakeField;
    assert [a][1..] == [];
    if TakeField(s, a).Ok? {
      assert [TakeField(s, a).value] + [] == [TakeField(s, a).value];
    }
  }

  lemma TakeTwo(s: Bytes, a: U16, b: U16)
    ensures TakeFields(s, [a, b]) ==
            match TakeField(s, a)
            case Err(e) => Err(e)
            case Ok(f) =>
              match TakeField(s[2 + |f|..], b)
              case Err(e) => Err(e)
              case Ok(g) => Ok([f, g])
  {
    hide TakeField;
    assert [a, b][1..] == [b];
    if TakeField(s, a).Ok? {
      var f := TakeField(s, a).value;
      var t := s[2 + |f|..];
      TakeOne(t, b);
      if TakeField(t, b).Ok? {
        assert [f] + [TakeField(t, b).value] == [f, TakeField(t, b).value];
      }
    }
  }

  lemma TakeThree(s: Bytes, a: U16, b: U16, c: U16)
    ensures TakeFields(s, [a, b, c]) ==
            match TakeField(s, a)
            case Err(e) => Err(e)
            case Ok(f) =>
              match TakeFields(s[2 + |f|..], [b, c])
              case Err(e) => Err(e)
              case Ok(fs) => Ok([f] + fs)
  {
    hide TakeField;
    assert [a, b, c][1..] == [b, c];
  }

  /** enroll_decode_challenge. */
  method DecodeChallenge(body: Bytes) returns (r: Result<Challenge>)
    ensures match r
            case Ok(c) =>
              DecodeReply(body, CHALLENGE_BOUNDS) == Ok(Reply(c.status, [c.sessionId, c.credBlob, c.encSecret]))
            case Err(e) => DecodeReply(body, CHALLENGE_BOUNDS) == Err(e)
  {
    hide TakeField, TakeFields, TakePreamble, ReadBe16;
    var rd := new Reader(body);
    var bad := rd.Preamble();
    if bad.Some? {
      return Err(bad.value);
    }
    assert rd.Rest() == body[6..];
    var status := rd.U16();
    if status.Err? {
      return Err(status.error);
    }
    assert status.value == ReadBe16(body, 6) by { ReadShifted(body, 6); }
    assert rd.Rest() == body[8..];
    TakeThree(body[8..], MAX_SESSION_ID, MAX_CRED_BLOB, MAX_ENC_SECRET);
    var sid := rd.Bytes16(MAX_SESSION_ID);
    if sid.Err? {
      return Err(sid.error);
    }
    TakeTwo(rd.Rest(), MAX_CRED_BLOB, MAX_ENC_SECRET);
    var cred := rd.Bytes16(MAX_CRED_BLOB);
    if cred.Err? {
      return Err(cred.error);
    }
    var secret := rd.Bytes16(MAX_ENC_SECRET);
    if secret.Err? {
      return Err(secret.error);
    }
    assert [sid.value] + [cred.value, secret.value] == [sid.value, cred.value, secret.value];
    return Ok(Challenge(status.value, sid.value, cred.value, secret.value));
  }

  lemma ReadShifted(s: Bytes, at: nat)
    requires at + 2 <= |s|
    ensures ReadBe16(s[at..], 0) == ReadBe16(s, at)
  {
  }

  /** enroll_decode_result. */
  method DecodeResult(body: Bytes) returns (r: Result<Enrolled>)
    ensures match r
            case Ok(c) => DecodeReply(body, RESULT_BOUNDS) == Ok(Reply(c.status, [c.aikCert, c.deviceId]))
            case Err(e) => DecodeReply(body, RESULT_BOUNDS) == Err(e)
  {
    hide TakeField, TakeFields, TakePreamble, ReadBe16;
    var rd := new Reader(body);
    var bad := rd.Preamble();
    if bad.Some? {
      return Err(bad.value);
    }
    assert rd.Rest() == body[6..];
    var status := rd.U16();
    if status.Err? {
      return Err(status.error);
    }
    assert status.value == ReadBe16(body, 6) by { ReadShifted(body, 6); }
    assert rd.Rest() == body[8..];
    TakeTwo(body[8..], MAX_AIK_CERT, MAX_DEVICE_ID);
    var cert := rd.Bytes16(MAX_AIK_CERT);
    if cert.Err? {
      return Err(cert.error);
    }
    var device := rd.Bytes16(MAX_DEVICE_ID);
    if device.Err? {
      return Err(device.error);
    }
    return Ok(Enrolled(status.value, cert.value, device.value));
  }

  // ----- the bounded writer

  class Writer {
    const buf: array<Byte>
    var pos: nat

    constructor (buf: array<Byte>)
      ensures this.buf == buf && pos == 0
    {
      this.buf, pos := buf, 0;
    }

    method Put(b: Bytes) returns (ok: bool)
      requires pos <= buf.Length
      modifies this`pos, buf
      ensures pos <= buf.Length && (ok <==> old(pos) + |b| <= buf.Length)
      ensures ok ==> pos == old(pos) + |b| && buf[..pos] == old(buf[..pos]) + b
    {
      if pos + |b| > buf.Length {
        return false;
      }
      ghost var start := pos;
      for i := 0 to |b|
        invariant pos == start + i <= buf.Length && buf[..pos] == old(buf[..pos]) + b[..i]
      {
        buf[pos] := b[i];
        pos := pos + 1;
        assert buf[..pos] == buf[..pos - 1] + [b[i]];
        Associative(old(buf[..pos]), b[..i], [b[i]]);
        assert b[..i + 1] == b[..i] + [b[i]];
      }
      assert b[..|b|] == b;
      return true;
    }

    method Bytes16(b: Bytes) returns (r: Option<Errno>)
      requires pos <= buf.Length
      modifies this`pos, buf
      ensures pos <= buf.Length
      ensures r.None? <==> |b| < 0x1_0000 && old(pos) + 2 + |b| <= buf.Length
      ensures r.None? ==> buf[..pos] == old(buf[..pos]) + Framed(b)
      ensures r.Some? ==> r.value == if |b| >= 0x1_0000 then EMSGSIZE else ENOSPC
    {
      hide Be16;
      if |b| > 0xFFFF {
        return Some(EMSGSIZE);
      }
      var ok := Put(Be16(|b|));
      if !ok {
        return Some(ENOSPC);
      }
      Associative(old(buf[..pos]), Be16(|b|), b);
      ok := Put(b);
      return if ok then None else Some(ENOSPC);
    }
  }

  /** The shape both requests share: preamble, then two bounded fields. */
  method EncodeTwo(out: array<Byte>, a: Bytes, maxA: U16, b: Bytes, maxB: U16) returns (r: Result<nat>)
    modifies out
    ensures r.Ok? <==> |a| <= maxA && |b| <= maxB && 10 + |a| + |b| <= out.Length
    ensures r.Ok? ==> r.value <= out.Length && out[..r.value] == RequestBytes([a, b])
    ensures r.Err? ==> r.error == if |a| > maxA || |b| > maxB then EMSGSIZE else ENOSPC
  {
    hide Be16, Be32, Framed;
    if |a| > maxA || |b| > maxB {
      return Err(EMSGSIZE);
    }
    var w := new Writer(out);
    var ok := w.Put(Be32(MAGIC));
    if ok { ok := w.Put(Be16(VERSION)); }
    if !ok {
      return Err(ENOSPC);
    }
    assert out[..w.pos] == PREAMBLE;
    FramedSize(a);
    FramedSize(b);
    var e := w.Bytes16(a);
    if e.Some? {
      return Err(e.value);
    }
    assert out[..w.pos] == PREAMBLE + Framed(a);
    e := w.Bytes16(b);
    if e.Some? {
      return Err(e.value);
    }
    Associative(PREAMBLE, Framed(a), Framed(b));
    TwoFields(a, b);
    return Ok(w.pos);
  }

  lemma FramedSize(f: Field)
    ensures |Framed(f)| == 2 + |f|
  {
  }

  lemma TwoFields(a: Field, b: Field)
    ensures Fields([a, b]) == Framed(a) + Framed(b)
  {
    assert [a, b][1..] == [b];
    assert Fields([b]) == Framed(b) + Fields([]);
    assert Framed(b) + [] == Framed(b);
  }

  /** enroll_encode_begin. */
  method EncodeBegin(out: array<Byte>, ekCert: Bytes, aikPublic: Bytes) returns (r: Result<nat>)
    modifies out
    ensures r.Ok? <==>
            |ekCert| <= MAX_EK_CERT && |aikPublic| <= MAX_AIK_PUBLIC && 10 + |ekCert| + |aikPublic| <= out.Length
    ensures r.Ok? ==> r.value <= out.Length && out[..r.value] == RequestBytes([ekCert, aikPublic])
  {
    r := EncodeTwo(out, ekCert, MAX_EK_CERT, aikPublic, MAX_AIK_PUBLIC);
  }

  /** enroll_encode_complete. */
  method EncodeComplete(out: array<Byte>, sessionId: Bytes, secret: Bytes) returns (r: Result<nat>)
    modifies out
    ensures r.Ok? <==>
            |sessionId| <= MAX_SESSION_ID && |secret| <= MAX_SECRET && 10 + |sessionId| + |secret| <= out.Length
    ensures r.Ok? ==> r.value <= out.Length && out[..r.value] == RequestBytes([sessionId, secret])
  {
    r := EncodeTwo(out, sessionId, MAX_SESSION_ID, secret, MAX_SECRET);
  }

  /** A request says what it was built from: reading its fields back gives them, whatever follows. */
  lemma RequestReadsBack(fs: seq<Field>, bounds: seq<U16>, more: Bytes)
    requires Within(fs, bounds)
    ensures var s := RequestBytes(fs) + more;
            TakePreamble(s).None? && TakeFields(s[6..], bounds) == Ok(fs)
  {
    hide TakePreamble, TakeFields, Fields;
    var s := RequestBytes(fs) + more;
    assert |PREAMBLE| == 6;
    Associative(PREAMBLE, Fields(fs), more);
    assert s[..6] == PREAMBLE && s[6..] == Fields(fs) + more;
    PreambleIff(s);
    FieldsIff(s[6..], bounds, fs);
  }
}
