/**
 The framed IPC byte stream: a 16-byte header whose last four bytes give the
 payload length, then the payload (include/lota_ipc.h). Requests and
 responses share this shape.
 */
module Framing {
  import opened ByteCodec

  const HEADER := 16
  const MAX_PAYLOAD := 8192

  /** One maximum-size message: the size of recv_buf and of send_buf. */
  const BUFFER := 8208

  function PayloadLen(s: Bytes): U32
    requires |s| >= HEADER
  {
    ReadLe32(s, 12)
  }

  /** The stream starts with a header that declares too long a payload. */
  predicate Oversize(s: Bytes) {
    |s| >= HEADER && PayloadLen(s) > MAX_PAYLOAD
  }

  /** The stream starts with a whole frame. */
  predicate Complete(s: Bytes) {
    |s| >= HEADER && PayloadLen(s) <= MAX_PAYLOAD && |s| >= HEADER + PayloadLen(s)
  }

  function FirstSize(s: Bytes): (n: nat)
    requires Complete(s)
    ensures HEADER <= n <= |s| && n <= BUFFER
  {
    HEADER + PayloadLen(s)
  }

  predicate IsFrame(f: Bytes) {
    Complete(f) && |f| == FirstSize(f)
  }

  /** The header alone gives the length. */
  lemma SameHeader(s: Bytes, t: Bytes)
    requires |s| >= HEADER && |t| >= HEADER && s[..HEADER] == t[..HEADER]
    ensures PayloadLen(s) == PayloadLen(t)
  {
    hide ReadLe32;
    var n := ReadLe32(s, 12);
    assert s[12..16] == s[..HEADER][12..16] && t[12..16] == t[..HEADER][12..16];
    Le32RoundTrip(s, 12, n);
    Le32RoundTrip(t, 12, n);
  }

  /** The frame a stream starts with. */
  function First(s: Bytes): (f: Bytes)
    requires Complete(s)
    ensures IsFrame(f) && |f| == FirstSize(s) <= |s| && f == s[..|f|]
  {
    hide ReadLe32;
    var f := s[..FirstSize(s)];
    assert f[..HEADER] == s[..HEADER];
    SameHeader(f, s);
    f
  }

  lemma CutFirst(s: Bytes)
    requires Complete(s)
    ensures s == First(s) + s[|First(s)|..]
  {
  }

  predicate AllFrames(fs: seq<Bytes>) {
    forall i :: 0 <= i < |fs| ==> IsFrame(fs[i])
  }

  function Flatten(fs: seq<Bytes>): Bytes {
    if fs == [] then [] else fs[0] + Flatten(fs[1..])
  }

  /** Framing an unchunked stream: the whole frames at its head. */
  function Frames(s: Bytes): (fs: seq<Bytes>)
    decreases |s|
  {
    if Complete(s) then [First(s)] + Frames(s[|First(s)|..]) else []
  }

  lemma {:induction false} FlattenAppend(fs: seq<Bytes>, f: Bytes)
    ensures Flatten(fs + [f]) == Flatten(fs) + f
  {
    if fs == [] {
      assert [f][1..] == [];
    } else {
      FlattenAppend(fs[1..], f);
      assert (fs + [f])[1..] == fs[1..] + [f];
    }
  }

  /** A frame is recognised whatever follows it. */
  lemma FrameThen(f: Bytes, rest: Bytes)
    requires IsFrame(f)
    ensures Complete(f + rest) && FirstSize(f + rest) == |f|
    ensures Frames(f + rest) == [f] + Frames(rest)
  {
    hide ReadLe32;
    var s := f + rest;
    assert s[..HEADER] == f[..HEADER];
    SameHeader(s, f);
    assert s[..|f|] == f && s[|f|..] == rest;
  }

  /** Frames already cut off a stream are exactly its first frames. */
  lemma {:induction false} FramesUnique(fs: seq<Bytes>, rest: Bytes)
    requires AllFrames(fs)
    ensures Frames(Flatten(fs) + rest) == fs + Frames(rest)
  {
    if fs == [] {
      assert Flatten(fs) + rest == rest;
    } else {
      var f, more := fs[0], Flatten(fs[1..]) + rest;
      FramesUnique(fs[1..], rest);
      FrameThen(f, more);
      Associative(f, Flatten(fs[1..]), rest);
      Associative([f], fs[1..], Frames(rest));
      assert [f] + fs[1..] == fs;
    }
  }

  /** A strict prefix of a frame holds no whole frame. */
  lemma PrefixHasNone(f: Bytes, n: nat)
    requires IsFrame(f) && n < |f|
    ensures Frames(f[..n]) == []
  {
    hide ReadLe32;
    var s := f[..n];
    if |s| >= HEADER {
      assert s[..HEADER] == f[..HEADER];
      SameHeader(s, f);
    }
  }
}
