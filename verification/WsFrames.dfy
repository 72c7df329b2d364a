/**
 * The WebSocket frame codec: the frame builder of the server, and, as its
 * specification, the receiving side of section 5.2 of RFC 6455.
 */
module WsFrames {
  import opened Common

  type byte = x: int | 0 <= x < 256

  const OP_TEXT := 0x1
  const OP_BINARY := 0x2
  const OP_CLOSE := 0x8

  /** The longest payload a CPython `bytes` object can hold, plus one. */
  const PAYLOAD_LIMIT := 0x8000_0000_0000_0000

  type Bytes = s: seq<byte> | |s| < PAYLOAD_LIMIT

  type Opcode = n: nat | n < 16

  datatype Message = Message(opcode: Opcode, payload: Bytes)

  // ----- Building (server to client, never masked) -----

  /** `struct.pack` in network byte order: `n` in `width` bytes. */
  function BigEndian(n: nat, width: nat): (r: seq<byte>)
    ensures |r| == width
    decreases width
  {
    if width == 0 then [] else BigEndian(n / 256, width - 1) + [n % 256]
  }

  /**
   * One unfragmented frame. The source computes the first byte as
   * `0x80 | opcode`, which for a four-bit opcode is the sum.
   */
  function BuildFrame(m: Message): (r: seq<byte>)
  {
    [0x80 + m.opcode] + LengthField(|m.payload|) + m.payload
  }

  function LengthField(n: nat): seq<byte>
    requires n < PAYLOAD_LIMIT
  {
    if n < 126 then [n]
    else if n <= 0xFFFF then [126] + BigEndian(n, 2)
    else [127] + BigEndian(n, 8)
  }

  function BuildFrames(ms: seq<Message>): (r: seq<byte>)
  {
    if ms == [] then [] else BuildFrame(ms[0]) + BuildFrames(ms[1..])
  }

  // ----- Receiving, after section 5.2 of RFC 6455 -----

  /** `lengthBytes` is the size of the extended length field: 0, 2 or 8. */
  datatype Frame = Frame(fin: bool, rsv: nat, opcode: nat, maskingKey: seq<byte>,
                         lengthBytes: nat, payload: seq<byte>)

  function FromBigEndian(s: seq<byte>): nat
  {
    if s == [] then 0 else FromBigEndian(s[..|s| - 1]) * 256 + s[|s| - 1]
  }

  /** The size of the extended length field that the second byte announces. */
  function ExtendedBytes(b: byte): nat {
    if b % 128 == 126 then 2 else if b % 128 == 127 then 8 else 0
  }

  function KeyBytes(b: byte): nat {
    if b >= 128 then 4 else 0
  }

  function PayloadLength(s: seq<byte>): nat
    requires 2 <= |s| && 2 + ExtendedBytes(s[1]) <= |s|
  {
    if ExtendedBytes(s[1]) == 0 then s[1] % 128 else FromBigEndian(s[2..2 + ExtendedBytes(s[1])])
  }

  /** The first frame of `s` and its length in bytes, or None when `s` ends too early. */
  function ParseFrame(s: seq<byte>): (r: Option<(Frame, nat)>)
    ensures r.Some? ==> 2 <= r.value.1 <= |s|
  {
    if |s| < 2 then None
    else
      var keyAt := 2 + ExtendedBytes(s[1]);
      var start := keyAt + KeyBytes(s[1]);
      if |s| < start || |s| < start + PayloadLength(s) then None
      else
        var end := start + PayloadLength(s);
        Some((Frame(s[0] >= 128, s[0] / 16 % 8, s[0] % 16, s[keyAt..start], keyAt - 2, s[start..end]), end))
  }

  /** All complete frames of a byte stream, and the incomplete rest. */
  function DecodeStream(s: seq<byte>): (r: (seq<Frame>, seq<byte>))
    decreases |s|
  {
    match ParseFrame(s)
    case None => ([], s)
    case Some((f, n)) =>
      var tail := DecodeStream(s[n..]);
      ([f] + tail.0, tail.1)
  }

  /** How a peer sees a message: final, no reserved bits, unmasked, shortest length field. */
  function FrameOf(m: Message): Frame {
    var n := |m.payload|;
    Frame(true, 0, m.opcode, [], if n < 126 then 0 else if n <= 0xFFFF then 2 else 8, m.payload)
  }

  function FramesOf(ms: seq<Message>): (r: seq<Frame>)
    ensures |r| == |ms|
    ensures forall i :: 0 <= i < |ms| ==> r[i] == FrameOf(ms[i])
  {
    seq(|ms|, i requires 0 <= i < |ms| => FrameOf(ms[i]))
  }

  /**
   * The status codes that section 7.4 of RFC 6455 lets a server put into a close frame: the
   * pre-defined ones, with 1012 to 1014, which were registered later under section 11.7,
   * and those of libraries and applications. Code 1010 is for clients only; 1004, 1005,
   * 1006 and 1015 are reserved values, and so are the undefined codes up to 2999.
   */
  predicate StatusAllowed(code: nat) {
    1000 <= code <= 1003 || 1007 <= code <= 1009 || 1011 <= code <= 1014 || 3000 <= code <= 4999
  }

  predicate Continuation(b: byte) { 0x80 <= b <= 0xBF }

  /** Well-formed UTF-8, after section 4 of RFC 3629. */
  predicate ValidUtf8(s: seq<byte>) {
    if s == [] then true
    else if s[0] <= 0x7F then ValidUtf8(s[1..])
    else if 0xC2 <= s[0] <= 0xDF then |s| >= 2 && Continuation(s[1]) && ValidUtf8(s[2..])
    else if 0xE0 <= s[0] <= 0xEF then
      && |s| >= 3 && Continuation(s[1]) && Continuation(s[2])
      && (s[0] == 0xE0 ==> s[1] >= 0xA0) && (s[0] == 0xED ==> s[1] <= 0x9F)
      && ValidUtf8(s[3..])
    else
      && 0xF0 <= s[0] <= 0xF4
      && |s| >= 4 && Continuation(s[1]) && Continuation(s[2]) && Continuation(s[3])
      && (s[0] == 0xF0 ==> s[1] >= 0x90) && (s[0] == 0xF4 ==> s[1] <= 0x8F)
      && ValidUtf8(s[4..])
  }

  /** Section 5.5.1: no body, or an allowed status code followed by a UTF-8 reason. */
  predicate ClosePayload(p: seq<byte>) {
    p == [] || (|p| >= 2 && StatusAllowed(FromBigEndian(p[..2])) && ValidUtf8(p[2..]))
  }

  /**
   * What sections 5.1, 5.2, 5.5, 5.6, 7.4 and 11.8 of RFC 6455 demand of a frame sent by a
   * server that negotiated no extension. A text is judged when one frame holds all of it.
   */
  predicate Conformant(f: Frame) {
    && f.rsv == 0
    && f.maskingKey == []
    && f.opcode in {0x0, 0x1, 0x2, 0x8, 0x9, 0xA}
    && |f.payload| < PAYLOAD_LIMIT
    && f.lengthBytes == (if |f.payload| < 126 then 0 else if |f.payload| <= 0xFFFF then 2 else 8)
    && (f.opcode >= 8 ==> f.fin && |f.payload| <= 125)
    && (f.opcode == OP_TEXT && f.fin ==> ValidUtf8(f.payload))
    && (f.opcode == OP_CLOSE ==> ClosePayload(f.payload))
  }

  // ----- Round trip -----

  ghost function Pow256(k: nat): nat {
    if k == 0 then 1 else Pow256(k - 1) * 256
  }

  lemma {:induction false} BigEndianInverse(n: nat, width: nat)
    requires n < Pow256(width)
    ensures FromBigEndian(BigEndian(n, width)) == n
    decreases width
  {
    if width > 0 {
      var s := BigEndian(n, width);
      assert s[..|s| - 1] == BigEndian(n / 256, width - 1);
      BigEndianInverse(n / 256, width - 1);
    }
  }

  predicate ReadsAs(l: seq<byte>, n: nat) {
    && 1 <= |l| && l[0] < 128
    && |l| == (if l[0] == 126 then 3 else if l[0] == 127 then 9 else 1)
    && n == (if |l| == 1 then l[0] else FromBigEndian(l[1..]))
  }

  lemma LengthFieldRead(n: nat)
    requires n < PAYLOAD_LIMIT
    ensures var l := LengthField(n);
            ReadsAs(l, n) && |l| == (if n < 126 then 1 else if n <= 0xFFFF then 3 else 9)
  {
    if n >= 126 {
      var k := if n <= 0xFFFF then 2 else 8;
      assert Pow256(2) == 0x1_0000;
      assert Pow256(4) == 0x1_0000_0000;
      assert Pow256(8) == 0x1_0000_0000_0000_0000;
      BigEndianInverse(n, k);
      assert LengthField(n)[1..] == BigEndian(n, k);
    }
  }

  lemma ParseParts(opcode: Opcode, l: seq<byte>, p: Bytes, rest: seq<byte>)
    requires ReadsAs(l, |p|)
    ensures ParseFrame([0x80 + opcode] + l + p + rest)
            == Some((Frame(true, 0, opcode, [], |l| - 1, p), 1 + |l| + |p|))
  {
    var s := [0x80 + opcode] + l + p + rest;
    var k := 1 + |l|;
    assert s[0] == 0x80 + opcode && s[1] == l[0];
    assert s[2..k] == l[1..] && s[k..k] == [];
    assert s[k..k + |p|] == p;
  }

  /** One built frame parses back, whatever follows it on the wire. */
  lemma ParseBuilt(m: Message, rest: seq<byte>)
    ensures ParseFrame(BuildFrame(m) + rest) == Some((FrameOf(m), |BuildFrame(m)|))
  {
    LengthFieldRead(|m.payload|);
    ParseParts(m.opcode, LengthField(|m.payload|), m.payload, rest);
  }

  /** A complete first frame stays the first frame when more bytes arrive. */
  lemma ParseExtends(s: seq<byte>, t: seq<byte>)
    requires ParseFrame(s).Some?
    ensures ParseFrame(s + t) == ParseFrame(s)
  {
    var u := s + t;
    assert u[0] == s[0] && u[1] == s[1];
    var keyAt := 2 + ExtendedBytes(s[1]);
    var start := keyAt + KeyBytes(s[1]);
    assert u[2..keyAt] == s[2..keyAt];
    assert PayloadLength(u) == PayloadLength(s);
    var end := start + PayloadLength(s);
    assert u[keyAt..start] == s[keyAt..start];
    assert u[start..end] == s[start..end];
  }

  /** Decoding can be suspended anywhere: keep the rest, and go on when more bytes arrive. */
  lemma {:induction false} DecodeAppend(s: seq<byte>, t: seq<byte>)
    ensures var a := DecodeStream(s); var b := DecodeStream(a.1 + t);
            DecodeStream(s + t) == (a.0 + b.0, b.1)
    decreases |s|
  {
    hide ParseFrame;
    match ParseFrame(s)
    case None =>
      var b := DecodeStream(s + t);
      assert [] + b.0 == b.0;
    case Some((f, n)) =>
      ParseExtends(s, t);
      assert (s + t)[n..] == s[n..] + t;
      DecodeAppend(s[n..], t);
      var a := DecodeStream(s[n..]);
      var b := DecodeStream(a.1 + t);
      assert [f] + (a.0 + b.0) == [f] + a.0 + b.0;
  }

  lemma DecodeStep(s: seq<byte>, f: Frame, n: nat)
    requires ParseFrame(s) == Some((f, n))
    ensures n <= |s|
    ensures DecodeStream(s) == ([f] + DecodeStream(s[n..]).0, DecodeStream(s[n..]).1)
  {
  }

  /** The wire round trip: a peer decodes a run of built frames to exactly the messages. */
  lemma {:induction false} DecodeBuilt(ms: seq<Message>)
    ensures DecodeStream(BuildFrames(ms)) == (FramesOf(ms), [])
  {
    hide ParseFrame;
    if ms != [] {
      var b, rest := BuildFrame(ms[0]), BuildFrames(ms[1..]);
      ParseBuilt(ms[0], rest);
      DecodeStep(b + rest, FrameOf(ms[0]), |b|);
      assert (b + rest)[|b|..] == rest;
      DecodeBuilt(ms[1..]);
      assert [FrameOf(ms[0])] + FramesOf(ms[1..]) == FramesOf(ms);
    }
  }

  lemma FramesOfAppend(ms: seq<Message>, ns: seq<Message>)
    ensures FramesOf(ms + ns) == FramesOf(ms) + FramesOf(ns)
  {
  }

  lemma DecodeJoin(s: seq<byte>, fs: seq<Frame>, t: seq<byte>, gs: seq<Frame>)
    requires DecodeStream(s) == (fs, []) && DecodeStream(t) == (gs, [])
    ensures DecodeStream(s + t) == (fs + gs, [])
  {
    DecodeAppend(s, t);
    assert [] + t == t;
  }

  /** More built frames behind a completely decoded stream add exactly those messages. */
  lemma DecodeMany(s: seq<byte>, ms: seq<Message>, more: seq<Message>)
    requires DecodeStream(s) == (FramesOf(ms), [])
    ensures DecodeStream(s + BuildFrames(more)) == (FramesOf(ms + more), [])
  {
    DecodeBuilt(more);
    DecodeJoin(s, FramesOf(ms), BuildFrames(more), FramesOf(more));
    FramesOfAppend(ms, more);
  }

  /** Whatever prefix of the stream has arrived, the peer has seen a prefix of the frames. */
  lemma DecodePrefix(s: seq<byte>, k: nat)
    requires k <= |s|
    ensures DecodeStream(s[..k]).0 <= DecodeStream(s).0
  {
    assert s == s[..k] + s[k..];
    DecodeAppend(s[..k], s[k..]);
  }

  lemma {:induction false} BuildFramesAppend(ms: seq<Message>, ns: seq<Message>)
    ensures BuildFrames(ms + ns) == BuildFrames(ms) + BuildFrames(ns)
    decreases |ms|
  {
    if ms == [] {
      assert ms + ns == ns;
    } else {
      assert (ms + ns)[1..] == ms[1..] + ns;
      BuildFramesAppend(ms[1..], ns);
    }
  }

  /**
   * The framing itself is always right: a built frame obeys the protocol exactly when a
   * text is UTF-8, and a close payload is well-formed and has at most 125 bytes.
   */
  lemma ConformantFrame(m: Message)
    requires m.opcode in {OP_TEXT, OP_BINARY, OP_CLOSE}
    ensures Conformant(FrameOf(m)) <==>
              && (m.opcode == OP_TEXT ==> ValidUtf8(m.payload))
              && (m.opcode == OP_CLOSE ==> |m.payload| <= 125 && ClosePayload(m.payload))
  {
  }
}
