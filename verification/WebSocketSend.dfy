/**
 * The send side of a server WebSocket: corking, the pending queue, pre-built JSON
 * frames and the close handshake, up to what a peer decodes from the wire.
 */
module WebSocketSend {
  import opened Common
  import opened WsFrames

  /** A close reason, short enough that the whole payload is still one `bytes` object. */
  type Reason = s: seq<byte> | |s| + 7 < PAYLOAD_LIMIT

  /**
   * What can happen to a connection. `FlushPending` is the callback the event loop
   * runs, `PeerClose` the reception of a close frame, `TransportLost` the transport
   * starting to close. A text is given by its UTF-8 bytes, a JSON value by its
   * serialisation, with `prebuilt` when the serialiser also builds the frame; `reason` is
   * empty when there is none.
   */
  datatype Op =
    | SendText(data: Bytes)
    | SendBytes(data: Bytes)
    | SendJson(json: Bytes, text: bool, prebuilt: bool)
    | Cork
    | Uncork
    | FlushPending
    | Close(code: int, reason: Reason)
    | PeerClose
    | TransportLost

  datatype Outcome = Done | RaisedClosed | RaisedPack

  /** The connection as its operations see it: bytes written, and messages still held back. */
  datatype Conn = Conn(wire: seq<byte>, open: bool, corked: bool, cork: seq<Message>,
                       pending: seq<Message>, scheduled: bool, closed: bool)

  const FRESH := Conn([], true, false, [], [], false, false)

  const PREFIX_1006: seq<byte> := [0x31, 0x30, 0x30, 0x36, 0x3A]  // "1006:"

  /**
   * The close frame of a call, None when `struct.pack("!H", ...)` rejects the code.
   * Code 1006 must not appear on the wire and travels in the reason instead.
   */
  function CloseMessage(code: int, reason: Reason): Option<Message> {
    var code' := if code == 1006 then 1000 else code;
    var reason' := if code == 1006 then PREFIX_1006 + reason else reason;
    if code' < 0 || code' > 0xFFFF then None else Some(Message(OP_CLOSE, BigEndian(code', 2) + reason'))
  }

  /** A write to a transport that is closing goes nowhere. */
  function Write(c: Conn, bytes: seq<byte>): Conn {
    if c.open then c.(wire := c.wire + bytes) else c
  }

  function FlushCork(c: Conn): Conn
  {
    Write(c, BuildFrames(c.cork)).(cork := [])
  }

  function Flush(c: Conn): Conn
  {
    Write(c, BuildFrames(c.pending)).(pending := [], scheduled := false)
  }

  function QueueSend(c: Conn, m: Message): Conn
  {
    if !c.open then c
    else if !c.scheduled && c.pending == [] then Write(c, BuildFrame(m))
    else c.(pending := c.pending + [m], scheduled := true)
  }

  function Step(c: Conn, op: Op): (Conn, Outcome)
  {
    match op
    case SendText(d) => Send(c, Message(OP_TEXT, d), false)
    case SendBytes(d) => Send(c, Message(OP_BINARY, d), false)
    case SendJson(d, text, prebuilt) => Send(c, Message(if text then OP_TEXT else OP_BINARY, d), prebuilt)
    case Cork => (c.(corked := true), Done)
    case Uncork => (FlushCork(c).(corked := false), Done)
    case FlushPending => (Flush(c), Done)
    case PeerClose => (c.(closed := true), Done)
    case TransportLost => (c.(open := false), Done)
    case Close(code, reason) =>
      if c.closed then (c, Done)
      else
        var c1 := c.(closed := true);
        var c2 := if c1.corked then FlushCork(c1) else c1;
        var c3 := if c2.pending == [] then c2 else Flush(c2);
        match CloseMessage(code, reason)
        case None => (c3, RaisedPack)
        case Some(m) => (Write(c3, BuildFrame(m)), Done)
  }

  /** Pre-built JSON frames are written without a look at the pending queue. */
  function Send(c: Conn, m: Message, prebuilt: bool): (Conn, Outcome)
  {
    if c.closed then (c, RaisedClosed)
    else if c.corked then (c.(cork := c.cork + [m]), Done)
    else if prebuilt then (Write(c, BuildFrame(m)), Done)
    else (QueueSend(c, m), Done)
  }

  /** The messages a call accepts for delivery. */
  function Accepted(c: Conn, op: Op): seq<Message>
  {
    if c.closed then []
    else
      match op
      case SendText(d) => [Message(OP_TEXT, d)]
      case SendBytes(d) => [Message(OP_BINARY, d)]
      case SendJson(d, text, _) => [Message(if text then OP_TEXT else OP_BINARY, d)]
      case Close(code, reason) =>
        (match CloseMessage(code, reason) case None => [] case Some(m) => [m])
      case _ => []
  }

  function Run(c: Conn, ops: seq<Op>): Conn
    decreases |ops|
  {
    if ops == [] then c else Run(Step(c, ops[0]).0, ops[1..])
  }

  function Sent(c: Conn, ops: seq<Op>): seq<Message>
    decreases |ops|
  {
    if ops == [] then [] else Accepted(c, ops[0]) + Sent(Step(c, ops[0]).0, ops[1..])
  }

  // ----- The invariant of every run -----

  predicate IsClose(m: Message) { m.opcode == OP_CLOSE }

  /**
   * `sent` is everything accepted so far and `out` what a peer decodes from the wire.
   * While the transport is open the two differ by the cork buffer only.
   */
  ghost predicate Inv(c: Conn, sent: seq<Message>, out: seq<Message>) {
    && c.pending == [] && !c.scheduled
    && (c.cork != [] ==> c.corked)
    && DecodeStream(c.wire) == (FramesOf(out), [])
    && out <= sent
    && (c.open ==> out + c.cork == sent)
    && (forall i :: 0 <= i < |sent| && IsClose(sent[i]) ==> i == |sent| - 1 && c.closed && c.cork == [])
  }

  /** The messages that reach the wire when everything held back is flushed. */
  ghost function OutAfterFlush(c: Conn, out: seq<Message>): seq<Message> {
    if c.open then out + c.cork else out
  }

  lemma FlushCorkKeeps(c: Conn, sent: seq<Message>, out: seq<Message>)
    requires Inv(c, sent, out)
    ensures Inv(FlushCork(c), sent, OutAfterFlush(c, out))
  {
    if c.open {
      DecodeMany(c.wire, out, c.cork);
    }
  }

  /** Writing the frame of a newly accepted message keeps the invariant. */
  lemma WriteKeeps(c: Conn, sent: seq<Message>, out: seq<Message>, m: Message)
    requires Inv(c, sent, out) && c.cork == []
    requires forall x <- sent :: !IsClose(x)
    requires IsClose(m) ==> c.closed
    ensures Inv(Write(c, BuildFrame(m)), sent + [m], if c.open then out + [m] else out)
  {
    if c.open {
      DecodeMany(c.wire, out, [m]);
      assert BuildFrames([m]) == BuildFrame(m) + [] == BuildFrame(m);
    }
  }

  lemma SendKeeps(c: Conn, sent: seq<Message>, out: seq<Message>, m: Message, prebuilt: bool)
    returns (out': seq<Message>)
    requires Inv(c, sent, out) && !IsClose(m) && !c.closed
    ensures Inv(Send(c, m, prebuilt).0, sent + [m], out')
  {
    hide DecodeStream;
    assert forall x <- sent :: !IsClose(x);
    if c.corked {
      out' := out;
      assert c.open ==> out + (c.cork + [m]) == sent + [m];
    } else {
      WriteKeeps(c, sent, out, m);
      out' := if c.open then out + [m] else out;
    }
  }

  lemma CloseKeeps(c: Conn, sent: seq<Message>, out: seq<Message>, code: int, reason: Reason)
    returns (out': seq<Message>)
    requires Inv(c, sent, out) && !c.closed
    ensures Inv(Step(c, Close(code, reason)).0, sent + Accepted(c, Close(code, reason)), out')
  {
    hide DecodeStream;
    assert forall x <- sent :: !IsClose(x);
    var c1 := c.(closed := true);
    assert Inv(c1, sent, out);
    var c2 := if c1.corked then FlushCork(c1) else c1;
    out' := if c1.corked then OutAfterFlush(c1, out) else out;
    if c1.corked {
      FlushCorkKeeps(c1, sent, out);
    }
    match CloseMessage(code, reason)
    case None => assert sent + [] == sent;
    case Some(m) =>
      WriteKeeps(c2, sent, out', m);
      out' := if c2.open then out' + [m] else out';
  }

  lemma StepKeeps(c: Conn, sent: seq<Message>, out: seq<Message>, op: Op) returns (out': seq<Message>)
    requires Inv(c, sent, out)
    ensures Inv(Step(c, op).0, sent + Accepted(c, op), out')
  {
    hide DecodeStream;
    assert sent + [] == sent;
    out' := out;
    if !c.closed && op.SendText? {
      out' := SendKeeps(c, sent, out, Message(OP_TEXT, op.data), false);
    } else if !c.closed && op.SendBytes? {
      out' := SendKeeps(c, sent, out, Message(OP_BINARY, op.data), false);
    } else if !c.closed && op.SendJson? {
      out' := SendKeeps(c, sent, out, Message(if op.text then OP_TEXT else OP_BINARY, op.json), op.prebuilt);
    } else if !c.closed && op.Close? {
      out' := CloseKeeps(c, sent, out, op.code, op.reason);
    } else if op.Uncork? {
      FlushCorkKeeps(c, sent, out);
      out' := OutAfterFlush(c, out);
    } else if op.FlushPending? {
      assert c.wire + [] == c.wire;
    }
  }

  lemma {:induction false} RunKeeps(c: Conn, sent: seq<Message>, out: seq<Message>, ops: seq<Op>)
    returns (out': seq<Message>)
    requires Inv(c, sent, out)
    ensures Inv(Run(c, ops), sent + Sent(c, ops), out')
    decreases |ops|
  {
    hide DecodeStream;
    if ops == [] {
      assert sent + [] == sent;
      out' := out;
    } else {
      var out1 := StepKeeps(c, sent, out, ops[0]);
      out' := RunKeeps(Step(c, ops[0]).0, sent + Accepted(c, ops[0]), out1, ops[1..]);
      assert sent + Accepted(c, ops[0]) + Sent(Step(c, ops[0]).0, ops[1..]) == sent + Sent(c, ops);
    }
  }

  lemma FreshKeeps()
    ensures Inv(FRESH, [], [])
  {
    assert FramesOf([]) == [];
  }

  // ----- Main results -----

  /**
   * On an open transport, whatever the interleaving of sends, corks, uncorks and
   * closes, a peer decodes the bytes written, followed by the corked remainder, to
   * exactly the accepted messages in call order. The pending queue is always empty.
   */
  lemma WireCorrect(ops: seq<Op>)
    ensures var c := Run(FRESH, ops);
            && c.pending == [] && !c.scheduled
            && (c.open ==> DecodeStream(c.wire + BuildFrames(c.cork)) == (FramesOf(Sent(FRESH, ops)), []))
            && (c.open && !c.corked ==> DecodeStream(c.wire) == (FramesOf(Sent(FRESH, ops)), []))
  {
    hide DecodeStream;
    FreshKeeps();
    var out := RunKeeps(FRESH, [], [], ops);
    var c := Run(FRESH, ops);
    assert [] + Sent(FRESH, ops) == Sent(FRESH, ops);
    DecodeMany(c.wire, out, c.cork);
    assert c.cork == [] ==> out + c.cork == out;
  }

  /**
   * Even if the transport is lost on the way, and however the stream is cut into
   * segments, a peer has at every moment seen a prefix of the accepted messages.
   */
  lemma EverySegmentIsAPrefix(ops: seq<Op>, k: nat)
    requires k <= |Run(FRESH, ops).wire|
    ensures DecodeStream(Run(FRESH, ops).wire[..k]).0 <= FramesOf(Sent(FRESH, ops))
  {
    hide DecodeStream;
    FreshKeeps();
    var out := RunKeeps(FRESH, [], [], ops);
    assert [] + Sent(FRESH, ops) == Sent(FRESH, ops);
    DecodePrefix(Run(FRESH, ops).wire, k);
  }

  lemma {:induction false} SilentWhenClosed(c: Conn, ops: seq<Op>)
    requires c.closed && c.cork == [] && c.pending == []
    ensures Run(c, ops).wire == c.wire && Sent(c, ops) == []
    decreases |ops|
  {
    hide DecodeStream;
    if ops != [] {
      assert c.wire + [] == c.wire;
      SilentWhenClosed(Step(c, ops[0]).0, ops[1..]);
    }
  }

  lemma {:induction false} RunSplit(c: Conn, a: seq<Op>, b: seq<Op>)
    ensures Run(c, a + b) == Run(Run(c, a), b)
    ensures Sent(c, a + b) == Sent(c, a) + Sent(Run(c, a), b)
    decreases |a|
  {
    hide DecodeStream;
    if a == [] {
      assert a + b == b;
    } else {
      assert (a + b)[1..] == a[1..] + b;
      RunSplit(Step(c, a[0]).0, a[1..], b);
    }
  }

  /** At most one close frame is ever sent, it is the last message, and nothing is written after it. */
  lemma CloseOnceAndLast(before: seq<Op>, after: seq<Op>)
    ensures var sent := Sent(FRESH, before);
            && (forall i :: 0 <= i < |sent| && IsClose(sent[i]) ==> i == |sent| - 1)
            && ((exists m <- sent :: IsClose(m)) ==>
                  && Run(FRESH, before + after).wire == Run(FRESH, before).wire
                  && Sent(FRESH, before + after) == sent)
  {
    FreshKeeps();
    CloseFinal(FRESH, before, after);
  }

  lemma CloseFinal(c: Conn, before: seq<Op>, after: seq<Op>)
    requires Inv(c, [], [])
    ensures var sent := Sent(c, before);
            && (forall i :: 0 <= i < |sent| && IsClose(sent[i]) ==> i == |sent| - 1)
            && ((exists m <- sent :: IsClose(m)) ==>
                  && Run(c, before + after).wire == Run(c, before).wire
                  && Sent(c, before + after) == sent)
  {
    hide DecodeStream;
    var sent := Sent(c, before);
    var out := RunKeeps(c, [], [], before);
    assert [] + sent == sent;
    if exists m <- sent :: IsClose(m) {
      RunSplit(c, before, after);
      SilentWhenClosed(Run(c, before), after);
    }
  }

  lemma PrefixIsUtf8(reason: seq<byte>)
    ensures ValidUtf8(PREFIX_1006 + reason) <==> ValidUtf8(reason)
  {
    var s := PREFIX_1006 + reason;
    assert s[1..][1..][1..][1..][1..] == reason;
    assert ValidUtf8(s) == ValidUtf8(s[1..]) == ValidUtf8(s[1..][1..]) == ValidUtf8(s[1..][1..][1..]);
    assert ValidUtf8(s[1..][1..][1..]) == ValidUtf8(s[1..][1..][1..][1..]);
  }

  /**
   * The close frame is one RFC 6455 allows exactly when its status code may stand in a
   * frame and its reason is UTF-8 of at most 123 bytes. Code 1006 is always replaced by
   * 1000, which leaves 118 bytes for the reason. The source checks none of this.
   */
  lemma CloseConformantIff(code: int, reason: Reason)
    requires CloseMessage(code, reason).Some?
    ensures Conformant(FrameOf(CloseMessage(code, reason).value)) <==>
              && (code == 1006 || StatusAllowed(code))
              && |reason| <= (if code == 1006 then 118 else 123)
              && ValidUtf8(reason)
  {
    hide ValidUtf8, BigEndian, Conformant, FrameOf;
    PrefixIsUtf8(reason);
    if code == 1006 {
      CloseFrame(1000, PREFIX_1006 + reason);
    } else {
      CloseFrame(code, reason);
    }
  }

  /** The frame for a code and a reason as they go out. */
  lemma CloseFrame(code: nat, reason: seq<byte>)
    requires code <= 0xFFFF && |reason| + 2 < PAYLOAD_LIMIT
    ensures Conformant(FrameOf(Message(OP_CLOSE, BigEndian(code, 2) + reason))) <==>
              StatusAllowed(code) && |reason| <= 123 && ValidUtf8(reason)
  {
    hide ValidUtf8, BigEndian, Conformant, FrameOf, ClosePayload, StatusAllowed;
    PayloadParts(code, reason);
    ConformantFrame(Message(OP_CLOSE, BigEndian(code, 2) + reason));
  }

  lemma PayloadParts(code: nat, reason: seq<byte>)
    requires code <= 0xFFFF
    ensures var p := BigEndian(code, 2) + reason;
            |p| == |reason| + 2 && (ClosePayload(p) <==> StatusAllowed(code) && ValidUtf8(reason))
  {
    hide ValidUtf8, BigEndian, FromBigEndian;
    assert Pow256(2) == Pow256(1) * 256 && Pow256(1) == 256;
    BigEndianInverse(code, 2);
    var p := BigEndian(code, 2) + reason;
    assert p[..2] == BigEndian(code, 2) && p[2..] == reason;
  }

  /** Codes that must not be set in a frame go out all the same, however short the reason. */
  lemma ForbiddenCodesAreSent(code: int)
    requires code in {0, 999, 1004, 1005, 1010, 1015, 1016, 2000, 2999, 5000, 65535}
    ensures CloseMessage(code, []).Some? && !Conformant(FrameOf(CloseMessage(code, []).value))
    ensures Sent(FRESH, [Close(code, [])]) == [CloseMessage(code, []).value]
  {
    CloseConformantIff(code, []);
    hide DecodeStream, Conformant;
    assert [Close(code, [])][1..] == [];
  }

  /** What a peer gets for `close(1005)`. */
  lemma Close1005()
    ensures Run(FRESH, [Close(1005, [])]).wire == [0x88, 0x02, 0x03, 0xED]
  {
    hide DecodeStream;
    var ops, m := [Close(1005, [])], Message(OP_CLOSE, [0x03, 0xED]);
    assert ops[1..] == [];
    assert BigEndian(3, 1) == BigEndian(0, 0) + [3] && BigEndian(1005, 2) == BigEndian(3, 1) + [0xED];
    assert CloseMessage(1005, []) == Some(m) by {
      assert BigEndian(1005, 2) + [] == [0x03, 0xED];
    }
    var c := Step(FRESH, ops[0]).0;
    assert c == Write(FRESH.(closed := true), BuildFrame(m));
    assert BuildFrame(m) == [0x88, 0x02, 0x03, 0xED] && c.wire == [] + BuildFrame(m);
    assert Run(FRESH, ops) == Run(c, []) == c;
  }

  // ----- The bytes of single calls -----

  predicate IsSend(op: Op) { op.SendText? || op.SendBytes? || op.SendJson? }

  /** On an idle connection a send writes its frame at once: a final text or binary frame around the data. */
  lemma SendWrites(c: Conn, d: Bytes, text: bool, prebuilt: bool)
    requires c.open && !c.closed && !c.corked && c.pending == [] && !c.scheduled
    ensures Step(c, SendText(d)) == (c.(wire := c.wire + ([0x81] + LengthField(|d|) + d)), Done)
    ensures Step(c, SendBytes(d)) == (c.(wire := c.wire + ([0x82] + LengthField(|d|) + d)), Done)
    ensures Step(c, SendJson(d, text, prebuilt))
            == (c.(wire := c.wire + ([if text then 0x81 else 0x82] + LengthField(|d|) + d)), Done)
  {
    hide LengthField;
  }

  /** The length in front of the data, byte by byte. */
  lemma LengthBytes(n: nat)
    requires n < PAYLOAD_LIMIT
    ensures n <= 125 ==> LengthField(n) == [n]
    ensures 126 <= n <= 65535 ==> LengthField(n) == [126, n / 256, n % 256]
    ensures n >= 65536 ==> |LengthField(n)| == 9 && LengthField(n)[0] == 127 && FromBigEndian(LengthField(n)[1..]) == n
  {
    if 126 <= n <= 65535 {
      TwoBytes(n);
    } else if n >= 65536 {
      LengthFieldRead(n);
    }
  }

  lemma TwoBytes(n: nat)
    requires n <= 65535
    ensures BigEndian(n, 2) == [n / 256, n % 256]
  {
    assert BigEndian(n / 256, 1) == BigEndian(n / 256 / 256, 0) + [n / 256 % 256];
  }

  /**
   * A first close writes a close frame that carries the code it was given, then the
   * reason; 1006, which is never sent, becomes 1000 with "1006:" before the reason. A
   * code that does not fit two bytes raises, with the connection marked closed all the same.
   */
  lemma CloseCarries(c: Conn, code: int, reason: Reason)
    requires c.open && !c.closed && c.cork == [] && c.pending == []
    ensures var (c', outcome) := Step(c, Close(code, reason));
            && c'.closed
            && (0 <= code <= 65535 ==>
                  var sent := if code == 1006 then [1000 / 256, 1000 % 256] + [49, 48, 48, 54, 58] + reason
                              else [code / 256, code % 256] + reason;
                  outcome == Done && c'.wire == c.wire + ([0x88] + LengthField(|sent|) + sent))
            && (!(0 <= code <= 65535) ==> outcome == RaisedPack && c'.wire == c.wire)
  {
    hide LengthField, BigEndian;
    assert c.wire + [] == c.wire;
    if code == 1006 {
      TwoBytes(1000);
      var code' := [1000 / 256, 1000 % 256];
      assert code' + (PREFIX_1006 + reason) == code' + [49, 48, 48, 54, 58] + reason;
    } else if 0 <= code <= 65535 {
      TwoBytes(code);
    }
  }

  /** Sending on a closed connection raises and does nothing; no other call but a bad close raises. */
  lemma RaisesIff(c: Conn, op: Op)
    ensures Step(c, op).1 == RaisedClosed <==> c.closed && IsSend(op)
    ensures Step(c, op).1 == RaisedPack <==> !c.closed && op.Close? && !(0 <= op.code <= 65535)
    ensures Step(c, op).1 == RaisedClosed ==> Step(c, op).0 == c
  {
    hide Write, BuildFrame, BuildFrames, BigEndian;
  }

  lemma {:induction false} CorkedSends(c: Conn, ops: seq<Op>)
    requires c.corked && forall op <- ops :: IsSend(op)
    ensures Run(c, ops) == c.(cork := c.cork + Sent(c, ops))
    decreases |ops|
  {
    if ops == [] {
      assert c.cork + [] == c.cork;
    } else {
      assert ops[0] in ops;
      var c', rest := Step(c, ops[0]).0, ops[1..];
      assert c' == c.(cork := c.cork + Accepted(c, ops[0]));
      CorkedSends(c', rest);
      assert c.cork + Accepted(c, ops[0]) + Sent(c', rest) == c.cork + Sent(c, ops);
    }
  }

  /** A cork holds back every send behind it, and uncorking writes them all, in order. */
  lemma CorkHoldsBack(c: Conn, ops: seq<Op>)
    requires forall op <- ops :: IsSend(op)
    ensures var sent := Sent(c, [Cork] + ops);
            && Run(c, [Cork] + ops) == c.(corked := true, cork := c.cork + sent)
            && (c.open ==> Run(c, [Cork] + ops + [Uncork])
                           == c.(wire := c.wire + BuildFrames(c.cork + sent), cork := [], corked := false))
  {
    hide BuildFrames;
    var corked := c.(corked := true);
    assert ([Cork] + ops)[1..] == ops;
    assert [] + Sent(corked, ops) == Sent(corked, ops);
    CorkedSends(corked, ops);
    RunSplit(c, [Cork] + ops, [Uncork]);
    assert [Uncork][1..] == [];
  }

  /** Once the transport is lost nothing more is written, and after a close by the peer every send raises. */
  lemma {:induction false} SilentWhenLost(c: Conn, ops: seq<Op>, op: Op)
    ensures Run(c, [TransportLost] + ops).wire == c.wire
    ensures IsSend(op) ==> Step(Run(c, [PeerClose] + ops), op).1 == RaisedClosed
  {
    assert ([TransportLost] + ops)[1..] == ops && ([PeerClose] + ops)[1..] == ops;
    ShutStays(c.(open := false), ops);
    ShutStays(c.(closed := true), ops);
    hide Run;
    RaisesIff(Run(c, [PeerClose] + ops), op);
  }

  lemma {:induction false} ShutStays(c: Conn, ops: seq<Op>)
    ensures !c.open ==> Run(c, ops).wire == c.wire && !Run(c, ops).open
    ensures c.closed ==> Run(c, ops).closed
    decreases |ops|
  {
    if ops != [] {
      ShutStep(c, ops[0]);
      hide Step;
      ShutStays(Step(c, ops[0]).0, ops[1..]);
    }
  }

  lemma ShutStep(c: Conn, op: Op)
    ensures !c.open ==> Step(c, op).0.wire == c.wire && !Step(c, op).0.open
    ensures c.closed ==> Step(c, op).0.closed
  {
    hide BuildFrame, BuildFrames, CloseMessage;
  }

  // ----- The classes -----

  /** Bytes written in order; once the transport is closing, writes are dropped. */
  class Transport {
    var wire: seq<byte>
    var closing: bool

    constructor ()
      ensures wire == [] && !closing
    {
      wire, closing := [], false;
    }

    method Write(data: seq<byte>)
      modifies this`wire
      ensures wire == if closing then old(wire) else old(wire) + data
    {
      if !closing {
        wire := wire + data;
      }
    }
  }

  /** A cork entry: a payload still to be framed, or a frame already built (opcode None). */
  datatype CorkEntry = Raw(m: Message) | Prebuilt(frame: seq<byte>)

  predicate Represents(e: CorkEntry, m: Message) {
    match e case Raw(m') => m' == m case Prebuilt(f) => f == BuildFrame(m)
  }

  lemma JoinPrefix(ms: seq<Message>, i: nat, j: nat, start: seq<byte>)
    requires i <= j <= |ms|
    ensures start + BuildFrames(ms[..i]) + BuildFrames(ms[i..j]) == start + BuildFrames(ms[..j])
    ensures i == j ==> BuildFrames(ms[i..j]) == []
    ensures j == i + 1 ==> BuildFrames(ms[i..j]) == BuildFrame(ms[i])
  {
    hide BuildFrame;
    BuildFramesAppend(ms[..i], ms[i..j]);
    assert ms[..i] + ms[i..j] == ms[..j];
    var a, b := BuildFrames(ms[..i]), BuildFrames(ms[i..j]);
    assert start + a + b == start + (a + b);
    if j == i + 1 {
      assert ms[i..j] == [ms[i]];
    }
  }

  /** The wire once the first `k` messages have gone out. */
  ghost function WireAt(start: seq<byte>, ms: seq<Message>, k: nat): seq<byte>
    requires k <= |ms|
  {
    start + BuildFrames(ms[..k])
  }

  lemma WireEnds(start: seq<byte>, ms: seq<Message>)
    ensures WireAt(start, ms, 0) == start && WireAt(start, ms, |ms|) == start + BuildFrames(ms)
  {
    assert ms[..|ms|] == ms && BuildFrames(ms[..0]) == [];
  }

  lemma WireGrows(start: seq<byte>, ms: seq<Message>, i: nat, j: nat)
    requires i <= j <= |ms|
    ensures WireAt(start, ms, i) + BuildFrames(ms[i..j]) == WireAt(start, ms, j)
    ensures j == i + 1 ==> BuildFrames(ms[i..j]) == BuildFrame(ms[i])
  {
    hide BuildFrame, BuildFrames;
    JoinPrefix(ms, i, j, start);
  }

  class CppWebSocket {
    const transport: Transport
    var closed: bool
    var corked: bool
    var corkBuf: seq<CorkEntry>
    var pendingSends: seq<Message>
    var flushScheduled: bool
    ghost var corkMsgs: seq<Message>

    ghost predicate Valid()
      reads this
    {
      && |corkMsgs| == |corkBuf|
      && (forall i :: 0 <= i < |corkBuf| ==> Represents(corkBuf[i], corkMsgs[i]))
    }

    ghost function State(): Conn
      reads this, transport
    {
      Conn(transport.wire, !transport.closing, corked, corkMsgs, pendingSends, flushScheduled, closed)
    }

    constructor (t: Transport)
      requires t.wire == [] && !t.closing
      ensures Valid() && transport == t && State() == FRESH
    {
      transport := t;
      closed, corked, corkBuf, pendingSends, flushScheduled := false, false, [], [], false;
      corkMsgs := [];
    }

    /** The batch builder, as the loop that stands in for it when it is not compiled in. */
    method WriteBatch(entries: seq<Message>)
      requires !transport.closing
      modifies transport`wire
      ensures transport.wire == old(transport.wire) + BuildFrames(entries)
    {
      for i := 0 to |entries|
        invariant transport.wire == old(transport.wire) + BuildFrames(entries[..i])
      {
        transport.Write(BuildFrame(entries[i]));
        JoinPrefix(entries, i, i + 1, old(transport.wire));
      }
      assert entries[..|entries|] == entries;
    }

    method FlushCorkBuffer()
      requires Valid()
      modifies this`corkBuf, this`corkMsgs, transport`wire
      ensures Valid()
      ensures State() == FlushCork(old(State()))
    {
      if corkBuf == [] {
        assert corkMsgs == [] && transport.wire + [] == transport.wire;
        return;
      }
      if transport.closing {
        corkBuf, corkMsgs := [], [];
        return;
      }
      FlushEntries(corkBuf, corkMsgs);
      corkBuf, corkMsgs := [], [];
    }

    /** Pre-built frames go out as they are; runs of raw entries between them are framed in batches. */
    method FlushEntries(entries: seq<CorkEntry>, ghost msgs: seq<Message>)
      requires |msgs| == |entries| && !transport.closing
      requires forall i :: 0 <= i < |entries| ==> Represents(entries[i], msgs[i])
      modifies transport`wire
      ensures transport.wire == old(transport.wire) + BuildFrames(msgs)
    {
      hide BuildFrame, BuildFrames, WireAt;
      var rawEntries: seq<Message> := [];
      ghost var start, flushed := transport.wire, 0;
      WireEnds(start, msgs);
      for i := 0 to |entries|
        invariant flushed <= i && rawEntries == msgs[flushed..i]
        invariant transport.wire == WireAt(start, msgs, flushed)
      {
        assert Represents(entries[i], msgs[i]);
        match entries[i]
        case Prebuilt(frame) =>
          if rawEntries != [] {
            WriteBatch(rawEntries);
            rawEntries := [];
          }
          WireGrows(start, msgs, flushed, i);
          transport.Write(frame);
          WireGrows(start, msgs, i, i + 1);
          flushed := i + 1;
        case Raw(entry) =>
          rawEntries := rawEntries + [entry];
      }
      if rawEntries != [] {
        WriteBatch(rawEntries);
      }
      WireGrows(start, msgs, flushed, |msgs|);
    }

    method FlushPendingSends()
      requires Valid()
      modifies this`pendingSends, this`flushScheduled, transport`wire
      ensures Valid()
      ensures State() == Flush(old(State()))
    {
      flushScheduled := false;
      if pendingSends == [] {
        assert transport.wire + [] == transport.wire;
        return;
      }
      if transport.closing {
        pendingSends := [];
        return;
      }
      if |pendingSends| == 1 {
        assert BuildFrames(pendingSends) == BuildFrame(pendingSends[0]);
        transport.Write(BuildFrame(pendingSends[0]));
      } else {
        WriteBatch(pendingSends);
      }
      pendingSends := [];
    }

    method Enqueue(m: Message)
      requires Valid()
      modifies this`pendingSends, this`flushScheduled, transport`wire
      ensures Valid()
      ensures State() == QueueSend(old(State()), m)
    {
      if transport.closing {
        return;
      }
      if !flushScheduled && pendingSends == [] {
        transport.Write(BuildFrame(m));
        return;
      }
      pendingSends := pendingSends + [m];
      if !flushScheduled {
        flushScheduled := true;
      }
    }

    method SendData(m: Message) returns (r: Outcome)
      requires Valid()
      modifies this, transport`wire
      ensures Valid()
      ensures (State(), r) == Send(old(State()), m, false)
    {
      if closed {
        return RaisedClosed;
      }
      if corked {
        corkBuf, corkMsgs := corkBuf + [Raw(m)], corkMsgs + [m];
      } else {
        Enqueue(m);
      }
      return Done;
    }

    /** With `prebuilt` serialisation and framing are one call; else the text is queued as any other. */
    method SendJsonFrame(json: Bytes, text: bool, prebuilt: bool) returns (r: Outcome)
      requires Valid()
      modifies this, transport`wire
      ensures Valid()
      ensures (State(), r) == Step(old(State()), SendJson(json, text, prebuilt))
    {
      if closed {
        return RaisedClosed;
      }
      var m := Message(if text then OP_TEXT else OP_BINARY, json);
      if !prebuilt {
        r := SendData(m);
        return;
      }
      var frame := BuildFrame(m);
      if corked {
        corkBuf, corkMsgs := corkBuf + [Prebuilt(frame)], corkMsgs + [m];
      } else {
        transport.Write(frame);
      }
      return Done;
    }

    method StartCork()
      requires Valid()
      modifies this`corked
      ensures Valid() && State() == Step(old(State()), Cork).0
    {
      corked := true;
    }

    method StopCork()
      requires Valid()
      modifies this, transport`wire
      ensures Valid() && State() == Step(old(State()), Uncork).0
    {
      FlushCorkBuffer();
      corked := false;
    }

    method CloseWith(code: int, reason: Reason) returns (r: Outcome)
      requires Valid()
      modifies this, transport`wire
      ensures Valid()
      ensures (State(), r) == Step(old(State()), Close(code, reason))
    {
      hide BuildFrames;
      hide BuildFrame;
      hide BigEndian;
      if closed {
        return Done;
      }
      closed := true;
      var code', reason' := code, reason;
      if code' == 1006 {
        code', reason' := 1000, PREFIX_1006 + reason;
      }
      if corked {
        FlushCorkBuffer();
      }
      if pendingSends != [] {
        FlushPendingSends();
      }
      if code' < 0 || code' > 0xFFFF {
        return RaisedPack;
      }
      transport.Write(BuildFrame(Message(OP_CLOSE, BigEndian(code', 2) + reason')));
      return Done;
    }
  }
}
