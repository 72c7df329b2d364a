/**
 * The receive channel of a WebSocket: a hand-off between the protocol, which feeds
 * frames, and one consumer, which awaits them, with two-threshold back-pressure.
 */
module WsChannel {
  /** Text and binary payloads have a size; a payload already parsed to a value counts as 0. */
  datatype Payload = Data(size: nat, content: nat) | Parsed(content: nat)

  datatype Frame = Frame(opcode: nat, payload: Payload)

  const OP_CLOSE := 0x8

  function Size(f: Frame): nat {
    match f.payload case Data(n, _) => n case Parsed(_) => 0
  }

  /** The water marks; `attached` says that a protocol is there to be paused. */
  datatype Config = Config(high: nat, low: nat, byteHigh: nat, byteLow: nat, attached: bool)

  /** The marks of a channel created with the default arguments. */
  const DEFAULTS := Config(256, 64, 8_388_608, 2_097_152, true)

  predicate Marks(g: Config) {
    g.low < g.high && g.byteLow < g.byteHigh
  }

  /** Where the single consumer is: between calls, suspended in `get`, or woken but not yet run. */
  datatype Consumer = Idle | Waiting | Resolved(frame: Frame)

  datatype Call = Pause | Resume

  datatype Chan = Chan(consumer: Consumer, buffer: seq<Frame>, total: int, paused: bool, calls: seq<Call>)

  const EMPTY := Chan(Idle, [], 0, false, [])

  /** `GetStart` runs `get` to its return or its await; `GetResume` is the rest of it. */
  datatype Op = Feed(frame: Frame) | FeedFrames(frames: seq<Frame>) | GetStart | GetResume

  predicate Enabled(c: Chan, op: Op) {
    match op
    case GetStart => c.consumer.Idle?
    case GetResume => c.consumer.Resolved?
    case _ => true
  }

  /** The frames of a batch up to and including its first close frame. */
  function UpToClose(fs: seq<Frame>): (r: seq<Frame>)
    ensures r <= fs
  {
    if fs == [] then []
    else if fs[0].opcode == OP_CLOSE then [fs[0]]
    else [fs[0]] + UpToClose(fs[1..])
  }

  function FeedStep(g: Config, c: Chan, f: Frame): Chan {
    if c.consumer.Waiting? then c.(consumer := Resolved(f))
    else
      var c' := c.(buffer := c.buffer + [f], total := c.total + Size(f));
      if !c.paused && (|c'.buffer| >= g.high || c'.total >= g.byteHigh) && g.attached
      then c'.(paused := true, calls := c.calls + [Pause])
      else c'
  }

  /** A batch goes to the waiting consumer first and then to the buffer, uncounted. */
  function BatchStep(c: Chan, fs: seq<Frame>): Chan {
    if c.consumer.Waiting? && fs != []
    then c.(consumer := Resolved(fs[0]), buffer := c.buffer + fs[1..])
    else c.(buffer := c.buffer + fs)
  }

  lemma BatchOneMore(c: Chan, fs: seq<Frame>, f: Frame)
    ensures BatchStep(c, []) == c && BatchStep(c, fs + [f]) == BatchStep(BatchStep(c, fs), [f])
  {
    assert c.buffer + [] == c.buffer;
    if c.consumer.Waiting? && fs != [] {
      assert (fs + [f])[1..] == fs[1..] + [f];
      assert c.buffer + (fs[1..] + [f]) == c.buffer + fs[1..] + [f];
    } else {
      assert c.buffer + (fs + [f]) == c.buffer + fs + [f];
      assert fs == [] ==> [] + [f] == [f] && c.buffer + fs == c.buffer;
    }
  }

  function GetStep(g: Config, c: Chan): Chan {
    if c.buffer == [] then c.(consumer := Waiting)
    else
      var c' := c.(buffer := c.buffer[1..], total := c.total - Size(c.buffer[0]));
      if c.paused && |c'.buffer| <= g.low && c'.total <= g.byteLow && g.attached
      then c'.(paused := false, calls := c.calls + [Resume])
      else c'
  }

  function Step(g: Config, c: Chan, op: Op): Chan
    requires Enabled(c, op)
  {
    match op
    case Feed(f) => FeedStep(g, c, f)
    case FeedFrames(fs) => BatchStep(c, UpToClose(fs))
    case GetStart => GetStep(g, c)
    case GetResume => c.(consumer := Idle)
  }

  predicate Legal(g: Config, c: Chan, ops: seq<Op>)
    decreases |ops|
  {
    ops != [] ==> Enabled(c, ops[0]) && Legal(g, Step(g, c, ops[0]), ops[1..])
  }

  function Run(g: Config, c: Chan, ops: seq<Op>): Chan
    requires Legal(g, c, ops)
    decreases |ops|
  {
    if ops == [] then c else Run(g, Step(g, c, ops[0]), ops[1..])
  }

  /** All frames fed by a run. Of a batch, what follows a close frame is dropped. */
  function Fed(ops: seq<Op>): seq<Frame> {
    if ops == [] then [] else FedBy(ops[0]) + Fed(ops[1..])
  }

  function FedBy(op: Op): seq<Frame> {
    match op
    case Feed(f) => [f]
    case FeedFrames(fs) => UpToClose(fs)
    case _ => []
  }

  function Delivered(c: Chan, op: Op): seq<Frame>
    requires Enabled(c, op)
  {
    match op
    case GetStart => if c.buffer == [] then [] else [c.buffer[0]]
    case GetResume => [c.consumer.frame]
    case _ => []
  }

  /** What the calls of `get` returned over a run. */
  function Received(g: Config, c: Chan, ops: seq<Op>): seq<Frame>
    requires Legal(g, c, ops)
    decreases |ops|
  {
    if ops == [] then [] else Delivered(c, ops[0]) + Received(g, Step(g, c, ops[0]), ops[1..])
  }

  // ----- First in, first out -----

  /** Frames on their way: handed over but not yet read, then buffered. */
  function InFlight(c: Chan): seq<Frame> {
    (if c.consumer.Resolved? then [c.consumer.frame] else []) + c.buffer
  }

  predicate HandOff(c: Chan) {
    c.consumer.Waiting? ==> c.buffer == []
  }

  lemma BatchFifo(c: Chan, fs: seq<Frame>)
    requires HandOff(c)
    ensures HandOff(BatchStep(c, fs)) && InFlight(BatchStep(c, fs)) == InFlight(c) + fs
  {
    if c.consumer.Waiting? && fs != [] {
      assert [fs[0]] + ([] + fs[1..]) == [] + fs;
    }
  }

  lemma FeedFifo(g: Config, c: Chan, f: Frame)
    requires HandOff(c)
    ensures HandOff(FeedStep(g, c, f)) && InFlight(FeedStep(g, c, f)) == InFlight(c) + [f]
  {
  }

  lemma StepFifo(g: Config, c: Chan, op: Op)
    requires Enabled(c, op) && HandOff(c)
    ensures HandOff(Step(g, c, op))
    ensures Delivered(c, op) + InFlight(Step(g, c, op)) == InFlight(c) + FedBy(op)
  {
    hide UpToClose, BatchStep, FeedStep, Size;
    match op
    case Feed(f) =>
      FeedFifo(g, c, f);
      hide InFlight, HandOff;
    case FeedFrames(fs) =>
      BatchFifo(c, UpToClose(fs));
      hide InFlight, HandOff;
    case _ =>
  }

  lemma Regroup(d: seq<Frame>, r: seq<Frame>, fin: seq<Frame>, a: seq<Frame>, a': seq<Frame>,
                f: seq<Frame>, fs: seq<Frame>)
    requires d + a' == a + f && r + fin == a' + fs
    ensures (d + r) + fin == a + (f + fs)
  {
    assert (d + r) + fin == d + (r + fin) == (d + a') + fs == a + (f + fs);
  }

  lemma {:induction false} FifoFrom(g: Config, c: Chan, ops: seq<Op>)
    requires Legal(g, c, ops) && HandOff(c)
    ensures HandOff(Run(g, c, ops))
    ensures Received(g, c, ops) + InFlight(Run(g, c, ops)) == InFlight(c) + Fed(ops)
    decreases |ops|
  {
    if ops == [] {
      assert InFlight(c) + [] == InFlight(c);
    } else {
      hide Step;
      hide InFlight;
      hide Delivered;
      hide FedBy;
      var d, c', rest := Delivered(c, ops[0]), Step(g, c, ops[0]), ops[1..];
      StepFifo(g, c, ops[0]);
      FifoFrom(g, c', rest);
      var r, fin := Received(g, c', rest), InFlight(Run(g, c', rest));
      Regroup(d, r, fin, InFlight(c), InFlight(c'), FedBy(ops[0]), Fed(rest));
    }
  }

  /**
   * No frame is lost, duplicated or reordered: in every reachable state, what the
   * consumer received, then the frame handed over but unread, then the buffer, is the
   * sequence fed. A suspended consumer means an empty buffer.
   */
  lemma Fifo(g: Config, ops: seq<Op>)
    requires Legal(g, EMPTY, ops)
    ensures var c := Run(g, EMPTY, ops);
            && Received(g, EMPTY, ops) + InFlight(c) == Fed(ops)
            && (c.consumer.Waiting? ==> c.buffer == [] && Received(g, EMPTY, ops) == Fed(ops))
  {
    FifoFrom(g, EMPTY, ops);
    hide Fed;
    hide Received;
    assert [] + Fed(ops) == Fed(ops);
    assert Received(g, EMPTY, ops) + [] == Received(g, EMPTY, ops);
  }

  // ----- Back-pressure -----

  function Bytes(fs: seq<Frame>): nat {
    if fs == [] then 0 else Size(fs[0]) + Bytes(fs[1..])
  }

  lemma {:induction false} BytesAppend(a: seq<Frame>, b: seq<Frame>)
    ensures Bytes(a + b) == Bytes(a) + Bytes(b)
    decreases |a|
  {
    if a == [] {
      assert a + b == b;
    } else {
      assert (a + b)[1..] == a[1..] + b;
      BytesAppend(a[1..], b);
    }
  }

  /** The bytes batches put into the buffer without counting them, over a run. */
  function Uncounted(g: Config, c: Chan, ops: seq<Op>): nat
    requires Legal(g, c, ops)
    decreases |ops|
  {
    if ops == [] then 0 else UncountedBy(c, ops[0]) + Uncounted(g, Step(g, c, ops[0]), ops[1..])
  }

  function UncountedBy(c: Chan, op: Op): nat {
    match op
    case FeedFrames(fs) =>
      var u := UpToClose(fs);
      Bytes(if c.consumer.Waiting? && u != [] then u[1..] else u)
    case _ => 0
  }

  /** Pause and resume calls in turn, starting with a pause. */
  function Alternating(n: nat): seq<Call> {
    if n == 0 then [] else Alternating(n - 1) + [if n % 2 == 1 then Pause else Resume]
  }

  /** What every run keeps, batches included; `missing` is the error of the byte counter. */
  predicate PressureInv(g: Config, c: Chan, missing: nat) {
    && c.total == Bytes(c.buffer) - missing
    && (c.paused ==> g.attached && (|c.buffer| > g.low || c.total > g.byteLow))
    && c.calls == Alternating(|c.calls|)
    && c.paused == (|c.calls| % 2 == 1)
  }

  /** What holds in addition when frames come one by one. */
  predicate BelowHigh(g: Config, c: Chan) {
    !c.paused ==> |c.buffer| < g.high && c.total < g.byteHigh
  }

  lemma StepPressure(g: Config, c: Chan, op: Op, missing: nat)
    requires Enabled(c, op) && Marks(g) && PressureInv(g, c, missing)
    ensures PressureInv(g, Step(g, c, op), missing + UncountedBy(c, op))
  {
    match op {
      case Feed(f) => BytesAppend(c.buffer, [f]);
      case FeedFrames(fs) =>
        var u := UpToClose(fs);
        BytesAppend(c.buffer, if c.consumer.Waiting? && u != [] then u[1..] else u);
      case GetStart =>
      case GetResume =>
    }
  }

  lemma {:induction false} PressureFrom(g: Config, c: Chan, ops: seq<Op>, missing: nat)
    requires Legal(g, c, ops) && Marks(g) && PressureInv(g, c, missing)
    ensures PressureInv(g, Run(g, c, ops), missing + Uncounted(g, c, ops))
    decreases |ops|
  {
    hide Step;
    hide UncountedBy;
    hide PressureInv;
    if ops != [] {
      StepPressure(g, c, ops[0], missing);
      PressureFrom(g, Step(g, c, ops[0]), ops[1..], missing + UncountedBy(c, ops[0]));
    }
  }

  lemma {:induction false} BelowHighFrom(g: Config, c: Chan, ops: seq<Op>)
    requires Legal(g, c, ops) && Marks(g) && g.attached && BelowHigh(g, c)
    requires forall op <- ops :: !op.FeedFrames?
    ensures BelowHigh(g, Run(g, c, ops)) && Uncounted(g, c, ops) == 0
    decreases |ops|
  {
    if ops != [] {
      BelowHighFrom(g, Step(g, c, ops[0]), ops[1..]);
    }
  }

  /**
   * Back-pressure never sticks. Over every run, batches included: a paused channel is
   * above a low mark, so with an empty buffer (in particular under a suspended
   * consumer) it is never paused, and the calls to the transport strictly alternate.
   */
  lemma NeverStuck(g: Config, ops: seq<Op>)
    requires Legal(g, EMPTY, ops) && Marks(g)
    ensures var c := Run(g, EMPTY, ops);
            && (c.paused ==> |c.buffer| > g.low || c.total > g.byteLow)
            && (c.buffer == [] || c.consumer.Waiting? ==> !c.paused)
            && c.calls == Alternating(|c.calls|)
            && c.paused == (|c.calls| % 2 == 1)
  {
    PressureFrom(g, EMPTY, ops, 0);
    FifoFrom(g, EMPTY, ops);
    hide Run, Legal, Received, InFlight, Fed, Uncounted, Alternating;
    var c := Run(g, EMPTY, ops);
    assert c.buffer == [] ==> Bytes(c.buffer) == 0;
    hide Bytes;
  }

  /**
   * The byte counter is the buffered total exactly when no batch has put bytes into
   * the buffer; otherwise it is too small by precisely those bytes, for ever.
   */
  lemma CounterExactIff(g: Config, ops: seq<Op>)
    requires Legal(g, EMPTY, ops) && Marks(g)
    ensures var c := Run(g, EMPTY, ops);
            && c.total == Bytes(c.buffer) - Uncounted(g, EMPTY, ops)
            && (c.total == Bytes(c.buffer) <==> Uncounted(g, EMPTY, ops) == 0)
  {
    PressureFrom(g, EMPTY, ops, 0);
  }

  /** Fed frame by frame, the counter is exact and an unpaused channel is below both high marks. */
  lemma BoundedWhenUnpaused(g: Config, ops: seq<Op>)
    requires Legal(g, EMPTY, ops) && Marks(g) && g.attached
    requires forall op <- ops :: !op.FeedFrames?
    ensures var c := Run(g, EMPTY, ops);
            && c.total == Bytes(c.buffer)
            && (!c.paused ==> |c.buffer| < g.high && Bytes(c.buffer) < g.byteHigh)
  {
    BelowHighFrom(g, EMPTY, ops);
    PressureFrom(g, EMPTY, ops, 0);
  }

  /** The frames that batches have put into the buffer. */
  function Queued(g: Config, c: Chan, ops: seq<Op>): nat
    requires Legal(g, c, ops)
    decreases |ops|
  {
    if ops == [] then 0 else QueuedBy(c, ops[0]) + Queued(g, Step(g, c, ops[0]), ops[1..])
  }

  function QueuedBy(c: Chan, op: Op): nat {
    match op
    case FeedFrames(fs) =>
      var u := UpToClose(fs);
      if c.consumer.Waiting? && u != [] then |u| - 1 else |u|
    case _ => 0
  }

  lemma {:induction false} EscapeFrom(g: Config, c: Chan, ops: seq<Op>, queued: nat)
    requires Legal(g, c, ops) && Marks(g) && g.attached
    requires !c.paused ==> c.total < g.byteHigh && |c.buffer| < g.high + queued
    ensures var c' := Run(g, c, ops);
            !c'.paused ==> c'.total < g.byteHigh && |c'.buffer| < g.high + queued + Queued(g, c, ops)
    decreases |ops|
  {
    if ops != [] {
      EscapeFrom(g, Step(g, c, ops[0]), ops[1..], queued + QueuedBy(c, ops[0]));
    }
  }

  /** Batches included, an unpaused channel exceeds its marks by no more than batches have put into it. */
  lemma EscapeIsBounded(g: Config, ops: seq<Op>)
    requires Legal(g, EMPTY, ops) && Marks(g) && g.attached
    ensures var c := Run(g, EMPTY, ops);
            !c.paused ==>
              && Bytes(c.buffer) < g.byteHigh + Uncounted(g, EMPTY, ops)
              && |c.buffer| < g.high + Queued(g, EMPTY, ops)
  {
    EscapeFrom(g, EMPTY, ops, 0);
    CounterExactIff(g, ops);
  }

  /** A batch of one large frame: above the byte mark and not paused; reading it drives the counter below zero. */
  lemma BatchEscapesBound()
    ensures var f := Frame(1, Data(9_000_000, 0));
            var ops := [FeedFrames([f]), GetStart];
            && Legal(DEFAULTS, EMPTY, ops)
            && !Run(DEFAULTS, EMPTY, ops[..1]).paused
            && Bytes(Run(DEFAULTS, EMPTY, ops[..1]).buffer) > DEFAULTS.byteHigh
            && Run(DEFAULTS, EMPTY, ops).total == -9_000_000
  {
    var f := Frame(1, Data(9_000_000, 0));
    var ops := [FeedFrames([f]), GetStart];
    var c1 := Step(DEFAULTS, EMPTY, ops[0]);
    assert UpToClose([f]) == [f] && c1 == EMPTY.(buffer := [f]);
    var c2 := Step(DEFAULTS, c1, ops[1]);
    assert c2.total == -9_000_000;
    assert ops[1..] == [GetStart] && ops[..1] == [FeedFrames([f])];
    assert Run(DEFAULTS, c1, [GetStart]) == Run(DEFAULTS, c2, []) == c2;
    assert Run(DEFAULTS, EMPTY, ops[..1]) == Run(DEFAULTS, c1, []) == c1;
    assert Bytes([f]) == Size(f) + Bytes([]);
  }

  // ----- Hysteresis -----

  lemma {:induction false} RunPrefix(g: Config, c: Chan, ops: seq<Op>, n: nat)
    requires Legal(g, c, ops) && n < |ops|
    ensures Legal(g, c, ops[..n]) && Legal(g, c, ops[..n + 1]) && Enabled(Run(g, c, ops[..n]), ops[n])
    ensures Run(g, c, ops[..n + 1]) == Step(g, Run(g, c, ops[..n]), ops[n])
    decreases n
  {
    hide Step, Enabled;
    assert ops[..n + 1][0] == ops[0] && ops[..n + 1][1..] == ops[1..][..n];
    if n > 0 {
      assert ops[..n][0] == ops[0] && ops[..n][1..] == ops[1..][..n - 1];
      RunPrefix(g, Step(g, c, ops[0]), ops[1..], n - 1);
    }
  }

  /** The call that one step makes is decided by the state the step leads to. */
  lemma StepCalls(g: Config, c: Chan, op: Op)
    requires Enabled(c, op)
    ensures var c' := Step(g, c, op);
            && c'.calls in {c.calls, c.calls + [Pause], c.calls + [Resume]}
            && (c'.calls == c.calls + [Pause] <==>
                  && !c.paused && g.attached && op.Feed? && !c.consumer.Waiting?
                  && (|c'.buffer| >= g.high || c'.total >= g.byteHigh))
            && (c'.calls == c.calls + [Resume] <==>
                  && c.paused && g.attached && op.GetStart? && c.buffer != []
                  && |c'.buffer| <= g.low && c'.total <= g.byteLow)
            && c'.paused == (c'.calls == c.calls + [Pause] || (c.paused && c'.calls != c.calls + [Resume]))
  {
    hide Size, UpToClose;
    var c' := Step(g, c, op);
    assert |c.calls + [Pause]| == |c.calls| + 1 == |c.calls + [Resume]|;
    assert (c.calls + [Pause])[|c.calls|] == Pause && (c.calls + [Resume])[|c.calls|] == Resume;
  }

  /**
   * Over every run, each pause is made in a state at or above a high mark and each
   * resume in a state at or below both low marks; in between nothing is called.
   */
  lemma Hysteresis(g: Config, ops: seq<Op>, n: nat)
    requires Legal(g, EMPTY, ops) && n < |ops|
    ensures Legal(g, EMPTY, ops[..n]) && Legal(g, EMPTY, ops[..n + 1])
    ensures var c, c' := Run(g, EMPTY, ops[..n]), Run(g, EMPTY, ops[..n + 1]);
            && c'.calls in {c.calls, c.calls + [Pause], c.calls + [Resume]}
            && (c'.calls == c.calls + [Pause] <==>
                  && !c.paused && g.attached && ops[n].Feed? && !c.consumer.Waiting?
                  && (|c'.buffer| >= g.high || c'.total >= g.byteHigh))
            && (c'.calls == c.calls + [Resume] <==>
                  && c.paused && g.attached && ops[n].GetStart? && c.buffer != []
                  && |c'.buffer| <= g.low && c'.total <= g.byteLow)
  {
    RunPrefix(g, EMPTY, ops, n);
    StepCalls(g, Run(g, EMPTY, ops[..n]), ops[n]);
  }

  /** A run that stays below both high marks makes no call at all. */
  lemma {:induction false} QuietBelowHigh(g: Config, ops: seq<Op>, n: nat)
    requires Legal(g, EMPTY, ops) && n <= |ops|
    requires forall m {:trigger ops[..m]} :: 0 <= m <= n && Legal(g, EMPTY, ops[..m]) ==>
               var c := Run(g, EMPTY, ops[..m]); |c.buffer| < g.high && c.total < g.byteHigh
    ensures Legal(g, EMPTY, ops[..n]) && Run(g, EMPTY, ops[..n]).calls == [] && !Run(g, EMPTY, ops[..n]).paused
  {
    if n > 0 {
      RunPrefix(g, EMPTY, ops, n - 1);
      QuietBelowHigh(g, ops, n - 1);
      StepCalls(g, Run(g, EMPTY, ops[..n - 1]), ops[n - 1]);
      hide Step, Run;
    }
  }

  /** The counter counts the bytes of texts and binary data; a payload that was already parsed counts for nothing. */
  lemma CountsData(g: Config, c: Chan, opcode: nat, n: nat, content: nat)
    requires !c.consumer.Waiting?
    ensures Step(g, c, Feed(Frame(opcode, Data(n, content)))).total == c.total + n
    ensures Step(g, c, Feed(Frame(opcode, Parsed(content)))).total == c.total
  {
  }

  /** Frames fed one by one while nobody reads. */
  function Feeds(fs: seq<Frame>): seq<Op> {
    if fs == [] then [] else [Feed(fs[0])] + Feeds(fs[1..])
  }

  predicate AtHigh(g: Config, c: Chan) { |c.buffer| >= g.high || c.total >= g.byteHigh }

  predicate AtLow(g: Config, c: Chan) { |c.buffer| <= g.low && c.total <= g.byteLow }

  lemma FeedOne(g: Config, c: Chan, f: Frame)
    requires g.attached && !c.consumer.Waiting?
    ensures var c' := Step(g, c, Feed(f));
            && c'.consumer == c.consumer && c'.buffer == c.buffer + [f] && c'.total == c.total + Size(f)
            && c'.paused == (c.paused || AtHigh(g, c'))
            && c'.calls == c.calls + if !c.paused && c'.paused then [Pause] else []
  {
    hide Size;
  }

  lemma RunCons(g: Config, c: Chan, op: Op, rest: seq<Op>)
    requires Enabled(c, op) && Legal(g, Step(g, c, op), rest)
    ensures Legal(g, c, [op] + rest) && Run(g, c, [op] + rest) == Run(g, Step(g, c, op), rest)
  {
    hide Step, Enabled;
    assert ([op] + rest)[0] == op && ([op] + rest)[1..] == rest;
  }

  /** Reaching `r` from `c` by buffering `fs`: paused when a high mark is reached, with one call. */
  predicate Buffered(g: Config, c: Chan, fs: seq<Frame>, r: Chan) {
    && r.consumer == c.consumer && r.buffer == c.buffer + fs && r.total == c.total + Bytes(fs)
    && r.paused == (c.paused || AtHigh(g, r))
    && r.calls == c.calls + if !c.paused && r.paused then [Pause] else []
  }

  lemma BufferedJoin(g: Config, c: Chan, f: Frame, c': Chan, rest: seq<Frame>, r: Chan)
    requires Buffered(g, c, [f], c') && Buffered(g, c', rest, r)
    ensures Buffered(g, c, [f] + rest, r)
  {
    BytesAppend([f], rest);
    hide Bytes;
    assert c.buffer + ([f] + rest) == c.buffer + [f] + rest;
  }

  lemma {:induction false} FeedingFrom(g: Config, c: Chan, fs: seq<Frame>)
    requires g.attached && !c.consumer.Waiting? && (!c.paused ==> !AtHigh(g, c))
    ensures Legal(g, c, Feeds(fs)) && Buffered(g, c, fs, Run(g, c, Feeds(fs)))
    decreases |fs|
  {
    if fs == [] {
      assert c.buffer + fs == c.buffer;
    } else {
      FeedOne(g, c, fs[0]);
      hide Step, Legal, Run;
      var c', rest := Step(g, c, Feed(fs[0])), fs[1..];
      assert Bytes([fs[0]]) == Size(fs[0]) + Bytes([]);
      hide Bytes, Size;
      FeedingFrom(g, c', rest);
      RunCons(g, c, Feed(fs[0]), Feeds(rest));
      BufferedJoin(g, c, fs[0], c', rest, Run(g, c', Feeds(rest)));
      assert fs == [fs[0]] + rest;
    }
  }

  /**
   * A new channel that is fed while nobody reads is paused by the 256th frame or by the
   * frame that brings the bytes to 8 MB, whichever comes first, and once only.
   */
  lemma PausedAtHighMark(fs: seq<Frame>)
    ensures Legal(DEFAULTS, EMPTY, Feeds(fs))
    ensures Run(DEFAULTS, EMPTY, Feeds(fs)).calls
            == if |fs| >= 256 || Bytes(fs) >= 8 * 1024 * 1024 then [Pause] else []
  {
    hide Bytes, Run, Legal, Feeds;
    FeedingFrom(DEFAULTS, EMPTY, fs);
    assert EMPTY.buffer + fs == fs;
  }

  /** Calls of `get` in a row. */
  function Gets(n: nat): seq<Op> {
    if n == 0 then [] else [GetStart] + Gets(n - 1)
  }

  lemma GetOne(g: Config, c: Chan)
    requires g.attached && c.consumer.Idle? && c.buffer != [] && c.total == Bytes(c.buffer)
    ensures var c' := Step(g, c, GetStart);
            && c'.consumer == c.consumer && c'.buffer == c.buffer[1..] && c'.total == Bytes(c'.buffer)
            && c'.paused == (c.paused && !AtLow(g, c'))
            && c'.calls == c.calls + if c.paused && !c'.paused then [Resume] else []
  {
    hide Size;
  }

  lemma BytesShrink(fs: seq<Frame>, n: nat)
    requires n <= |fs|
    ensures Bytes(fs[n..]) <= Bytes(fs)
  {
    assert fs[..n] + fs[n..] == fs;
    BytesAppend(fs[..n], fs[n..]);
  }

  lemma {:induction false} DrainingFrom(g: Config, c: Chan, n: nat)
    requires g.attached && c.consumer.Idle? && n <= |c.buffer| && c.total == Bytes(c.buffer)
    requires c.paused ==> !AtLow(g, c)
    ensures Legal(g, c, Gets(n))
    ensures var r := Run(g, c, Gets(n));
            && r.buffer == c.buffer[n..] && r.total == Bytes(r.buffer)
            && r.paused == (c.paused && !AtLow(g, r))
            && r.calls == c.calls + if c.paused && !r.paused then [Resume] else []
    decreases n
  {
    if n == 0 {
      assert c.buffer[0..] == c.buffer;
    } else {
      GetOne(g, c);
      hide Step, Bytes, Legal, Run;
      var c' := Step(g, c, GetStart);
      DrainingFrom(g, c', n - 1);
      RunCons(g, c, GetStart, Gets(n - 1));
      assert c.buffer[1..][n - 1..] == c.buffer[n..];
      BytesShrink(c.buffer[1..], n - 1);
    }
  }

  /**
   * Draining the channel that `fs` has paused resumes it at the read that leaves at most
   * 64 frames and 2 MB, and once only.
   */
  lemma ResumedAtLowMark(fs: seq<Frame>, n: nat)
    requires (|fs| >= 256 || Bytes(fs) >= 8 * 1024 * 1024) && n <= |fs|
    ensures Legal(DEFAULTS, EMPTY, Feeds(fs))
    ensures var c := Run(DEFAULTS, EMPTY, Feeds(fs));
            && Legal(DEFAULTS, c, Gets(n))
            && Run(DEFAULTS, c, Gets(n)).calls
               == if |fs| - n <= 64 && Bytes(fs[n..]) <= 2 * 1024 * 1024 then [Pause, Resume] else [Pause]
  {
    hide Bytes, Run, Legal, Feeds, Gets;
    FeedingFrom(DEFAULTS, EMPTY, fs);
    assert EMPTY.buffer + fs == fs;
    DrainingFrom(DEFAULTS, Run(DEFAULTS, EMPTY, Feeds(fs)), n);
  }

  // ----- The classes -----

  class Future {
    var done: bool
    var result: Frame

    constructor ()
      ensures !done
    {
      done := false;
      result := Frame(0, Parsed(0));
    }

    method SetResult(f: Frame)
      requires !done
      modifies this
      ensures done && result == f
    {
      done, result := true, f;
    }
  }

  datatype GetResult = Item(frame: Frame) | Await(future: Future)

  /**
   * `awaited` is the future the suspended consumer holds, null between calls. The
   * channel's own reference may be stale: a future already done.
   */
  class FastChannel {
    const config: Config
    var waiter: Future?
    var buffer: seq<Frame>
    var totalBytes: int
    var paused: bool
    ghost var calls: seq<Call>

    ghost predicate Valid(awaited: Future?)
      reads this, waiter, awaited
    {
      && ((waiter != null && !waiter.done) <==> (awaited != null && !awaited.done))
      && (awaited != null && !awaited.done ==> waiter == awaited)
    }

    ghost function State(awaited: Future?): Chan
      reads this, awaited
    {
      Chan(if awaited == null then Idle else if awaited.done then Resolved(awaited.result) else Waiting,
           buffer, totalBytes, paused, calls)
    }

    constructor (g: Config)
      ensures config == g && Valid(null) && State(null) == EMPTY
    {
      config := g;
      waiter, buffer, totalBytes, paused, calls := null, [], 0, false, [];
    }

    method FeedFrame(f: Frame, ghost awaited: Future?)
      requires Valid(awaited)
      modifies this, waiter
      ensures Valid(awaited) && State(awaited) == FeedStep(config, old(State(awaited)), f)
    {
      var w := waiter;
      if w != null && !w.done {
        waiter := null;
        w.SetResult(f);
      } else {
        totalBytes := totalBytes + Size(f);
        buffer := buffer + [f];
        if !paused && (|buffer| >= config.high || totalBytes >= config.byteHigh) && config.attached {
          paused := true;
          calls := calls + [Pause];
        }
      }
    }

    /** One frame of a batch: to the waiter remembered at the start, or to the buffer. */
    method Offer(w: Future?, f: Frame, ghost awaited: Future?) returns (w': Future?)
      requires Valid(awaited) && (w != null && !w.done ==> w == waiter)
      requires (w != null && !w.done) <==> (waiter != null && !waiter.done)
      modifies this, waiter
      ensures Valid(awaited) && State(awaited) == BatchStep(old(State(awaited)), [f])
      ensures w' == null || (w' == w && w'.done && waiter == old(waiter))
      ensures waiter == null || (waiter == old(waiter) && waiter.done)
    {
      if w != null && !w.done {
        waiter := null;
        w.SetResult(f);
        w' := null;
      } else {
        buffer := buffer + [f];
        w' := w;
      }
    }

    method FeedBatch(frames: seq<Frame>, ghost awaited: Future?) returns (close: bool)
      requires Valid(awaited)
      modifies this, waiter
      ensures Valid(awaited) && State(awaited) == BatchStep(old(State(awaited)), UpToClose(frames))
      ensures close <==> exists f <- frames :: f.opcode == OP_CLOSE
    {
      hide UpToClose;
      var w := waiter;
      ghost var start := State(awaited);
      assert start.buffer + [] == start.buffer;
      for i := 0 to |frames|
        invariant forall f <- frames[..i] :: f.opcode != OP_CLOSE
        invariant Valid(awaited) && (w != null ==> w == old(waiter)) && (waiter != null ==> waiter == old(waiter))
        invariant (w != null && !w.done) <==> (waiter != null && !waiter.done)
        invariant w != null && !w.done ==> waiter == w
        invariant State(awaited) == BatchStep(start, frames[..i])
      {
        hide BatchStep;
        UpToCloseSplit(frames, i);
        assert frames[..i + 1] == frames[..i] + [frames[i]];
        BatchOneMore(start, frames[..i], frames[i]);
        w := Offer(w, frames[i], awaited);
        if frames[i].opcode == OP_CLOSE {
          return true;
        }
      }
      UpToCloseSplit(frames, |frames|);
      return false;
    }

    method StartGet() returns (r: GetResult)
      requires Valid(null)
      modifies this
      ensures var before := old(State(null));
              match r
              case Item(f) => Valid(null) && before.buffer != [] && f == before.buffer[0]
                              && State(null) == GetStep(config, before)
              case Await(fut) => fresh(fut) && Valid(fut) && before.buffer == []
                                 && State(fut) == GetStep(config, before)
    {
      if buffer != [] {
        if waiter != null && waiter.done {
          waiter := null;
        }
        var item := buffer[0];
        buffer := buffer[1..];
        totalBytes := totalBytes - Size(item);
        if paused && |buffer| <= config.low && totalBytes <= config.byteLow && config.attached {
          paused := false;
          calls := calls + [Resume];
        }
        return Item(item);
      }
      var fut := new Future();
      waiter := fut;
      return Await(fut);
    }

    method ResumeGet(awaited: Future) returns (f: Frame)
      requires Valid(awaited) && awaited.done
      ensures [f] == Delivered(State(awaited), GetResume)
      ensures Valid(null) && State(null) == Step(config, State(awaited), GetResume)
    {
      f := awaited.result;
    }
  }

  /** The scan for a close frame, position by position. */
  lemma {:induction false} UpToCloseSplit(fs: seq<Frame>, i: nat)
    requires i <= |fs| && forall f <- fs[..i] :: f.opcode != 0x8
    ensures i == |fs| ==> UpToClose(fs) == fs
    ensures i < |fs| && fs[i].opcode == 0x8 ==> UpToClose(fs) == fs[..i + 1]
    ensures i == |fs| ==> forall f <- fs :: f.opcode != 0x8
    decreases |fs|
  {
    if fs != [] && i > 0 {
      assert fs[0] in fs[..i];
      assert fs[1..][..i - 1] == fs[..i][1..];
      UpToCloseSplit(fs[1..], i - 1);
      if i < |fs| {
        assert [fs[0]] + fs[1..][..i] == fs[..i + 1];
      }
    }
    if i == |fs| {
      assert fs[..i] == fs;
    }
  }
}
