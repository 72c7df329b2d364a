/**
 * The batch keep-alive sweep over HTTP connections: lazy deadlines and their timing. A sweep
 * reads the clock once, checks the connections, pausing after every 512 of them, and then
 * closes the expired ones; anything may happen to a connection in a pause.
 */
module KeepAlive {
  import opened Common

  /** The keep-alive fields of a protocol object, its transport, and whether the sweep under way has listed it. */
  datatype Conn = Conn(deadline: real, needsReset: bool, timeout: real, connected: bool, closing: bool, listed: bool) {
    predicate Open() {
      connected && !closing
    }
  }

  /** A connection as made: the deadline is set at once, from the clock. */
  function Made(now: real, timeout: real): Conn {
    Conn(now + timeout, false, timeout, true, false, false)
  }

  /** A completed batch of requests only raises a flag; a closing transport delivers no data. */
  function Active(c: Conn): Conn {
    if c.Open() then c.(needsReset := true) else c
  }

  function Lost(c: Conn): Conn {
    c.(connected := false, deadline := 0.0)
  }

  /** The connection is gone and its pooled object serves a new one; a sweep that has listed it still has. */
  function Remade(c: Conn, now: real): Conn {
    Made(now, c.timeout).(listed := c.listed)
  }

  predicate Expired(c: Conn, stamp: real) {
    c.connected && !c.needsReset && c.deadline > 0.0 && stamp > c.deadline
  }

  /** The check with the time that the sweep read when it began. */
  function Checked(c: Conn, stamp: real): Conn {
    if !c.connected then c.(listed := false)
    else if c.needsReset then c.(needsReset := false, deadline := stamp + c.timeout, listed := false)
    else c.(listed := Expired(c, stamp))
  }

  function Closed(c: Conn): Conn {
    c.(closing := c.closing || (c.listed && c.connected), listed := false)
  }

  // ----- Runs of one protocol object -----

  datatype Event =
    | Activity(at: real)
    | Check(at: real, stamp: real)
    | Close(at: real)
    | Drop(at: real)
    | Remake(at: real)

  function Step(c: Conn, e: Event): Conn {
    match e
    case Activity(_) => Active(c)
    case Check(_, stamp) => Checked(c, stamp)
    case Close(_) => Closed(c)
    case Drop(_) => Lost(c)
    case Remake(t) => Remade(c, t)
  }

  function Run(c: Conn, es: seq<Event>): Conn {
    if es == [] then c else Step(Run(c, es[..|es| - 1]), es[|es| - 1])
  }

  /** Does the event give the connection a new lease: a completed batch, or a new connection altogether? */
  predicate Renews(e: Event) {
    e.Activity? || e.Remake?
  }

  function Now(es: seq<Event>, start: real): real {
    if es == [] then start else es[|es| - 1].at
  }

  function LastRenewal(es: seq<Event>, start: real): real {
    if es == [] then start
    else if Renews(es[|es| - 1]) then es[|es| - 1].at
    else LastRenewal(es[..|es| - 1], start)
  }

  /** The time that the last sweep read. */
  function LastStamp(es: seq<Event>, first: real): real {
    if es == [] then first
    else if es[|es| - 1].Check? then es[|es| - 1].stamp
    else LastStamp(es[..|es| - 1], first)
  }

  /** Checked, and not yet at the closing end of the sweep. */
  predicate Pending(es: seq<Event>) {
    es != [] && (es[|es| - 1].Check? || (!es[|es| - 1].Close? && Pending(es[..|es| - 1])))
  }

  predicate RenewedSinceCheck(es: seq<Event>) {
    es != [] && !es[|es| - 1].Check? && (Renews(es[|es| - 1]) || RenewedSinceCheck(es[..|es| - 1]))
  }

  /** Times do not decrease; a sweep reads the clock after the one before, and before it checks. */
  predicate Ordered(es: seq<Event>, start: real, first: real) {
    es != [] ==>
      var rest, e := es[..|es| - 1], es[|es| - 1];
      && Ordered(rest, start, first) && Now(rest, start) <= e.at
      && (e.Check? ==> LastStamp(rest, first) <= e.stamp <= e.at)
  }

  /** The latest time for the next event of the sweep: the close of this one or the check of the next. */
  function Due(es: seq<Event>, first: real, period: real, length: real): real {
    LastStamp(es, first) + (if Pending(es) then length else period + length)
  }

  /** Sweeps begin at most `period` apart and end within `length`. */
  predicate Regular(es: seq<Event>, first: real, period: real, length: real) {
    es != [] ==>
      var rest, e := es[..|es| - 1], es[|es| - 1];
      && Regular(rest, first, period, length) && e.at <= Due(rest, first, period, length)
      && (e.Check? ==> !Pending(rest) && e.stamp <= LastStamp(rest, first) + period && e.at <= e.stamp + length)
  }

  lemma {:induction false} TimesBeforeNow(es: seq<Event>, start: real, first: real)
    requires Ordered(es, start, first) && first <= start
    ensures start <= LastRenewal(es, start) <= Now(es, start) && first <= LastStamp(es, first) <= Now(es, start)
  {
    if es != [] {
      TimesBeforeNow(es[..|es| - 1], start, first);
    }
  }

  /** A lost connection is left alone by every sweep, until its object serves a new one. */
  lemma {:induction false} LostIsLeftAlone(c: Conn, es: seq<Event>)
    requires forall e <- es :: !e.Remake?
    ensures var r := Run(Lost(c), es);
            !r.connected && r.deadline == 0.0 && r.closing == c.closing && r.needsReset == c.needsReset
  {
    if es != [] {
      assert es[|es| - 1] in es;
      LostIsLeftAlone(c, es[..|es| - 1]);
    }
  }

  /** A new connection of a pooled object starts afresh, whatever the object went through before. */
  lemma RemadeIsNew(c: Conn, es: seq<Event>, at: real)
    ensures var r, t := Run(c, es + [Remake(at)]), Run(c, es).timeout;
            r.Open() && !r.needsReset && r.deadline == at + t && r.timeout == t
  {
    assert (es + [Remake(at)])[..|es|] == es;
  }

  // ----- Never too early -----

  /** How far a check lags behind the clock that its sweep read. */
  predicate LagsAtMost(es: seq<Event>, lag: real) {
    es != [] ==>
      var e := es[|es| - 1];
      LagsAtMost(es[..|es| - 1], lag) && (e.Check? ==> e.at <= e.stamp + lag)
  }

  /** A deadline is at least the timeout after the last renewal, up to the lag. */
  lemma {:induction false} DeadlineNotEarly(es: seq<Event>, start: real, timeout: real, first: real, lag: real)
    requires Ordered(es, start, first) && first <= start && LagsAtMost(es, lag) && 0.0 <= lag
    ensures var c := Run(Made(start, timeout), es);
            && c.timeout == timeout
            && (c.Open() && !c.needsReset ==> c.deadline >= LastRenewal(es, start) + timeout - lag)
    decreases |es|
  {
    if es != [] {
      DeadlineNotEarly(es[..|es| - 1], start, timeout, first, lag);
      TimesBeforeNow(es[..|es| - 1], start, first);
    }
  }

  /** A connection listed and not renewed since had outlived its timeout when the sweep began, up to the lag. */
  lemma {:induction false} ListedIsOld(es: seq<Event>, start: real, timeout: real, first: real, lag: real)
    requires Ordered(es, start, first) && first <= start && LagsAtMost(es, lag) && 0.0 <= lag
    ensures var c := Run(Made(start, timeout), es);
            c.Open() && c.listed && !RenewedSinceCheck(es) ==>
              LastStamp(es, first) > LastRenewal(es, start) + timeout - lag
    decreases |es|
  {
    if es != [] {
      ListedIsOld(es[..|es| - 1], start, timeout, first, lag);
      DeadlineNotEarly(es[..|es| - 1], start, timeout, first, lag);
    }
  }

  lemma {:induction false} RenewedIsAfterCheck(es: seq<Event>, start: real, first: real)
    requires Ordered(es, start, first) && first <= start && RenewedSinceCheck(es)
    ensures LastRenewal(es, start) >= LastStamp(es, first)
  {
    TimesBeforeNow(es, start, first);
    TimesBeforeNow(es[..|es| - 1], start, first);
    if !Renews(es[|es| - 1]) {
      RenewedIsAfterCheck(es[..|es| - 1], start, first);
    }
  }

  /**
   * A sweep that ends at `now` closes a connection. If it was not renewed since it was
   * checked, it is closed later than the timeout after its last renewal, up to the lag of the
   * checks; if it was, it is closed too early, unless the sweep took longer than the
   * timeout. Without lag it is closed early exactly when it was renewed since the check.
   */
  lemma ClosedEarlyIff(es: seq<Event>, start: real, timeout: real, first: real, lag: real, now: real)
    requires Ordered(es, start, first) && first <= start && LagsAtMost(es, lag) && 0.0 <= lag
    requires Run(Made(start, timeout), es).Open() && Closed(Run(Made(start, timeout), es)).closing
    requires Now(es, start) <= now
    ensures !RenewedSinceCheck(es) ==> now > LastRenewal(es, start) + timeout - lag
    ensures RenewedSinceCheck(es) && now <= LastStamp(es, first) + timeout ==> now <= LastRenewal(es, start) + timeout
    ensures lag == 0.0 && now <= LastStamp(es, first) + timeout ==>
              (now <= LastRenewal(es, start) + timeout <==> RenewedSinceCheck(es))
  {
    TimesBeforeNow(es, start, first);
    ListedIsOld(es, start, timeout, first, lag);
    if RenewedSinceCheck(es) {
      RenewedIsAfterCheck(es, start, first);
    }
  }

  /** Sweeps without a pause: the check is prompt and the close follows at once. */
  lemma NeverClosedEarly(es: seq<Event>, start: real, timeout: real, first: real, now: real)
    requires Ordered(es, start, first) && first <= start && LagsAtMost(es, 0.0) && Now(es, start) <= now
    requires LastStamp(es, first) <= now && Run(Made(start, timeout), es).Open()
    requires Closed(Checked(Run(Made(start, timeout), es), now)).closing
    ensures now > LastRenewal(es, start) + timeout
  {
    hide Run, Ordered, LastRenewal;
    DeadlineNotEarly(es, start, timeout, first, 0.0);
  }

  // ----- Never too late -----

  /**
   * While open: listed only by the sweep under way, which then began in time; else not checked
   * since the last renewal, or with a near deadline that no sweep has passed.
   */
  predicate OnSchedule(c: Conn, es: seq<Event>, start: real, first: real, period: real) {
    && (c.listed ==> Pending(es))
    && (c.Open() ==>
          var renewal, stamp := LastRenewal(es, start), LastStamp(es, first);
          if c.listed then stamp <= renewal + c.timeout + 2.0 * period
          else if c.needsReset then stamp <= renewal
          else stamp <= c.deadline && 0.0 < c.deadline <= renewal + period + c.timeout)
  }

  lemma {:induction false} StaysOnSchedule(es: seq<Event>, start: real, timeout: real, first: real,
                                           period: real, length: real)
    requires Ordered(es, start, first) && Regular(es, first, period, length)
    requires 0.0 < first <= start && 0.0 <= timeout && 0.0 <= period
    ensures Run(Made(start, timeout), es).timeout == timeout
    ensures OnSchedule(Run(Made(start, timeout), es), es, start, first, period)
    decreases |es|
  {
    if es != [] {
      var rest := es[..|es| - 1];
      StaysOnSchedule(rest, start, timeout, first, period, length);
      TimesBeforeNow(rest, start, first);
    }
  }

  /**
   * An idle connection is always closed in time: with sweeps that begin at most `period`
   * apart and end within `length`, at no moment is a connection open whose last renewal is
   * more than timeout + 2 * period + length ago.
   */
  lemma IdleClosedInTime(es: seq<Event>, start: real, timeout: real, first: real, period: real, length: real, now: real)
    requires Ordered(es, start, first) && Regular(es, first, period, length)
    requires 0.0 < first <= start && 0.0 <= timeout && 0.0 <= period && 0.0 <= length
    requires now <= Due(es, first, period, length) && Run(Made(start, timeout), es).Open()
    ensures now <= LastRenewal(es, start) + timeout + 2.0 * period + length
  {
    hide Run, Ordered, Regular, LastStamp, LastRenewal;
    StaysOnSchedule(es, start, timeout, first, period, length);
  }

  // ----- The bound is tight -----

  /** A regular run that ends with a whole sweep at `at`, with the connection open and its deadline ahead. */
  predicate Waiting(es: seq<Event>, start: real, timeout: real, period: real, length: real, at: real) {
    && Ordered(es, start, start) && Regular(es, start, period, length)
    && Now(es, start) == at && LastStamp(es, start) == at && !Pending(es) && LastRenewal(es, start) == start
    && Run(Made(start, timeout), es) == Made(start, timeout).(deadline := start + period + timeout)
  }

  function Sweep(at: real): seq<Event> {
    [Check(at, at), Close(at)]
  }

  /** One more sweep, not later than the deadline, changes nothing. */
  lemma WaitingGoesOn(es: seq<Event>, start: real, timeout: real, period: real, length: real, at: real, next: real)
    requires Waiting(es, start, timeout, period, length, at) && 0.0 <= length
    requires at <= next <= at + period && next <= start + period + timeout
    ensures Waiting(es + Sweep(next), start, timeout, period, length, next)
  {
    var one, all := es + [Check(next, next)], es + Sweep(next);
    assert one[..|one| - 1] == es && all[..|all| - 1] == one;
  }

  /** Activity right behind a sweep; the next sweep, one period later, moves the deadline. */
  lemma WaitingStarts(start: real, timeout: real, period: real, length: real)
    requires 0.0 <= timeout && 0.0 < period && 0.0 <= length
    ensures Waiting([Activity(start)] + Sweep(start + period), start, timeout, period, length, start + period)
  {
    var at, one := start + period, [Activity(start)];
    var two, all := one + [Check(at, at)], one + Sweep(at);
    var c := Made(start, timeout);
    assert one[..|one| - 1] == [] && two[..|two| - 1] == one && all[..|all| - 1] == two;
    assert Run(c, []) == c && Ordered([], start, start) && Regular([], start, period, length) && !Pending([]);
    assert Run(c, one) == Active(c) && LastStamp(one, start) == start && LastRenewal(one, start) == start;
  }

  /** Sweeps one period apart, the last one exactly at the deadline. */
  lemma {:induction false} WaitToDeadline(es: seq<Event>, start: real, timeout: real, period: real, length: real,
                                          at: real, n: nat)
    returns (all: seq<Event>)
    requires Waiting(es, start, timeout, period, length, at) && 0.0 < period && 0.0 <= length
    requires at <= start + period + timeout <= at + n as real * period
    ensures Waiting(all, start, timeout, period, length, start + period + timeout)
    decreases n
  {
    hide Waiting;
    var deadline := start + period + timeout;
    if deadline <= at + period {
      WaitingGoesOn(es, start, timeout, period, length, at, deadline);
      return es + Sweep(deadline);
    }
    WaitingGoesOn(es, start, timeout, period, length, at, at + period);
    assert n > 0 && n as real * period == period + (n - 1) as real * period;
    all := WaitToDeadline(es + Sweep(at + period), start, timeout, period, length, at + period, n - 1);
  }

  lemma EnoughSteps(timeout: real, period: real) returns (n: nat)
    requires 0.0 <= timeout && 0.0 < period
    ensures timeout <= n as real * period
  {
    var q := timeout / period;
    assert q * period == timeout && q >= 0.0;
    n := q.Floor + 1;
    NonNegativeProduct(n as real - q, period);
    assert (n as real - q) * period == n as real * period - q * period;
  }

  lemma NonNegativeProduct(a: real, b: real)
    requires a >= 0.0 && b >= 0.0
    ensures a * b >= 0.0
  {
  }

  /** For every start, timeout, period and length there is a run in which a connection stays open until the bound. */
  lemma BoundIsReached(start: real, timeout: real, period: real, length: real) returns (es: seq<Event>)
    requires 0.0 < start && 0.0 <= timeout && 0.0 < period && 0.0 <= length
    ensures var now := LastRenewal(es, start) + timeout + 2.0 * period + length;
            && Ordered(es, start, start) && Regular(es, start, period, length)
            && Now(es, start) <= now <= Due(es, start, period, length)
            && Run(Made(start, timeout), es).Open()
  {
    WaitingStarts(start, timeout, period, length);
    var n := EnoughSteps(timeout, period);
    var before := WaitToDeadline([Activity(start)] + Sweep(start + period), start, timeout, period, length,
                                 start + period, n);
    var last := start + timeout + 2.0 * period;
    es := before + [Check(last, last)];
    assert es[..|es| - 1] == before;
  }

  // ----- Runs in which a pause does harm -----

  /** Checked, active in the pause, and closed all the same, for every timeout; or its object reused in the pause. */
  lemma RenewedButClosed(start: real, timeout: real, renewal: Event, at: real)
    requires 0.0 < start && 0.0 < timeout && start + timeout < at
    requires renewal == Activity(at) || renewal == Remake(at)
    ensures var es := [Check(at, at), renewal];
            && Ordered(es, start, start) && RenewedSinceCheck(es)
            && Run(Made(start, timeout), es).Open() && Closed(Run(Made(start, timeout), es)).closing
  {
    var es, one := [Check(at, at), renewal], [Check(at, at)];
    assert es[..|es| - 1] == one && one[..|one| - 1] == [];
    var c := Made(start, timeout);
    assert Run(c, []) == c && Run(c, one) == c.(listed := true);
    assert Ordered([], start, start) && Ordered(one, start, start);
  }

  /** Active in a pause before its check, a connection gets a deadline from the old clock and is closed too early. */
  lemma OldClockClosesEarly(start: real, timeout: real, stamp: real, active: real, check: real, next: real)
    requires 0.0 < start <= stamp < active <= check <= next && stamp + timeout < next <= active + timeout
    ensures var es := [Activity(active), Check(check, stamp), Close(check), Check(next, next)];
            && Ordered(es, start, start) && !RenewedSinceCheck(es)
            && Run(Made(start, timeout), es).Open() && Closed(Run(Made(start, timeout), es)).closing
            && next <= LastRenewal(es, start) + timeout
  {
    var es := [Activity(active), Check(check, stamp), Close(check), Check(next, next)];
    var one, two := [Activity(active)], [Activity(active), Check(check, stamp)];
    var three := [Activity(active), Check(check, stamp), Close(check)];
    assert one[..|one| - 1] == [] && two[..|two| - 1] == one && three[..|three| - 1] == two && es[..|es| - 1] == three;
    var c := Made(start, timeout);
    assert Run(c, []) == c && Run(c, one) == Active(c) && Ordered([], start, start) && LastStamp(one, start) == start;
    assert Run(c, two) == c.(deadline := stamp + timeout) && LastStamp(two, start) == stamp;
    assert Ordered(one, start, start) && Ordered(two, start, start);
    assert Run(c, three) == Run(c, two) && LastStamp(three, start) == stamp;
    assert LastRenewal(one, start) == LastRenewal(two, start) == LastRenewal(three, start) == active;
  }

  // ----- The sweep over all connections -----

  class HttpProtocol {
    var kaDeadline: real
    var kaNeedsReset: bool
    const kaTimeout: real
    var connected: bool
    var closing: bool

    constructor (now: real, timeout: real)
      ensures Abs(false) == Made(now, timeout)
    {
      kaTimeout := timeout;
      connected, closing, kaNeedsReset := true, false, false;
      kaDeadline := now + timeout;
    }

    /** The connection, given whether the sweep under way has listed it. */
    ghost function Abs(listed: bool): Conn
      reads this
    {
      Conn(kaDeadline, kaNeedsReset, kaTimeout, connected, closing, listed)
    }

    method BatchDone(ghost listed: bool)
      modifies this`kaNeedsReset
      ensures Abs(listed) == Active(old(Abs(listed)))
    {
      if connected && !closing {
        kaNeedsReset := true;
      }
    }

    method ConnectionLost(ghost listed: bool)
      modifies this`kaDeadline, this`connected
      ensures Abs(listed) == Lost(old(Abs(listed)))
    {
      kaDeadline, connected := 0.0, false;
    }

    method Reuse(now: real, ghost listed: bool)
      modifies this
      ensures Abs(listed) == Remade(old(Abs(listed)), now)
    {
      connected, closing, kaNeedsReset := true, false, false;
      kaDeadline := now + kaTimeout;
    }
  }

  /** The checks between two pauses, with the time the sweep read at its beginning; returns those to be closed. */
  method CheckAll(stamp: real, connections: seq<HttpProtocol>) returns (expired: seq<HttpProtocol>)
    requires Distinct(connections)
    modifies connections
    ensures forall p <- expired :: p in connections
    ensures forall p <- connections :: p.Abs(p in expired) == Checked(old(p.Abs(false)), stamp)
  {
    expired := [];
    for i := 0 to |connections|
      invariant forall k :: 0 <= k < |expired| ==> expired[k] in connections[..i]
      invariant forall j :: 0 <= j < i ==>
                  connections[j].Abs(connections[j] in expired) == Checked(old(connections[j].Abs(false)), stamp)
      invariant forall j :: i <= j < |connections| ==> connections[j].Abs(false) == old(connections[j].Abs(false))
    {
      var p := connections[i];
      assert forall j :: 0 <= j < i ==> connections[j] != p;
      if p.connected {
        if p.kaNeedsReset {
          p.kaNeedsReset := false;
          p.kaDeadline := stamp + p.kaTimeout;
        } else if p.kaDeadline > 0.0 && stamp > p.kaDeadline {
          expired := expired + [p];
        }
      }
    }
  }

  /** The end of a sweep: what has been listed is closed, whatever happened to it since. */
  method CloseAll(expired: seq<HttpProtocol>)
    modifies expired
    ensures forall p <- expired :: p.Abs(false) == Closed(old(p.Abs(true)))
  {
    for i := 0 to |expired|
      invariant forall p <- expired :: p.Abs(false) == old(p.Abs(false)).(closing := p.closing)
      invariant forall p <- expired ::
                  p.closing == old(p.closing) || (p in expired[..i] && p.closing == old(p.connected || p.closing))
      invariant forall p <- expired[..i] :: p.closing == old(p.connected || p.closing)
    {
      var p := expired[i];
      if p.connected && !p.closing {
        p.closing := true;
      }
    }
  }

  /** A sweep of fewer connections than a pause takes: check and close of each at once. */
  method SweepAll(now: real, connections: seq<HttpProtocol>)
    requires Distinct(connections)
    modifies connections
    ensures forall p <- connections :: p.Abs(false) == Closed(Checked(old(p.Abs(false)), now))
  {
    var expired := CheckAll(now, connections);
    assert forall k :: 0 <= k < |expired| ==> expired[k] in connections;
    CloseAll(expired);
  }
}
