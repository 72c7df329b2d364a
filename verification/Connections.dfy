/** Connection accounting: the protocol pool, the active set with its counter, and the pressure flag. */
module Connections {
  import opened Common

  const POOL_MAX: nat := 2048

  /** Protocol objects are told apart by number; `created` is how many were ever constructed. */
  datatype State = State(pool: seq<nat>, active: set<nat>, count: int, forceClose: bool, created: nat)

  datatype Event = Accept | Disconnect(proto: nat) | Trim

  /** The counter at which connections are cycled: 80 % of a configured limit. */
  function Threshold(limit: int): int {
    if limit > 0 then limit * 4 / 5 else 16384
  }

  /** Only a limit of one has a threshold of zero. */
  lemma ThresholdPositiveIff(limit: int)
    ensures Threshold(limit) > 0 <==> limit != 1
    ensures Threshold(limit) >= 0 && (limit > 0 ==> Threshold(limit) < limit)
  {
  }

  function Acquire(s: State): (State, nat) {
    if s.pool != [] then
      (s.(pool := s.pool[..|s.pool| - 1]), s.pool[|s.pool| - 1])
    else (s.(created := s.created + 1), s.created)
  }

  function Release(pool: seq<nat>, proto: nat): seq<nat> {
    if |pool| < POOL_MAX then pool + [proto] else pool
  }

  function TrimTarget(count: int): nat {
    if count / 2 > 64 then count / 2 else 64
  }

  predicate Refused(s: State, limit: int) {
    limit > 0 && s.count >= limit
  }

  function Accepted(s: State, limit: int): State {
    var count := s.count + 1;
    var (s', proto) := Acquire(s);
    s'.(count := count, active := s.active + {proto},
        forceClose := s.forceClose || (Threshold(limit) > 0 && count > Threshold(limit)))
  }

  function Disconnected(s: State, limit: int, proto: nat): State {
    var count := s.count - 1;
    s.(active := s.active - {proto}, count := count, pool := Release(s.pool, proto),
       forceClose := s.forceClose && count > Threshold(limit))
  }

  function Trimmed(s: State): State {
    var target := TrimTarget(s.count);
    if |s.pool| <= target then s else s.(pool := s.pool[..target])
  }

  /** A connection is lost once, while it is active. */
  predicate Enabled(s: State, e: Event) {
    e.Disconnect? ==> e.proto in s.active
  }

  function Step(s: State, limit: int, e: Event): State {
    match e
    case Accept => if Refused(s, limit) then s else Accepted(s, limit)
    case Disconnect(p) => Disconnected(s, limit, p)
    case Trim => Trimmed(s)
  }

  /** The pool is filled ahead with fresh objects, as far as they fit. */
  function Start(prewarm: nat): State {
    State(seq(if prewarm < POOL_MAX then prewarm else POOL_MAX, i => i), {}, 0, false, prewarm)
  }

  predicate Legal(s: State, limit: int, es: seq<Event>) {
    es != [] ==> Legal(s, limit, es[..|es| - 1]) && Enabled(Run(s, limit, es[..|es| - 1]), es[|es| - 1])
  }

  function Run(s: State, limit: int, es: seq<Event>): State {
    if es == [] then s else Step(Run(s, limit, es[..|es| - 1]), limit, es[|es| - 1])
  }

  // ----- The invariant -----

  /** No object is pooled twice, or pooled while active; all were constructed. */
  predicate Separate(s: State) {
    && Distinct(s.pool)
    && (forall p <- s.pool :: p !in s.active && p < s.created)
    && (forall p <- s.active :: p < s.created)
  }

  predicate Counted(s: State, limit: int) {
    && s.count == |s.active|
    && (limit > 0 ==> s.count <= limit)
    && |s.pool| <= POOL_MAX
  }

  predicate Pressured(s: State, limit: int) {
    s.forceClose <==> Threshold(limit) > 0 && s.count > Threshold(limit)
  }

  predicate Inv(s: State, limit: int) {
    Separate(s) && Counted(s, limit) && Pressured(s, limit)
  }

  lemma AcquireSeparate(s: State)
    requires Separate(s)
    ensures var (s', p) := Acquire(s);
            p !in s.active && Separate(s'.(active := s.active + {p}))
  {
    if s.pool != [] {
      var last := |s.pool| - 1;
      assert s.pool[last] in s.pool;
      assert forall p <- s.pool[..last] :: p in s.pool;
    }
  }

  lemma AcceptKeeps(s: State, limit: int)
    requires Inv(s, limit) && !Refused(s, limit)
    ensures Inv(Accepted(s, limit), limit)
  {
    AcquireSeparate(s);
    hide Threshold;
    var (s', p) := Acquire(s);
    assert Separate(s'.(active := s.active + {p}));
    assert Separate(Accepted(s, limit));
    assert |s.active + {p}| == |s.active| + 1;
  }

  lemma ReleaseSeparate(s: State, p: nat)
    requires Separate(s) && p in s.active
    ensures Separate(s.(active := s.active - {p}, pool := Release(s.pool, p)))
  {
    var pool := Release(s.pool, p);
    assert forall q <- pool :: q in s.pool || q == p;
  }

  lemma DisconnectKeeps(s: State, limit: int, p: nat)
    requires Inv(s, limit) && p in s.active
    ensures Inv(Disconnected(s, limit, p), limit)
  {
    ReleaseSeparate(s, p);
    hide Threshold;
    var s' := Disconnected(s, limit, p);
    assert s'.pool == Release(s.pool, p) && s'.active == s.active - {p};
    assert Separate(s');
    assert |s.active - {p}| == |s.active| - 1;
  }

  lemma TrimKeeps(s: State, limit: int)
    requires Inv(s, limit)
    ensures Inv(Trimmed(s), limit)
    ensures |Trimmed(s).pool| <= TrimTarget(s.count) && Trimmed(s).pool <= s.pool
  {
    var s' := Trimmed(s);
    assert forall p <- s'.pool :: p in s.pool;
  }

  lemma {:induction false} RunKeeps(s: State, limit: int, es: seq<Event>)
    requires Inv(s, limit) && Legal(s, limit, es)
    ensures Inv(Run(s, limit, es), limit)
    decreases |es|
  {
    hide Inv, Accepted, Disconnected, Trimmed, Refused;
    if es != [] {
      var before := Run(s, limit, es[..|es| - 1]);
      RunKeeps(s, limit, es[..|es| - 1]);
      match es[|es| - 1] {
        case Accept =>
          if !Refused(before, limit) {
            AcceptKeeps(before, limit);
          }
        case Disconnect(p) => DisconnectKeeps(before, limit, p);
        case Trim => TrimKeeps(before, limit);
      }
    }
  }

  lemma StartInv(prewarm: nat, limit: int)
    ensures Inv(Start(prewarm), limit)
  {
  }

  /**
   * Over every run of accepts, disconnects and trims: the counter is the number of active
   * connections and respects the limit, and no protocol object is pooled twice or in use while pooled.
   */
  lemma AccountsBalance(prewarm: nat, limit: int, es: seq<Event>)
    requires Legal(Start(prewarm), limit, es)
    ensures var s := Run(Start(prewarm), limit, es);
            && s.count == |s.active| && (limit > 0 ==> s.count <= limit) && |s.pool| <= 2048
            && (forall p <- s.pool :: p !in s.active)
            && Distinct(s.pool)
  {
    StartInv(prewarm, limit);
    RunKeeps(Start(prewarm), limit, es);
  }

  /**
   * Connections are forced to close exactly above the threshold, except that with a limit
   * of one, whose threshold is zero, the active connection is never forced to close.
   */
  lemma PressureExactIff(prewarm: nat, limit: int, es: seq<Event>)
    requires Legal(Start(prewarm), limit, es)
    ensures var s := Run(Start(prewarm), limit, es);
            (s.forceClose <==> s.count > Threshold(limit)) <==> limit != 1 || s.active == {}
  {
    StartInv(prewarm, limit);
    RunKeeps(Start(prewarm), limit, es);
    ThresholdPositiveIff(limit);
  }

  /** With a limit of one the flag is never set, though one connection is above the threshold. */
  lemma LimitOneNeverForced(prewarm: nat)
    ensures var s := Run(Start(prewarm), 1, [Accept]);
            s.count == 1 && s.count > Threshold(1) && !s.forceClose
  {
    var es := [Accept];
    assert es[..|es| - 1] == [];
    assert Run(Start(prewarm), 1, es) == Step(Start(prewarm), 1, Accept);
  }

  function Accepts(s: State, limit: int, es: seq<Event>): nat {
    if es == [] then 0
    else
      Accepts(s, limit, es[..|es| - 1]) +
      if es[|es| - 1].Accept? && !Refused(Run(s, limit, es[..|es| - 1]), limit) then 1 else 0
  }

  function Losses(es: seq<Event>): nat {
    if es == [] then 0 else Losses(es[..|es| - 1]) + if es[|es| - 1].Disconnect? then 1 else 0
  }

  /** Conservation: the active connections are those accepted and not yet lost. */
  lemma {:induction false} ActiveIsAcceptedMinusLost(prewarm: nat, limit: int, es: seq<Event>)
    requires Legal(Start(prewarm), limit, es)
    ensures |Run(Start(prewarm), limit, es).active| == Accepts(Start(prewarm), limit, es) - Losses(es)
    decreases |es|
  {
    var s := Start(prewarm);
    AccountsBalance(prewarm, limit, es);
    if es != [] {
      var rest := es[..|es| - 1];
      AccountsBalance(prewarm, limit, rest);
      ActiveIsAcceptedMinusLost(prewarm, limit, rest);
      hide Start, Threshold, Legal;
    }
  }

  // ----- The constants and the reuse of protocol objects -----

  /**
   * Over every run: connections are forced to close exactly when more than 80 % of the
   * limit are active, with a limit of one never, and without a limit above 16384.
   */
  lemma ForcedAboveEightyPercent(prewarm: nat, limit: int, es: seq<Event>)
    requires Legal(Start(prewarm), limit, es)
    ensures var s := Run(Start(prewarm), limit, es);
            s.forceClose <==> if limit > 0 then limit > 1 && 5 * |s.active| > 4 * limit else |s.active| > 16384
  {
    hide Start, Legal, Run;
    StartInv(prewarm, limit);
    RunKeeps(Start(prewarm), limit, es);
  }

  /** Over every run: a connection is turned away, with no other effect, exactly when the limit is reached. */
  lemma RefusedIffFull(prewarm: nat, limit: int, es: seq<Event>)
    requires Legal(Start(prewarm), limit, es)
    ensures var s := Run(Start(prewarm), limit, es);
            var s' := Step(s, limit, Accept);
            && (s' == s <==> limit > 0 && |s.active| == limit)
            && (s' != s ==> |s'.active| == |s.active| + 1 && s.active < s'.active)
  {
    hide Start, Legal, Run, Threshold;
    StartInv(prewarm, limit);
    RunKeeps(Start(prewarm), limit, es);
    var s := Run(Start(prewarm), limit, es);
    if !Refused(s, limit) {
      AcceptKeeps(s, limit);
    }
  }

  /** A trim keeps the oldest objects of the pool: half as many as there are connections, but at least 64. */
  lemma TrimKeepsOldest(s: State)
    requires s.count >= 0
    ensures var n := |Trimmed(s).pool|;
            && Trimmed(s) == s.(pool := s.pool[..n])
            && (n == |s.pool| || n == 64 || n == s.count / 2)
            && (n < |s.pool| ==> n >= 64 && n >= s.count / 2)
            && (n <= 64 || n <= s.count / 2)
  {
    assert s.pool[..|s.pool|] == s.pool;
  }

  /** The object released last is the one handed out next: a lost connection and a new one leave no trace. */
  lemma LastReleasedIsNext(s: State, limit: int, p: nat)
    requires Inv(s, limit) && p in s.active && |s.pool| < 2048
    ensures var s' := Step(Step(s, limit, Disconnect(p)), limit, Accept);
            s'.pool == s.pool && s'.active == s.active && s'.created == s.created
  {
    assert (s.pool + [p])[..|s.pool|] == s.pool;
    assert s.active - {p} + {p} == s.active;
    assert |s.active - {p}| == |s.active| - 1;
    hide Threshold;
  }

  /** The most connections that were active at one time. */
  function Peak(s: State, limit: int, es: seq<Event>): nat {
    var now := |Run(s, limit, es).active|;
    if es == [] then now
    else
      var before := Peak(s, limit, es[..|es| - 1]);
      if now > before then now else before
  }

  lemma ReuseStep(s: State, limit: int, e: Event)
    requires Inv(s, limit) && Enabled(s, e) && !e.Trim? && |s.pool| + |s.active| == s.created <= 2048
    ensures var s' := Step(s, limit, e);
            && |s'.pool| + |s'.active| == s'.created
            && s'.created == if |s'.active| > s.created then |s'.active| else s.created
  {
    hide Threshold;
    match e
    case Accept =>
      if !Refused(s, limit) {
        AcquireSeparate(s);
        assert |s.active + {Acquire(s).1}| == |s.active| + 1;
      }
    case Disconnect(p) => assert |s.active - {p}| == |s.active| - 1;
  }

  /**
   * Objects are reused, not constructed again: as long as nothing is trimmed and the pool
   * has room, as many exist as were pre-warmed or were ever in use at one time, and those
   * not in use are in the pool.
   */
  lemma {:induction false} CreatedIsPeak(prewarm: nat, limit: int, es: seq<Event>)
    requires Legal(Start(prewarm), limit, es) && (forall e <- es :: !e.Trim?)
    requires prewarm <= 2048 && Peak(Start(prewarm), limit, es) <= 2048
    ensures var s, peak := Run(Start(prewarm), limit, es), Peak(Start(prewarm), limit, es);
            && s.created == (if peak > prewarm then peak else prewarm)
            && |s.pool| == s.created - |s.active|
  {
    if es != [] {
      var rest, e := es[..|es| - 1], es[|es| - 1];
      assert e in es;
      CreatedIsPeak(prewarm, limit, rest);
      StartInv(prewarm, limit);
      RunKeeps(Start(prewarm), limit, rest);
      hide Start, Step, Legal, Inv;
      ReuseStep(Run(Start(prewarm), limit, rest), limit, e);
    }
  }

  // ----- The class -----

  /** The pool, the active set and the counter that the factory and the connections share. */
  class ConnectionTable {
    var pool: seq<nat>
    var active: set<nat>
    var activeCount: int
    var forceClose: bool
    var created: nat
    const limit: int
    const threshold: int

    ghost function Abs(): State
      reads this
    {
      State(pool, active, activeCount, forceClose, created)
    }

    ghost predicate Valid()
      reads this
    {
      Inv(Abs(), limit) && threshold == Threshold(limit)
    }

    constructor (limit: int, prewarm: nat)
      ensures Valid() && this.limit == limit && Abs() == Start(prewarm)
    {
      this.limit, threshold := limit, Threshold(limit);
      pool, active, activeCount, forceClose, created := [], {}, 0, false, 0;
      new;
      for i := 0 to prewarm
        invariant Abs() == Start(i)
        invariant this.limit == limit && threshold == Threshold(limit)
      {
        pool := Release(pool, created);
        created := created + 1;
      }
      StartInv(prewarm, limit);
    }

    /** The last pooled object, or a new one. */
    method AcquireProtocol(ghost s: State) returns (proto: nat)
      requires s.pool == pool && s.created == created
      modifies this`pool, this`created
      ensures Acquire(s) == (s.(pool := pool, created := created), proto)
    {
      if pool != [] {
        proto := pool[|pool| - 1];
        pool := pool[..|pool| - 1];
      } else {
        proto := created;
        created := created + 1;
      }
    }

    /** None is the protocol that answers 503. */
    method ProtocolFactory() returns (proto: Option<nat>)
      requires Valid()
      modifies this
      ensures Valid() && Abs() == Step(old(Abs()), limit, Accept)
      ensures proto.None? <==> limit > 0 && old(|active|) >= limit
      ensures proto.Some? ==> proto.value !in old(active) && active == old(active) + {proto.value}
    {
      if limit > 0 && activeCount >= limit {
        return None;
      }
      AcceptKeeps(Abs(), limit);
      AcquireSeparate(Abs());
      hide Separate, Threshold, Acquire;
      activeCount := activeCount + 1;
      if threshold > 0 && activeCount > threshold && !forceClose {
        forceClose := true;
      }
      ghost var before := old(Abs());
      var p := AcquireProtocol(before);
      active := active + {p};
      return Some(p);
    }

    method ConnectionLost(proto: nat)
      requires Valid() && proto in active
      modifies this
      ensures Valid() && Abs() == Step(old(Abs()), limit, Disconnect(proto))
    {
      DisconnectKeeps(Abs(), limit, proto);
      hide Separate;
      active := active - {proto};
      activeCount := activeCount - 1;
      if activeCount <= threshold && forceClose {
        forceClose := false;
      }
      pool := Release(pool, proto);
    }

    method PoolTrim() returns (freed: nat)
      requires Valid()
      modifies this`pool
      ensures Valid() && Abs() == Step(old(Abs()), limit, Trim)
      ensures freed == old(|pool|) - |pool|
    {
      TrimKeeps(Abs(), limit);
      hide Separate;
      var target, current := TrimTarget(activeCount), |pool|;
      if current <= target {
        return 0;
      }
      pool := pool[..target];
      return current - target;
    }
  }
}
