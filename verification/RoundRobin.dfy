/** The master's accept loop: connections are handed to worker slots in round-robin order. */
module RoundRobin {
  import opened Common

  /** One socket per worker; None while the worker has none. */
  type Slots = seq<Option<int>>

  /** At most `left` probes from the running index: the slot found and the index after the last probe. */
  function Probe(slots: Slots, idx: nat, left: nat): (Option<nat>, nat)
    requires |slots| > 0
    decreases left
  {
    if left == 0 then (None, idx)
    else if slots[idx % |slots|].Some? then (Some(idx % |slots|), idx + 1)
    else Probe(slots, idx + 1, left - 1)
  }

  /** One accepted connection; without any slot the index does not move. */
  function Dispatch(slots: Slots, idx: nat): (Option<nat>, nat) {
    if slots == [] then (None, idx) else Probe(slots, idx, |slots|)
  }

  /** The outcome of a run of accepts, each with the slots it reads. */
  datatype Trace = Trace(targets: seq<Option<nat>>, idx: nat)

  function Run(views: seq<Slots>, idx: nat): Trace {
    if views == [] then Trace([], idx)
    else
      var t := Run(views[..|views| - 1], idx);
      var (target, idx') := Dispatch(views[|views| - 1], t.idx);
      Trace(t.targets + [target], idx')
  }

  lemma RunLast(views: seq<Slots>, last: Slots, idx: nat)
    ensures var t := Run(views, idx);
            var (target, idx') := Dispatch(last, t.idx);
            Run(views + [last], idx) == Trace(t.targets + [target], idx')
  {
    assert (views + [last])[..|views|] == views;
  }

  /** The probing loop of one accepted connection. */
  method NextTarget(slots: Slots, start: nat) returns (target: Option<nat>, idx: nat)
    ensures (target, idx) == Dispatch(slots, start)
  {
    target, idx := None, start;
    var n := |slots|;
    if n == 0 {
      return;
    }
    for probes := 0 to n
      invariant target == None
      invariant Probe(slots, idx, n - probes) == Probe(slots, start, n)
    {
      var at := idx % n;
      idx := idx + 1;
      if slots[at].Some? {
        return Some(at), idx;
      }
    }
  }

  /** The accept loop; the i-th connection is accepted while the slots are `views[i]`. */
  method AcceptLoop(views: seq<Slots>) returns (targets: seq<Option<nat>>, idx: nat)
    ensures Trace(targets, idx) == Run(views, 0)
  {
    targets, idx := [], 0;
    for c := 0 to |views|
      invariant Trace(targets, idx) == Run(views[..c], 0)
    {
      assert views[..c + 1][..c] == views[..c];
      var target;
      target, idx := NextTarget(views[c], idx);
      targets := targets + [target];
    }
    assert views[..|views|] == views;
  }

  // ----- One dispatch -----

  /** The slot chosen is the first live one at or after the index, cyclically. */
  lemma {:induction false} ProbeFirstLive(slots: Slots, idx: nat, left: nat)
    requires |slots| > 0
    ensures var (target, idx') := Probe(slots, idx, left);
            && idx <= idx' <= idx + left
            && (target.None? ==> idx' == idx + left && forall i :: idx <= i < idx' ==> slots[i % |slots|].None?)
            && (target.Some? ==> idx < idx' && target.value == (idx' - 1) % |slots| && slots[target.value].Some?
                                 && forall i :: idx <= i < idx' - 1 ==> slots[i % |slots|].None?)
    decreases left
  {
    if left != 0 && slots[idx % |slots|].None? {
      ProbeFirstLive(slots, idx + 1, left - 1);
    }
  }

  /** Every slot has an absolute index within any n consecutive ones. */
  lemma {:induction false} InWindow(n: nat, idx: nat, w: nat) returns (i: nat)
    requires w < n
    ensures idx <= i < idx + n && i % n == w
    decreases idx
  {
    if idx == 0 {
      i := w;
    } else {
      i := InWindow(n, idx - 1, w);
      if i == idx - 1 {
        i := i + n;
        assert (idx - 1 + n) % n == (idx - 1) % n by { ModShift(n, idx - 1); }
      }
    }
  }

  lemma ModShift(n: nat, x: nat)
    requires n > 0
    ensures (x + n) % n == x % n
  {
    assert x + n == n * (x / n + 1) + x % n;
    ModUnique(n, x / n + 1, x % n, x + n);
  }

  lemma ModUnique(n: nat, q: int, r: nat, x: int)
    requires n > 0 && r < n && x == n * q + r
    ensures x % n == r && x / n == q
  {
    var d := x / n - q;
    assert n * d == r - x % n by {
      assert n * d == n * (x / n) - n * q;
    }
    MultipleAway(n, d);
  }

  lemma MultipleAway(n: int, d: int)
    requires n > 0
    ensures (d >= 1 ==> n * d >= n) && (d <= -1 ==> n * d <= -n)
  {
  }

  function SlotOf(n: nat, x: nat): (w: nat)
    requires n > 0
    ensures w < n
  {
    x % n
  }

  lemma ModNext(n: nat, x: nat)
    requires n > 0
    ensures SlotOf(n, x + 1) == if SlotOf(n, x) == n - 1 then 0 else SlotOf(n, x) + 1
  {
    var q, r := x / n, x % n;
    assert x == n * q + r;
    if r == n - 1 {
      assert x + 1 == n * (q + 1) + 0;
      ModUnique(n, q + 1, 0, x + 1);
    } else {
      ModUnique(n, q, r + 1, x + 1);
    }
  }

  /** A dead slot is never chosen, and a target is found exactly when a slot is live. */
  lemma DispatchFindsLive(slots: Slots, idx: nat)
    ensures var target := Dispatch(slots, idx).0;
            && (target.Some? ==> target.value < |slots| && slots[target.value].Some?)
            && (target.Some? <==> exists w :: 0 <= w < |slots| && slots[w].Some?)
  {
    if slots != [] {
      ProbeFirstLive(slots, idx, |slots|);
      if w :| 0 <= w < |slots| && slots[w].Some? {
        var i := InWindow(|slots|, idx, w);
      }
    }
  }

  // ----- Fairness -----

  function Count(targets: seq<Option<nat>>, w: nat): nat {
    if targets == [] then 0
    else Count(targets[..|targets| - 1], w) + if targets[|targets| - 1] == Some(w) then 1 else 0
  }

  /** How many of the first x natural numbers are w modulo n. */
  function Turns(n: nat, w: nat, x: nat): nat
    requires n > 0
  {
    if x == 0 then 0 else Turns(n, w, x - 1) + if SlotOf(n, x - 1) == w then 1 else 0
  }

  /** The earlier slot of two is ahead by one turn exactly while the index stands between them. */
  lemma {:induction false} TurnsApart(n: nat, w: nat, v: nat, x: nat)
    requires w < v < n
    ensures Turns(n, w, x) - Turns(n, v, x) == if w < SlotOf(n, x) <= v then 1 else 0
  {
    if x == 0 {
      assert SlotOf(n, 0) == 0;
    }
    hide SlotOf;
    if x > 0 {
      TurnsApart(n, w, v, x - 1);
      ModNext(n, x - 1);
    }
  }

  /** Between two indices, slots that are all dead take no turn. */
  lemma {:induction false} NoTurns(n: nat, w: nat, x: nat, y: nat)
    requires n > 0 && x <= y && forall i :: x <= i < y ==> i % n != w
    ensures Turns(n, w, y) == Turns(n, w, x)
    decreases y
  {
    if x < y {
      NoTurns(n, w, x, y - 1);
    }
  }

  /** A live slot is chosen exactly when the index passes one of its turns. */
  lemma DispatchTakesTurns(slots: Slots, idx: nat, w: nat)
    requires w < |slots| && slots[w].Some?
    ensures var (target, idx') := Dispatch(slots, idx);
            Turns(|slots|, w, idx') == Turns(|slots|, w, idx) + if target == Some(w) then 1 else 0
  {
    hide Probe;
    var (target, idx') := Dispatch(slots, idx);
    DispatchFindsLive(slots, idx);
    ProbeFirstLive(slots, idx, |slots|);
    NoTurns(|slots|, w, idx, idx' - 1);
  }

  /** Over any run a slot that is live throughout is chosen once for each of its turns. */
  lemma {:induction false} CountIsTurns(views: seq<Slots>, idx: nat, n: nat, w: nat)
    requires w < n && forall s: Slots <- views :: |s| == n && s[w].Some?
    ensures Count(Run(views, idx).targets, w) == Turns(n, w, Run(views, idx).idx) - Turns(n, w, idx)
    decreases |views|
  {
    hide Dispatch, Turns;
    if views != [] {
      var last := |views| - 1;
      CountIsTurns(views[..last], idx, n, w);
      DispatchTakesTurns(views[last], Run(views[..last], idx).idx, w);
      var t := Run(views, idx).targets;
      assert t[..|t| - 1] == Run(views[..last], idx).targets;
    }
  }

  /**
   * Fairness: over any number of accepts from any index, any two slots that are live
   * throughout are chosen equally often up to one, whatever the other slots do meanwhile.
   */
  lemma Fair(views: seq<Slots>, idx: nat, n: nat, w: nat, v: nat)
    requires w < n && v < n
    requires forall s: Slots <- views :: |s| == n && s[w].Some? && s[v].Some?
    ensures var t := Run(views, idx).targets;
            -1 <= Count(t, w) - Count(t, v) <= 1
  {
    hide Run, Count, Turns;
    CountIsTurns(views, idx, n, w);
    CountIsTurns(views, idx, n, v);
    var end := Run(views, idx).idx;
    if w < v {
      TurnsApart(n, w, v, idx);
      TurnsApart(n, w, v, end);
    } else if v < w {
      TurnsApart(n, v, w, idx);
      TurnsApart(n, v, w, end);
    }
  }

  /** In a run that starts from index 0, as the master does, the earlier of two live slots is never behind. */
  lemma EarlierNotBehind(views: seq<Slots>, n: nat, w: nat, v: nat)
    requires w < v < n
    requires forall s: Slots <- views :: |s| == n && s[w].Some? && s[v].Some?
    ensures var t := Run(views, 0).targets;
            0 <= Count(t, w) - Count(t, v) <= 1
  {
    hide Run, Count;
    CountIsTurns(views, 0, n, w);
    CountIsTurns(views, 0, n, v);
    TurnsApart(n, w, v, Run(views, 0).idx);
  }

  /** And in every run only slots live at that accept are chosen, one whenever there is one. */
  lemma {:induction false} RunFindsLive(views: seq<Slots>, idx: nat)
    ensures var t := Run(views, idx).targets;
            && |t| == |views|
            && forall c :: 0 <= c < |views| ==>
                 && (t[c].Some? ==> t[c].value < |views[c]| && views[c][t[c].value].Some?)
                 && (t[c].Some? <==> exists w :: 0 <= w < |views[c]| && views[c][w].Some?)
    decreases |views|
  {
    hide Dispatch;
    if views != [] {
      var last := |views| - 1;
      RunFindsLive(views[..last], idx);
      DispatchFindsLive(views[last], Run(views[..last], idx).idx);
    }
  }
}
