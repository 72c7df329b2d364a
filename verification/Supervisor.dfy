/** The fork supervisor in master-accept mode: worker restarts with back-off beside the accept thread. */
module Supervisor {
  import opened Common
  import RR = RoundRobin

  // ----- Back-off -----

  function Pow2(k: nat): (r: nat)
    ensures r >= 1
  {
    if k == 0 then 1 else 2 * Pow2(k - 1)
  }

  /** 2^1024 is the first power of two that no double can hold; multiplying it by a float raises. */
  const MAX_EXPONENT: nat := 1023
  const MAX_STREAK: nat := 1028

  /** Seconds slept before a restart; None is the `OverflowError` of the multiplication. */
  function Delay(streak: nat): Option<real> {
    if streak < 5 then Some(0.0)
    else if streak - 5 > MAX_EXPONENT then None
    else
      var d := 0.1 * Pow2(streak - 5) as real;
      Some(if d < 2.0 then d else 2.0)
  }

  lemma {:induction false} Pow2Monotone(a: nat, b: nat)
    requires a <= b
    ensures Pow2(a) <= Pow2(b)
    decreases b
  {
    if a < b {
      Pow2Monotone(a, b - 1);
    }
  }

  lemma Pow2Small()
    ensures Pow2(0) == 1 && Pow2(1) == 2 && Pow2(2) == 4 && Pow2(3) == 8 && Pow2(4) == 16 && Pow2(5) == 32
  {
    assert Pow2(1) == 2 && Pow2(2) == 4 && Pow2(3) == 8;
  }

  /** Every delay: none, five doublings from a tenth of a second, then two seconds until the overflow. */
  lemma DelayTable(streak: nat)
    ensures Delay(streak) ==
            if streak < 5 then Some(0.0)
            else if streak == 5 then Some(0.1)
            else if streak == 6 then Some(0.2)
            else if streak == 7 then Some(0.4)
            else if streak == 8 then Some(0.8)
            else if streak == 9 then Some(1.6)
            else if streak <= MAX_STREAK then Some(2.0)
            else None
  {
    Pow2Small();
    if streak >= 10 {
      Pow2Monotone(5, streak - 5);
    }
  }

  /** The delay grows with the streak and never exceeds two seconds; it exists up to a streak of 1028. */
  lemma DelayMonotone(a: nat, b: nat)
    requires a <= b
    ensures Delay(b).Some? <==> b <= MAX_STREAK
    ensures Delay(b).Some? ==> Delay(a).Some? && 0.0 <= Delay(a).value <= Delay(b).value <= 2.0
  {
    hide Delay;
    DelayTable(a);
    DelayTable(b);
  }

  /** The sleep of the first n restarts of a crash loop. */
  function Total(n: nat): real
    requires n <= MAX_STREAK
  {
    if n == 0 then 0.0 else Total(n - 1) + (match Delay(n) case Some(d) => d case None => 0.0)
  }

  lemma {:induction false} TotalClosedForm(n: nat)
    requires n <= MAX_STREAK
    ensures Total(n) ==
            if n < 5 then 0.0 else if n < 9 then 0.1 * (Pow2(n - 4) as real - 1.0) else 3.1 + 2.0 * (n - 9) as real
  {
    hide Delay;
    Pow2Small();
    DelayTable(n);
    if n > 0 {
      TotalClosedForm(n - 1);
    }
  }

  // ----- The machine -----

  /** Where the loop of the supervisor stands. */
  datatype Phase = Idle | Backoff(worker: nat) | Reforking(worker: nat) | Crashed(worker: nat)

  datatype State = State(
    children: map<int, nat>, streak: map<nat, nat>, started: map<nat, real>,
    slots: RR.Slots, phase: Phase, idx: nat)

  datatype Event =
    | Exit(pid: int, now: real)
    | CloseSlot
    | Fork(pid: int, sock: int, now: real)
    | Accept

  /** The kernel gives a new child a process id that no unreaped child has. */
  predicate Enabled(s: State, e: Event) {
    match e
    case Exit(_, _) => s.phase.Idle?
    case CloseSlot => s.phase.Backoff? && s.phase.worker < |s.slots|
    case Fork(pid, _, _) => s.phase.Reforking? && s.phase.worker < |s.slots| && pid !in s.children
    case Accept => !s.phase.Crashed?
  }

  function StreakAfter(s: State, w: nat, now: real): nat {
    var started := if w in s.started then s.started[w] else now;
    if now - started >= 10.0 then 0 else (if w in s.streak then s.streak[w] else 0) + 1
  }

  function Step(s: State, e: Event): (s': State)
    requires Enabled(s, e)
    ensures Booked(s) ==> Booked(s')
  {
    match e
    case Exit(pid, now) =>
      if pid !in s.children then s
      else
        var w := s.children[pid];
        var streak := StreakAfter(s, w, now);
        s.(children := s.children - {pid}, streak := s.streak[w := streak],
           phase := if Delay(streak).Some? then Backoff(w) else Crashed(w))
    case CloseSlot => s.(slots := s.slots[s.phase.worker := None], phase := Reforking(s.phase.worker))
    case Fork(pid, sock, now) =>
      var w := s.phase.worker;
      s.(children := s.children[pid := w], started := s.started[w := now],
         slots := s.slots[w := Some(sock)], phase := Idle)
    case Accept => s.(idx := RR.Dispatch(s.slots, s.idx).1)
  }

  /** Every child's worker has a recorded start. */
  predicate Booked(s: State) {
    forall p <- s.children :: s.children[p] in s.started
  }

  /** The workers as first forked: process id, socket and start time of each worker in turn. */
  function Start(forks: seq<(int, int, real)>): (s: State)
    ensures Booked(s)
  {
    if forks == [] then State(map[], map[], map[], [], Idle, 0)
    else
      var w := |forks| - 1;
      var (pid, sock, now) := forks[w];
      var s := Start(forks[..w]);
      s.(children := s.children[pid := w], streak := s.streak[w := 0],
         started := s.started[w := now], slots := s.slots + [Some(sock)])
  }

  predicate Legal(s: State, es: seq<Event>)
    decreases |es|, 0
  {
    es != [] ==> Legal(s, es[..|es| - 1]) && Enabled(Run(s, es[..|es| - 1]), es[|es| - 1])
  }

  function Run(s: State, es: seq<Event>): (s': State)
    requires Legal(s, es)
    ensures Booked(s) ==> Booked(s')
    decreases |es|, 1
  {
    if es == [] then s else Step(Run(s, es[..|es| - 1]), es[|es| - 1])
  }

  // ----- The invariant -----

  function Away(p: Phase): Option<nat> {
    if p.Idle? then None else Some(p.worker)
  }

  /**
   * Each worker below n has exactly one process, except the one being restarted, which
   * has none; and the empty slots are exactly that of a worker being forked anew.
   */
  predicate Inv(s: State, n: nat) {
    && (forall p <- s.children :: s.children[p] < n && Some(s.children[p]) != Away(s.phase))
    && (forall p, q :: p in s.children && q in s.children && s.children[p] == s.children[q] ==> p == q)
    && (forall w :: 0 <= w < n && Some(w) != Away(s.phase) ==> HasProcess(s, w))
    && |s.slots| == n
    && (forall w :: 0 <= w < n ==> (s.slots[w].None? <==> s.phase == Reforking(w)))
    && (forall w :: 0 <= w < n ==> w in s.streak && w in s.started)
    && (!s.phase.Idle? ==> s.phase.worker < n)
  }

  predicate HasProcess(s: State, w: nat) {
    exists p :: p in s.children && s.children[p] == w
  }

  predicate DistinctPids(forks: seq<(int, int, real)>) {
    forall i, j :: 0 <= i < j < |forks| ==> forks[i].0 != forks[j].0
  }

  lemma {:induction false} StartChildren(forks: seq<(int, int, real)>)
    requires DistinctPids(forks)
    ensures var m := Start(forks).children;
            && (forall i :: 0 <= i < |forks| ==> forks[i].0 in m && m[forks[i].0] == i)
            && (forall p <- m :: m[p] < |forks| && forks[m[p]].0 == p)
    decreases |forks|
  {
    if forks != [] {
      StartChildren(forks[..|forks| - 1]);
    }
  }

  lemma {:induction false} StartIdle(forks: seq<(int, int, real)>)
    ensures Start(forks).phase == Idle && Start(forks).idx == 0 && |Start(forks).slots| == |forks|
    decreases |forks|
  {
    if forks != [] {
      StartIdle(forks[..|forks| - 1]);
    }
  }

  lemma {:induction false} StartTable(forks: seq<(int, int, real)>, w: nat)
    requires w < |forks|
    ensures |Start(forks).slots| == |forks| && Start(forks).slots[w] == Some(forks[w].1)
    ensures w in Start(forks).streak && Start(forks).streak[w] == 0
    ensures w in Start(forks).started && Start(forks).started[w] == forks[w].2
    decreases |forks|
  {
    StartIdle(forks);
    var last := |forks| - 1;
    StartIdle(forks[..last]);
    if w < last {
      StartTable(forks[..last], w);
    }
  }

  lemma StartTables(forks: seq<(int, int, real)>)
    ensures var s := Start(forks);
            && s.phase == Idle && s.idx == 0 && |s.slots| == |forks|
            && forall w :: 0 <= w < |forks| ==>
                 && w in s.streak && s.streak[w] == 0
                 && w in s.started && s.started[w] == forks[w].2
                 && s.slots[w] == Some(forks[w].1)
  {
    hide Start;
    StartIdle(forks);
    forall w | 0 <= w < |forks|
      ensures w in Start(forks).streak && Start(forks).streak[w] == 0
      ensures w in Start(forks).started && Start(forks).started[w] == forks[w].2
      ensures |Start(forks).slots| == |forks| && Start(forks).slots[w] == Some(forks[w].1)
    {
      StartTable(forks, w);
    }
  }

  lemma StartInv(forks: seq<(int, int, real)>)
    requires DistinctPids(forks)
    ensures Inv(Start(forks), |forks|)
  {
    StartChildren(forks);
    StartTables(forks);
    hide Start;
    var s := Start(forks);
    forall w | 0 <= w < |forks| ensures HasProcess(s, w) {
      assert s.children[forks[w].0] == w;
    }
  }

  lemma ExitKeeps(s: State, pid: int, now: real, n: nat)
    requires Inv(s, n) && s.phase.Idle?
    ensures Inv(Step(s, Exit(pid, now)), n)
  {
    if pid in s.children {
      var s' := Step(s, Exit(pid, now));
      forall w | 0 <= w < n && w != s.children[pid] ensures HasProcess(s', w) {
        assert HasProcess(s, w);
        var p :| p in s.children && s.children[p] == w;
        assert p in s'.children && s'.children[p] == w;
      }
    }
  }

  lemma ForkKeeps(s: State, pid: int, sock: int, now: real, n: nat)
    requires Inv(s, n) && Enabled(s, Fork(pid, sock, now))
    ensures Inv(Step(s, Fork(pid, sock, now)), n)
  {
    var s' := Step(s, Fork(pid, sock, now));
    forall w | 0 <= w < n ensures HasProcess(s', w) {
      if w == s.phase.worker {
        assert s'.children[pid] == w;
      } else {
        assert HasProcess(s, w);
        var p :| p in s.children && s.children[p] == w;
        assert p in s'.children && s'.children[p] == w;
      }
    }
  }

  lemma StepKeeps(s: State, e: Event, n: nat)
    requires Inv(s, n) && Enabled(s, e)
    ensures Inv(Step(s, e), n)
  {
    match e {
      case Exit(pid, now) => ExitKeeps(s, pid, now, n);
      case Fork(pid, sock, now) => ForkKeeps(s, pid, sock, now, n);
      case CloseSlot =>
        assert forall w :: HasProcess(s, w) ==> HasProcess(Step(s, CloseSlot), w);
      case Accept =>
        assert forall w :: HasProcess(s, w) ==> HasProcess(Step(s, Accept), w);
    }
  }

  lemma {:induction false} RunKeeps(s: State, es: seq<Event>, n: nat)
    requires Inv(s, n) && Legal(s, es)
    ensures Inv(Run(s, es), n)
    decreases |es|
  {
    hide Inv, Step, Enabled;
    if es != [] {
      RunKeeps(s, es[..|es| - 1], n);
      StepKeeps(Run(s, es[..|es| - 1]), es[|es| - 1], n);
    }
  }

  /**
   * In every reachable state the process map is one-to-one into the worker ids, and between
   * two iterations of the loop it is onto all of them and no slot is empty.
   */
  lemma PidMapIsBijection(forks: seq<(int, int, real)>, es: seq<Event>)
    requires DistinctPids(forks) && Legal(Start(forks), es)
    ensures var s := Run(Start(forks), es);
            && (forall p <- s.children :: s.children[p] < |forks|)
            && (forall p, q :: p in s.children && q in s.children && s.children[p] == s.children[q] ==> p == q)
            && (s.phase.Idle? ==> |s.slots| == |forks| && forall w :: 0 <= w < |forks| ==>
                                    HasProcess(s, w) && s.slots[w].Some?)
  {
    hide Run, Start, Legal;
    StartInv(forks);
    RunKeeps(Start(forks), es, |forks|);
  }

  /** Process id, socket and time of the last fork of a worker, from the start on. */
  function LastFork(forks: seq<(int, int, real)>, es: seq<Event>, w: nat): (int, int, real)
    requires Legal(Start(forks), es) && w < |forks|
    decreases |es|
  {
    if es == [] then forks[w]
    else
      var rest, e := es[..|es| - 1], es[|es| - 1];
      if e.Fork? && Run(Start(forks), rest).phase == Reforking(w) then (e.pid, e.sock, e.now)
      else LastFork(forks, rest, w)
  }

  /** What the tables hold about a worker is the record `fork`. */
  predicate Holds(s: State, w: nat, fork: (int, int, real)) {
    && w < |s.slots| && (s.slots[w].Some? ==> s.slots[w].value == fork.1)
    && w in s.started && s.started[w] == fork.2
    && forall p <- s.children :: s.children[p] == w ==> p == fork.0
  }

  lemma HoldsStep(s: State, e: Event, n: nat, w: nat, fork: (int, int, real))
    requires Inv(s, n) && Enabled(s, e) && Holds(s, w, fork)
    ensures Holds(Step(s, e), w, if e.Fork? && s.phase == Reforking(w) then (e.pid, e.sock, e.now) else fork)
  {
    hide HasProcess;
    match e
    case Exit(_, _) => hide StreakAfter, Delay;
    case _ =>
  }

  /**
   * In every reachable state the slot of a worker is empty or holds the socket of its last
   * fork, its start time is that of its last fork, and no process but that one goes by its id.
   */
  lemma {:induction false} TablesHoldLastFork(forks: seq<(int, int, real)>, es: seq<Event>, w: nat)
    requires DistinctPids(forks) && Legal(Start(forks), es) && w < |forks|
    ensures var s, (pid, sock, now) := Run(Start(forks), es), LastFork(forks, es, w);
            && |s.slots| == |forks|
            && (s.slots[w] == None || s.slots[w] == Some(sock))
            && w in s.started && s.started[w] == now
            && (forall p <- s.children :: s.children[p] == w ==> p == pid)
    decreases |es|
  {
    StartInv(forks);
    RunKeeps(Start(forks), es, |forks|);
    if es == [] {
      StartTable(forks, w);
      StartChildren(forks);
    } else {
      var rest, e := es[..|es| - 1], es[|es| - 1];
      TablesHoldLastFork(forks, rest, w);
      RunKeeps(Start(forks), rest, |forks|);
      hide Start, Step, Enabled, HasProcess;
      HoldsStep(Run(Start(forks), rest), e, |forks|, w, LastFork(forks, rest, w));
    }
  }

  // ----- Streaks and lifetimes -----

  /** When the process was forked: the last fork of that id, or the start of its worker. */
  function BornAt(s: State, es: seq<Event>, pid: int): real
    requires pid in s.children ==> s.children[pid] in s.started
    decreases |es|
  {
    if es == [] then (if pid in s.children then s.started[s.children[pid]] else 0.0)
    else
      var e := es[|es| - 1];
      if e.Fork? && e.pid == pid then e.now else BornAt(s, es[..|es| - 1], pid)
  }

  /** Is the last event the end of a process of the worker? */
  predicate Ends(s: State, es: seq<Event>, w: nat)
    requires Legal(s, es)
  {
    es != [] && es[|es| - 1].Exit? &&
    var before := Run(s, es[..|es| - 1]);
    es[|es| - 1].pid in before.children && before.children[es[|es| - 1].pid] == w
  }

  /** The lifetimes of the processes of a worker that have ended, in order. */
  function Lives(s: State, es: seq<Event>, w: nat): seq<real>
    requires Booked(s) && Legal(s, es)
    decreases |es|
  {
    if es == [] then []
    else
      var rest, e := es[..|es| - 1], es[|es| - 1];
      Lives(s, rest, w) + if Ends(s, es, w) then [e.now - BornAt(s, rest, e.pid)] else []
  }

  /** How many of the last lifetimes, in a row, were below ten seconds. */
  function TrailingShort(lives: seq<real>, before: nat): nat {
    if lives == [] then before
    else if lives[|lives| - 1] >= 10.0 then 0
    else TrailingShort(lives[..|lives| - 1], before) + 1
  }

  /** The recorded start of a worker is the birth of its present process. */
  lemma {:induction false} StartedIsBirth(s: State, es: seq<Event>, n: nat, p: int)
    requires Inv(s, n) && Legal(s, es) && p in Run(s, es).children
    ensures Run(s, es).children[p] in Run(s, es).started
    ensures Run(s, es).started[Run(s, es).children[p]] == BornAt(s, es, p)
    decreases |es|
  {
    if es != [] {
      var rest, e := es[..|es| - 1], es[|es| - 1];
      RunKeeps(s, rest, n);
      hide HasProcess;
      if !(e.Fork? && e.pid == p) {
        StartedIsBirth(s, rest, n, p);
      }
    }
  }

  /** The streak of a worker counts its last consecutive lifetimes under ten seconds. */
  lemma {:induction false} StreakIsTrailingShort(s: State, es: seq<Event>, n: nat, w: nat)
    requires Inv(s, n) && Legal(s, es) && w < n
    ensures w in Run(s, es).streak
    ensures Run(s, es).streak[w] == TrailingShort(Lives(s, es, w), s.streak[w])
    decreases |es|
  {
    if es != [] {
      var rest, e := es[..|es| - 1], es[|es| - 1];
      RunKeeps(s, rest, n);
      StreakIsTrailingShort(s, rest, n, w);
      if Ends(s, es, w) {
        StartedIsBirth(s, rest, n, e.pid);
        assert Lives(s, es, w)[..|Lives(s, es, w)| - 1] == Lives(s, rest, w);
      } else {
        assert Lives(s, es, w) == Lives(s, rest, w);
      }
    }
  }

  // ----- The cost of a crash loop -----

  /** The seconds slept on behalf of a worker. */
  function SleepFor(s: State, es: seq<Event>, w: nat): real
    requires Legal(s, es)
    decreases |es|
  {
    if es == [] then 0.0
    else
      SleepFor(s, es[..|es| - 1], w) +
      if Ends(s, es, w) && w in Run(s, es).streak && Delay(Run(s, es).streak[w]).Some?
      then Delay(Run(s, es).streak[w]).value else 0.0
  }

  predicate AllShort(lives: seq<real>) {
    forall i :: 0 <= i < |lives| ==> lives[i] < 10.0
  }

  lemma {:induction false} AllShortCount(lives: seq<real>, before: nat)
    requires AllShort(lives)
    ensures TrailingShort(lives, before) == before + |lives|
    decreases |lives|
  {
    if lives != [] {
      AllShortCount(lives[..|lives| - 1], before);
    }
  }

  /** The loop has died of an overflow exactly when some streak is beyond 1028. */
  predicate CrashedByStreak(s: State, n: nat) {
    forall w :: 0 <= w < n && w in s.streak ==> (s.streak[w] > MAX_STREAK <==> s.phase == Crashed(w))
  }

  lemma {:induction false} RunCrashes(s: State, es: seq<Event>, n: nat)
    requires Inv(s, n) && CrashedByStreak(s, n) && Legal(s, es)
    ensures CrashedByStreak(Run(s, es), n)
    decreases |es|
  {
    if es != [] {
      var rest, e := es[..|es| - 1], es[|es| - 1];
      RunCrashes(s, rest, n);
      RunKeeps(s, rest, n);
      hide HasProcess, Delay;
      if e.Exit? && e.pid in Run(s, rest).children {
        var streak := StreakAfter(Run(s, rest), Run(s, rest).children[e.pid], e.now);
        DelayMonotone(streak, streak);
      }
    }
  }

  lemma LivesGrow(s: State, es: seq<Event>, w: nat)
    requires Booked(s) && Legal(s, es) && es != []
    ensures var all, rest := Lives(s, es, w), Lives(s, es[..|es| - 1], w);
            && |all| == |rest| + (if Ends(s, es, w) then 1 else 0)
            && (AllShort(all) ==> AllShort(rest))
  {
    var all, rest := Lives(s, es, w), Lives(s, es[..|es| - 1], w);
    hide Ends, Run, Legal, BornAt;
    assert rest <= all;
    assert forall i :: 0 <= i < |rest| ==> rest[i] == all[i];
  }

  /** A crash loop of k short lives from a fresh start costs the k first delays. */
  lemma {:induction false} CrashLoopSleep(s: State, es: seq<Event>, n: nat, w: nat)
    requires Inv(s, n) && Legal(s, es) && w < n && s.streak[w] == 0
    requires AllShort(Lives(s, es, w)) && |Lives(s, es, w)| <= MAX_STREAK
    ensures SleepFor(s, es, w) == Total(|Lives(s, es, w)|)
    decreases |es|
  {
    if es != [] {
      LivesGrow(s, es, w);
      CrashLoopSleep(s, es[..|es| - 1], n, w);
      StreakIsTrailingShort(s, es, n, w);
      AllShortCount(Lives(s, es, w), 0);
      var k := |Lives(s, es, w)|;
      DelayMonotone(k, k);
      hide Lives, Run, Legal, Ends, Delay, Inv, AllShort, TrailingShort;
    }
  }

  /** The sleep for k consecutive short lives, as long as the supervisor survives them. */
  function CrashLoopSeconds(k: nat): real {
    if k < 5 then 0.0 else if k < 9 then 0.1 * (Pow2(k - 4) as real - 1.0) else 3.1 + 2.0 * (k - 9) as real
  }

  /** A crash loop from any state in which the worker has no streak. */
  lemma CrashLoopFrom(s: State, es: seq<Event>, n: nat, w: nat)
    requires Inv(s, n) && CrashedByStreak(s, n) && Booked(s) && w < n && s.streak[w] == 0
    requires Legal(s, es) && AllShort(Lives(s, es, w))
    ensures var k := |Lives(s, es, w)|;
            && k <= MAX_STREAK + 1
            && (Run(s, es).phase == Crashed(w) <==> k == MAX_STREAK + 1)
            && (k <= MAX_STREAK ==> SleepFor(s, es, w) == CrashLoopSeconds(k))
  {
    var k := |Lives(s, es, w)|;
    RunCrashes(s, es, n);
    StreakIsTrailingShort(s, es, n, w);
    AllShortCount(Lives(s, es, w), 0);
    assert Run(s, es).streak[w] == k;
    StreakAtMost(s, es, n, w);
    if k <= MAX_STREAK {
      CrashLoopSleep(s, es, n, w);
      TotalClosedForm(k);
    }
  }

  /** No life of the worker has ended yet, or the last one that did was long. */
  predicate LastWasLong(lives: seq<real>) {
    lives == [] || lives[|lives| - 1] >= 10.0
  }

  /**
   * The cost of a crash loop, at any time and whatever the other workers do meanwhile: a
   * block of k short lives of one worker after a long one costs nothing up to four, 0.1, 0.3,
   * 0.7 and 1.5 seconds up to eight, 3.1 + 2(k - 9) seconds from nine on, and the 1029th
   * short life ends the supervisor.
   */
  lemma CrashLoopCost(forks: seq<(int, int, real)>, before: seq<Event>, es: seq<Event>, w: nat)
    requires DistinctPids(forks) && w < |forks| && Legal(Start(forks), before)
    requires LastWasLong(Lives(Start(forks), before, w))
    requires Legal(Run(Start(forks), before), es) && AllShort(Lives(Run(Start(forks), before), es, w))
    ensures var s, k := Run(Start(forks), before), |Lives(Run(Start(forks), before), es, w)|;
            && k <= MAX_STREAK + 1
            && (Run(s, es).phase == Crashed(w) <==> k == MAX_STREAK + 1)
            && (k < 5 ==> SleepFor(s, es, w) == 0.0)
            && (5 <= k < 9 ==> SleepFor(s, es, w) == 0.1 * (Pow2(k - 4) as real - 1.0))
            && (9 <= k <= MAX_STREAK ==> SleepFor(s, es, w) == 3.1 + 2.0 * (k - 9) as real)
  {
    var s0, n := Start(forks), |forks|;
    StartInv(forks);
    StartTables(forks);
    RunCrashes(s0, before, n);
    RunKeeps(s0, before, n);
    StreakIsTrailingShort(s0, before, n, w);
    hide Start, Inv, CrashedByStreak, Lives, SleepFor, Legal, Run, AllShort;
    CrashLoopFrom(Run(s0, before), es, n, w);
  }

  /** No streak gets beyond the one that ends the supervisor. */
  lemma {:induction false} StreakAtMost(s: State, es: seq<Event>, n: nat, w: nat)
    requires Inv(s, n) && CrashedByStreak(s, n) && Legal(s, es) && w < n && s.streak[w] <= MAX_STREAK
    ensures w in Run(s, es).streak && Run(s, es).streak[w] <= MAX_STREAK + 1
    decreases |es|
  {
    if es != [] {
      var rest := es[..|es| - 1];
      StreakAtMost(s, rest, n, w);
      RunCrashes(s, rest, n);
      RunKeeps(s, rest, n);
      hide HasProcess, Delay;
    }
  }

  // ----- Accepts beside restarts -----

  /** The slots each accept reads, and the target it gets. */
  function Views(s: State, es: seq<Event>): seq<RR.Slots>
    requires Legal(s, es)
    decreases |es|
  {
    if es == [] then []
    else
      Views(s, es[..|es| - 1]) + if es[|es| - 1].Accept? then [Run(s, es[..|es| - 1]).slots] else []
  }

  function Targets(s: State, es: seq<Event>): seq<Option<nat>>
    requires Legal(s, es)
    decreases |es|
  {
    if es == [] then []
    else
      var before := Run(s, es[..|es| - 1]);
      Targets(s, es[..|es| - 1]) + if es[|es| - 1].Accept? then [RR.Dispatch(before.slots, before.idx).0] else []
  }

  lemma IndexAfter(s: State, e: Event)
    requires Enabled(s, e)
    ensures Step(s, e).idx == if e.Accept? then RR.Dispatch(s.slots, s.idx).1 else s.idx
  {
  }

  /** The accept thread is unaffected by the supervisor but for the slots it reads. */
  lemma {:induction false} TargetsAreRoundRobin(s: State, es: seq<Event>)
    requires Legal(s, es)
    ensures RR.Run(Views(s, es), s.idx) == RR.Trace(Targets(s, es), Run(s, es).idx)
    decreases |es|
  {
    if es != [] {
      hide RR.Dispatch, RR.Run, Step, Enabled;
      var rest := es[..|es| - 1];
      TargetsAreRoundRobin(s, rest);
      if es[|es| - 1].Accept? {
        RR.RunLast(Views(s, rest), Run(s, rest).slots, s.idx);
      } else {
        assert Views(s, es) == Views(s, rest) && Targets(s, es) == Targets(s, rest);
      }
      IndexAfter(Run(s, rest), es[|es| - 1]);
    }
  }

  /** No process of the worker ends during the run. */
  predicate StaysUp(s: State, es: seq<Event>, w: nat)
    requires Legal(s, es)
    decreases |es|
  {
    es != [] ==> !Ends(s, es, w) && StaysUp(s, es[..|es| - 1], w)
  }

  lemma {:induction false} UpIsLive(s: State, es: seq<Event>, n: nat, w: nat)
    requires Inv(s, n) && s.phase.Idle? && w < n && Legal(s, es) && StaysUp(s, es, w)
    ensures Away(Run(s, es).phase) != Some(w)
    ensures forall v: RR.Slots <- Views(s, es) :: |v| == n && v[w].Some?
    decreases |es|
  {
    if es != [] {
      var rest := es[..|es| - 1];
      UpIsLive(s, rest, n, w);
      RunKeeps(s, rest, n);
      hide HasProcess, Delay, RR.Dispatch, StreakAfter;
      assert Away(Run(s, es).phase) != Some(w);
      hide Step;
    }
  }

  /**
   * Workers that stay up are served evenly, to within one connection, over every
   * interleaving of accepts with the exits, back-offs and restarts of the others.
   */
  lemma StayingWorkersServedEvenly(forks: seq<(int, int, real)>, es: seq<Event>, w: nat, v: nat)
    requires DistinctPids(forks) && w < |forks| && v < |forks| && Legal(Start(forks), es)
    requires StaysUp(Start(forks), es, w) && StaysUp(Start(forks), es, v)
    ensures var t := Targets(Start(forks), es);
            -1 <= RR.Count(t, w) - RR.Count(t, v) <= 1
  {
    var s, n := Start(forks), |forks|;
    StartInv(forks);
    StartTables(forks);
    UpIsLive(s, es, n, w);
    UpIsLive(s, es, n, v);
    TargetsAreRoundRobin(s, es);
    RR.Fair(Views(s, es), s.idx, n, w, v);
  }

  /** In every reachable state an accept finds a target unless the only worker is being forked anew. */
  lemma AcceptFindsTargetIff(forks: seq<(int, int, real)>, es: seq<Event>)
    requires DistinctPids(forks) && Legal(Start(forks), es)
    ensures var s := Run(Start(forks), es);
            RR.Dispatch(s.slots, s.idx).0.Some? <==> |forks| > 1 || (|forks| == 1 && !s.phase.Reforking?)
  {
    var s, n := Run(Start(forks), es), |forks|;
    StartInv(forks);
    RunKeeps(Start(forks), es, n);
    hide Run, Start, Legal, HasProcess, RR.Dispatch;
    RR.DispatchFindsLive(s.slots, s.idx);
    if n > 1 {
      assert s.slots[0].Some? || s.slots[1].Some?;
    } else if n == 1 {
      assert s.slots[0].None? <==> s.phase == Reforking(0);
    }
  }

  // ----- The class -----

  /** The containers the loop and the accept thread share, and where the loop stands. */
  class ForkSupervisor {
    var children: map<int, nat>
    var restartStreak: map<nat, nat>
    var workerStartedAt: map<nat, real>
    var parentSocks: RR.Slots
    var phase: Phase
    var idx: nat

    ghost function Abs(): State
      reads this
    {
      State(children, restartStreak, workerStartedAt, parentSocks, phase, idx)
    }

    constructor (forks: seq<(int, int, real)>)
      requires DistinctPids(forks)
      ensures Abs() == Start(forks) && Inv(Abs(), |forks|)
    {
      children, restartStreak, workerStartedAt := map[], map[], map[];
      parentSocks, phase, idx := [], Idle, 0;
      new;
      for w := 0 to |forks|
        invariant Abs() == Start(forks[..w])
      {
        var (pid, sock, now) := forks[w];
        assert forks[..w + 1][..w] == forks[..w];
        children := children[pid := w];
        restartStreak := restartStreak[w := 0];
        workerStartedAt := workerStartedAt[w := now];
        parentSocks := parentSocks + [Some(sock)];
      }
      assert forks[..|forks|] == forks;
      StartInv(forks);
    }

    /** A reaped process; the delay is None when its computation overflows. */
    method HandleExit(pid: int, now: real, ghost n: nat) returns (delay: Option<real>)
      requires Inv(Abs(), n) && phase.Idle?
      modifies this
      ensures Inv(Abs(), n) && Abs() == Step(old(Abs()), Exit(pid, now))
      ensures delay == if pid in old(children) then Delay(restartStreak[old(children)[pid]]) else Some(0.0)
    {
      StepKeeps(Abs(), Exit(pid, now), n);
      hide Inv;
      delay := Some(0.0);
      if pid in children {
        var w := children[pid];
        children := children - {pid};
        var started := if w in workerStartedAt then workerStartedAt[w] else now;
        if now - started >= 10.0 {
          restartStreak := restartStreak[w := 0];
        } else {
          restartStreak := restartStreak[w := (if w in restartStreak then restartStreak[w] else 0) + 1];
        }
        var streak := restartStreak[w];
        if streak >= 5 {
          delay := Delay(streak);
        }
        phase := if delay.Some? then Backoff(w) else Crashed(w);
      }
    }

    /** One turn of the accept thread, at any point of the loop. */
    method AcceptOne(ghost n: nat) returns (target: Option<nat>)
      requires Inv(Abs(), n) && !phase.Crashed?
      modifies this`idx
      ensures Inv(Abs(), n) && Abs() == Step(old(Abs()), Accept)
      ensures target.None? <==> n == 0 || (n == 1 && phase == Reforking(0))
      ensures target.Some? ==> target.value < n && parentSocks[target.value].Some?
    {
      StepKeeps(Abs(), Accept, n);
      RR.DispatchFindsLive(parentSocks, idx);
      target, idx := RR.NextTarget(parentSocks, idx);
      hide HasProcess, RR.Dispatch;
      assert n > 1 ==> parentSocks[0].Some? || parentSocks[1].Some?;
    }

    method EmptySlot(ghost n: nat)
      requires Inv(Abs(), n) && phase.Backoff?
      modifies this
      ensures Inv(Abs(), n) && Abs() == Step(old(Abs()), CloseSlot)
    {
      StepKeeps(Abs(), CloseSlot, n);
      if parentSocks[phase.worker].Some? {
        parentSocks := parentSocks[phase.worker := None];
      }
      phase := Reforking(phase.worker);
    }

    method Refork(pid: int, sock: int, now: real, ghost n: nat)
      requires Inv(Abs(), n) && phase.Reforking? && pid !in children
      modifies this
      ensures Inv(Abs(), n) && Abs() == Step(old(Abs()), Fork(pid, sock, now))
    {
      StepKeeps(Abs(), Fork(pid, sock, now), n);
      var w := phase.worker;
      parentSocks := parentSocks[w := Some(sock)];
      children := children[pid := w];
      workerStartedAt := workerStartedAt[w := now];
      phase := Idle;
    }
  }
}
