/** The route cache: an ordered dict with least-recently-used eviction, against its trace. */
module LruCache {
  import opened Common

  /** `keys` is the order of the dict, least recently used first. */
  datatype Cache<K, V> = Cache(keys: seq<K>, vals: map<K, V>, cap: nat)

  ghost predicate WellFormed<K(!new), V>(c: Cache<K, V>) {
    Distinct(c.keys) && (forall k :: k in c.keys <==> k in c.vals) && |c.keys| <= c.cap
  }

  function Without<K(==)>(s: seq<K>, k: K): seq<K> {
    if s == [] then [] else if s[0] == k then s[1..] else [s[0]] + Without(s[1..], k)
  }

  /** `move_to_end`. */
  function Touch<K(==)>(s: seq<K>, k: K): seq<K> {
    Without(s, k) + [k]
  }

  function Get<K(==), V>(c: Cache<K, V>, k: K): (Cache<K, V>, Option<V>) {
    if k in c.vals then (c.(keys := Touch(c.keys, k)), Some(c.vals[k])) else (c, None)
  }

  /** The second result says whether the call succeeds: `popitem` on an empty dict raises. */
  function Put<K(==), V>(c: Cache<K, V>, k: K, v: V): (Cache<K, V>, bool) {
    if k in c.vals then (c.(keys := Touch(c.keys, k), vals := c.vals[k := v]), true)
    else if |c.keys| < c.cap then (c.(keys := c.keys + [k], vals := c.vals[k := v]), true)
    else if c.keys == [] then (c, false)
    else (c.(keys := c.keys[1..] + [k], vals := (c.vals - {c.keys[0]})[k := v]), true)
  }

  // ----- Traces -----

  datatype Op<K, V> = GetOp(key: K) | PutOp(key: K, value: V)

  function Step<K(==), V>(c: Cache<K, V>, op: Op<K, V>): Cache<K, V> {
    match op case GetOp(k) => Get(c, k).0 case PutOp(k, v) => Put(c, k, v).0
  }

  function Empty<K, V>(cap: nat): Cache<K, V> { Cache([], map[], cap) }

  function Run<K(==), V>(cap: nat, ops: seq<Op<K, V>>): Cache<K, V> {
    if ops == [] then Empty(cap) else Step(Run(cap, ops[..|ops| - 1]), ops[|ops| - 1])
  }

  /** The keys touched by a run, in order: every hit and every successful put. */
  function Touches<K(==), V>(cap: nat, ops: seq<Op<K, V>>): seq<K> {
    if ops == [] then []
    else
      var before, op := ops[..|ops| - 1], ops[|ops| - 1];
      var c := Run(cap, before);
      Touches(cap, before) +
      (match op
       case GetOp(k) => if k in c.vals then [k] else []
       case PutOp(k, v) => if Put(c, k, v).1 then [k] else [])
  }

  /** The value of the last put of `k`. */
  function LastPut<K(==), V>(ops: seq<Op<K, V>>, k: K): Option<V> {
    if ops == [] then None
    else
      match ops[|ops| - 1]
      case PutOp(k', v) => if k' == k then Some(v) else LastPut(ops[..|ops| - 1], k)
      case GetOp(_) => LastPut(ops[..|ops| - 1], k)
  }

  /** The position of the last touch of `k`, -1 when there is none. */
  function LastTouch<K(==)>(t: seq<K>, k: K): (i: int)
    ensures -1 <= i < |t| && (i >= 0 <==> k in t)
  {
    if t == [] then -1 else if t[|t| - 1] == k then |t| - 1 else LastTouch(t[..|t| - 1], k)
  }

  /**
   * `keys` are the `cap` most recently touched distinct keys of the trace `t` (all of
   * them, when there are fewer), in the order of their last touches.
   */
  ghost predicate MostRecent<K(!new)>(keys: seq<K>, t: seq<K>, cap: nat) {
    && |keys| <= cap
    && (forall i :: 0 <= i < |keys| ==> keys[i] in t)
    && (forall i, j :: 0 <= i < j < |keys| ==> LastTouch(t, keys[i]) < LastTouch(t, keys[j]))
    && (forall k :: k in t && k !in keys ==>
          |keys| == cap && forall i :: 0 <= i < |keys| ==> LastTouch(t, k) < LastTouch(t, keys[i]))
  }

  lemma LastTouchSnoc<K>(t: seq<K>, k: K, x: K)
    ensures LastTouch(t + [x], k) == if k == x then |t| else LastTouch(t, k)
  {
    assert (t + [x])[..|t|] == t;
  }

  lemma {:induction false} WithoutSpec<K(!new)>(s: seq<K>, k: K)
    requires Distinct(s)
    ensures Distinct(Without(s, k)) && k !in Without(s, k)
    ensures forall x :: x in Without(s, k) <==> x in s && x != k
    ensures |Without(s, k)| == if k in s then |s| - 1 else |s|
  {
    if s != [] {
      assert s == [s[0]] + s[1..];
      assert forall i :: 0 <= i < |s[1..]| ==> s[1..][i] == s[i + 1];
      assert s[0] !in s[1..];
      WithoutSpec(s[1..], k);
      assert s[0] !in Without(s[1..], k);
    }
  }

  /** Removing a key keeps the order of the others. */
  lemma {:induction false} WithoutSorted<K(!new)>(s: seq<K>, k: K, t: seq<K>)
    requires Distinct(s) && forall i, j :: 0 <= i < j < |s| ==> LastTouch(t, s[i]) < LastTouch(t, s[j])
    ensures var r := Without(s, k); forall i, j :: 0 <= i < j < |r| ==> LastTouch(t, r[i]) < LastTouch(t, r[j])
  {
    hide LastTouch;
    if s != [] && s[0] != k {
      var r := Without(s[1..], k);
      assert forall i :: 0 <= i < |s[1..]| ==> s[1..][i] == s[i + 1];
      WithoutSorted(s[1..], k, t);
      WithoutSpec(s[1..], k);
      assert forall x <- r :: x in s[1..];
      forall j | 0 <= j < |r|
        ensures LastTouch(t, s[0]) < LastTouch(t, r[j])
      {
        assert r[j] in r;
        var i :| 0 <= i < |s[1..]| && s[1..][i] == r[j];
      }
    }
  }

  lemma SnocSorted<K(!new)>(rest: seq<K>, k: K, t: seq<K>)
    requires k !in rest && forall x <- rest :: x in t
    requires forall i, j :: 0 <= i < j < |rest| ==> LastTouch(t, rest[i]) < LastTouch(t, rest[j])
    ensures var keys', t' := rest + [k], t + [k];
            forall i, j :: 0 <= i < j < |keys'| ==> LastTouch(t', keys'[i]) < LastTouch(t', keys'[j])
  {
    var keys', t' := rest + [k], t + [k];
    hide LastTouch;
    forall i, j | 0 <= i < j < |keys'|
      ensures LastTouch(t', keys'[i]) < LastTouch(t', keys'[j])
    {
      assert rest[i] in rest && (j < |rest| ==> rest[j] in rest);
      LastTouchSnoc(t, keys'[i], k);
      LastTouchSnoc(t, keys'[j], k);
    }
  }

  lemma SnocCovers<K(!new)>(rest: seq<K>, k: K, t: seq<K>, x: K)
    requires k !in rest && x in t + [k] && x !in rest + [k]
    requires x in t && x !in rest && x != k ==>
               forall i :: 0 <= i < |rest| ==> LastTouch(t, x) < LastTouch(t, rest[i])
    ensures x in t && x !in rest && x != k
    ensures forall i :: 0 <= i < |rest + [k]| ==> LastTouch(t + [k], x) < LastTouch(t + [k], (rest + [k])[i])
  {
    hide LastTouch;
    assert (rest + [k])[|rest|] == k;
    assert forall y <- rest :: y in rest + [k];
    LastTouchSnoc(t, x, k);
    forall i | 0 <= i < |rest + [k]|
      ensures LastTouch(t + [k], x) < LastTouch(t + [k], (rest + [k])[i])
    {
      assert i < |rest| ==> rest[i] in rest;
      LastTouchSnoc(t, (rest + [k])[i], k);
    }
  }

  /** Appending the touched key to a most-recent list of other keys. */
  lemma SnocRecent<K(!new)>(rest: seq<K>, keys: seq<K>, k: K, t: seq<K>, cap: nat)
    requires MostRecent(keys, t, cap)
    requires k !in rest && |rest| + 1 <= cap
    requires forall i, j :: 0 <= i < j < |rest| ==> LastTouch(t, rest[i]) < LastTouch(t, rest[j])
    requires forall x <- rest :: x in keys
    requires forall x :: x in t && x !in rest && x != k ==>
               |rest| + 1 == cap && forall i :: 0 <= i < |rest| ==> LastTouch(t, x) < LastTouch(t, rest[i])
    ensures MostRecent(rest + [k], t + [k], cap)
  {
    hide LastTouch;
    assert forall x <- rest :: x in t;
    SnocSorted(rest, k, t);
    forall x | x in t + [k] && x !in rest + [k]
      ensures |rest + [k]| == cap
      ensures forall i :: 0 <= i < |rest + [k]| ==> LastTouch(t + [k], x) < LastTouch(t + [k], (rest + [k])[i])
    {
      SnocCovers(rest, k, t, x);
    }
  }

  lemma TouchRecent<K(!new)>(keys: seq<K>, k: K, t: seq<K>, cap: nat)
    requires MostRecent(keys, t, cap) && Distinct(keys) && k in keys
    ensures MostRecent(Touch(keys, k), t + [k], cap)
  {
    WithoutSpec(keys, k);
    WithoutSorted(keys, k, t);
    hide LastTouch;
    var rest := Without(keys, k);
    hide Without;
    forall x | x in t && x !in rest && x != k
      ensures |rest| + 1 == cap && forall i :: 0 <= i < |rest| ==> LastTouch(t, x) < LastTouch(t, rest[i])
    {
      assert x !in keys;
      forall i | 0 <= i < |rest| ensures LastTouch(t, x) < LastTouch(t, rest[i]) {
        assert rest[i] in keys;
      }
    }
    SnocRecent(rest, keys, k, t, cap);
  }

  lemma EvictRecent<K(!new)>(keys: seq<K>, k: K, t: seq<K>, cap: nat)
    requires MostRecent(keys, t, cap) && k !in keys && keys != [] && |keys| == cap
    ensures MostRecent(keys[1..] + [k], t + [k], cap)
  {
    hide LastTouch;
    var rest := keys[1..];
    forall x | x in t && x !in rest && x != k
      ensures forall i :: 0 <= i < |rest| ==> LastTouch(t, x) < LastTouch(t, rest[i])
    {
      assert x == keys[0] || x !in keys;
    }
    SnocRecent(rest, keys, k, t, cap);
  }

  lemma AddRecent<K(!new)>(keys: seq<K>, k: K, t: seq<K>, cap: nat)
    requires MostRecent(keys, t, cap) && k !in keys && |keys| < cap
    ensures MostRecent(keys + [k], t + [k], cap)
  {
    hide LastTouch;
    SnocRecent(keys, keys, k, t, cap);
  }

  /** A hit or a successful put touches its key; nothing else changes the order. */
  lemma PutRecent<K(!new), V>(c: Cache<K, V>, k: K, v: V, t: seq<K>)
    requires WellFormed(c) && MostRecent(c.keys, t, c.cap)
    ensures WellFormed(Put(c, k, v).0) && Put(c, k, v).0.cap == c.cap
    ensures MostRecent(Put(c, k, v).0.keys, t + (if Put(c, k, v).1 then [k] else []), c.cap)
  {
    hide LastTouch;
    if k in c.vals {
      TouchRecent(c.keys, k, t, c.cap);
      WithoutSpec(c.keys, k);
    } else if |c.keys| < c.cap {
      AddRecent(c.keys, k, t, c.cap);
    } else if c.keys != [] {
      EvictRecent(c.keys, k, t, c.cap);
    } else {
      assert t + [] == t;
    }
  }

  lemma GetRecent<K(!new), V>(c: Cache<K, V>, k: K, t: seq<K>)
    requires WellFormed(c) && MostRecent(c.keys, t, c.cap)
    ensures WellFormed(Get(c, k).0) && Get(c, k).0.cap == c.cap
    ensures MostRecent(Get(c, k).0.keys, t + (if k in c.vals then [k] else []), c.cap)
  {
    hide LastTouch;
    if k in c.vals {
      TouchRecent(c.keys, k, t, c.cap);
      WithoutSpec(c.keys, k);
    } else {
      assert t + [] == t;
    }
  }

  /**
   * After any run the contents are the most recently touched distinct keys, as many as
   * fit, in the order of their last touches, each bound to the value of its last put.
   */
  lemma {:induction false} LruTrace<K(!new), V>(cap: nat, ops: seq<Op<K, V>>)
    ensures var c := Run(cap, ops);
            && WellFormed(c) && c.cap == cap
            && MostRecent(c.keys, Touches(cap, ops), cap)
            && forall k :: k in c.vals ==> LastPut(ops, k) == Some(c.vals[k])
  {
    hide MostRecent;
    if ops == [] {
      EmptyRecent<K>(cap);
    } else {
      var before, op := ops[..|ops| - 1], ops[|ops| - 1];
      LruTrace(cap, before);
      var c, t := Run(cap, before), Touches(cap, before);
      match op
      case GetOp(k) => GetRecent(c, k, t);
      case PutOp(k, v) => PutRecent(c, k, v, t);
    }
  }

  lemma EmptyRecent<K(!new)>(cap: nat)
    ensures MostRecent<K>([], [], cap)
  {
  }

  // ----- Lookup, else resolve and insert -----

  /** A lookup with the resolver `f` behind the cache; what resolves to nothing is not inserted. */
  function Lookup<K(==), V>(c: Cache<K, V>, f: K -> Option<V>, k: K): (Cache<K, V>, Option<V>) {
    var (c', hit) := Get(c, k);
    if hit.Some? then (c', hit)
    else
      match f(k)
      case None => (c', None)
      case Some(v) => (Put(c', k, v).0, Some(v))
  }

  function Serve<K(==), V>(cap: nat, f: K -> Option<V>, ks: seq<K>): Cache<K, V> {
    if ks == [] then Empty(cap) else Lookup(Serve(cap, f, ks[..|ks| - 1]), f, ks[|ks| - 1]).0
  }

  /** The requests that resolve to something: the same for every capacity. */
  function Resolved<K, V>(f: K -> Option<V>, ks: seq<K>): seq<K> {
    if ks == [] then []
    else Resolved(f, ks[..|ks| - 1]) + (if f(ks[|ks| - 1]).Some? then [ks[|ks| - 1]] else [])
  }

  lemma {:induction false} ServeRecent<K(!new), V>(cap: nat, f: K -> Option<V>, ks: seq<K>)
    ensures var c := Serve(cap, f, ks);
            && WellFormed(c) && c.cap == cap
            && MostRecent(c.keys, if cap == 0 then [] else Resolved(f, ks), cap)
            && forall k :: k in c.vals ==> f(k) == Some(c.vals[k])
  {
    hide MostRecent;
    if ks == [] {
      EmptyRecent<K>(cap);
    } else {
      var before, k := ks[..|ks| - 1], ks[|ks| - 1];
      ServeRecent(cap, f, before);
      var c, t := Serve(cap, f, before), if cap == 0 then [] else Resolved(f, before);
      assert t + [] == t;
      if k in c.vals {
        GetRecent(c, k, t);
      } else if f(k).Some? {
        PutRecent(c, k, f(k).value, t);
      }
    }
  }

  /** The cache is invisible: every lookup, hit or miss, returns what the resolver returns. */
  lemma {:induction false} LookupIsResolve<K(!new), V>(cap: nat, f: K -> Option<V>, ks: seq<K>, k: K)
    ensures Lookup(Serve(cap, f, ks), f, k).1 == f(k)
  {
    ServeRecent(cap, f, ks);
  }

  lemma {:induction false} DistinctCard<K>(s: seq<K>)
    requires Distinct(s)
    ensures |Elements(s)| == |s|
  {
    if s != [] {
      var rest := s[1..];
      assert s == [s[0]] + rest;
      assert s[0] in [s[0]];
      DistinctParts([s[0]], rest);
      DistinctCard(rest);
      hide Distinct;
      assert Elements(s) == {s[0]} + Elements(rest);
    }
  }

  /** Of two most-recent lists over one trace, the longer contains the shorter. */
  lemma RecentNested<K(!new)>(a: seq<K>, b: seq<K>, t: seq<K>, m: nat, n: nat, k: K)
    requires MostRecent(a, t, m) && MostRecent(b, t, n) && m <= n && Distinct(a) && Distinct(b)
    requires k in a
    ensures k in b
  {
    hide LastTouch;
    if k !in b {
      var sa, sb := Elements(a), Elements(b);
      var j :| 0 <= j < |a| && a[j] == k;
      forall x <- sb ensures x in sa - {k} {
        var i :| 0 <= i < |b| && b[i] == x;
        assert LastTouch(t, k) < LastTouch(t, b[i]);
      }
      DistinctCard(a);
      DistinctCard(b);
      Smaller(sb, sa, k);
    }
  }

  lemma {:induction false} Smaller<K>(x: set<K>, y: set<K>, k: K)
    requires x <= y - {k} && k in y
    ensures |x| < |y|
    decreases y
  {
    if x != {} {
      var e :| e in x;
      Smaller(x - {e}, y - {e}, k);
    } else {
      assert |y - {k}| + 1 == |y|;
    }
  }

  /** No anomaly of size: on the same requests a larger cache never misses where a smaller one hits. */
  lemma LargerNeverWorse<K(!new), V>(m: nat, n: nat, f: K -> Option<V>, ks: seq<K>, k: K)
    requires m <= n && k in Serve(m, f, ks).vals
    ensures k in Serve(n, f, ks).vals
  {
    ServeRecent(m, f, ks);
    ServeRecent(n, f, ks);
    var a, b := Serve(m, f, ks), Serve(n, f, ks);
    RecentNested(a.keys, b.keys, Resolved(f, ks), m, n, k);
  }

  // ----- What a lookup answers -----

  /** A lookup after any run: the value of the last put if the key is still there, nothing otherwise. */
  lemma GetIsLastPut<K(!new), V>(cap: nat, ops: seq<Op<K, V>>, k: K)
    ensures var c := Run(cap, ops);
            && (k in c.keys ==> LastPut(ops, k).Some? && Get(c, k).1 == LastPut(ops, k))
            && (k !in c.keys ==> Get(c, k).1 == None)
  {
    LruTrace(cap, ops);
    hide Run, MostRecent, LastPut;
  }

  /** What was put is found by the next lookup; a put fails for a capacity of zero only. */
  lemma PutThenGet<K(!new), V>(cap: nat, ops: seq<Op<K, V>>, k: K, v: V)
    ensures var (c, ok) := Put(Run(cap, ops), k, v);
            (ok <==> cap > 0) && (ok ==> Get(c, k).1 == Some(v))
  {
    LruTrace(cap, ops);
    hide Run, MostRecent, LastPut;
  }

  /** The distinct keys touched after the last touch of `k`. */
  function Since<K(==)>(t: seq<K>, k: K): set<K> {
    Elements(t[LastTouch(t, k) + 1..])
  }

  lemma {:induction false} SinceIff<K(!new)>(t: seq<K>, k: K, x: K)
    ensures x in Since(t, k) <==> LastTouch(t, x) > LastTouch(t, k)
  {
    if t != [] {
      var front, y := t[..|t| - 1], t[|t| - 1];
      assert t == front + [y];
      SinceIff(front, k, x);
      hide LastTouch, Since;
      LastTouchSnoc(front, k, y);
      LastTouchSnoc(front, x, y);
      SinceSnoc(front, k, y);
    }
  }

  lemma SinceSnoc<K>(t: seq<K>, k: K, y: K)
    ensures Since(t + [y], k) == if y == k then {} else Since(t, k) + {y}
  {
    LastTouchSnoc(t, k, y);
    hide LastTouch, Elements;
    var i := LastTouch(t, k) + 1;
    if y == k {
      assert (t + [y])[|t| + 1..] == [];
      assert Elements<K>([]) == {} by { ElementsSnoc([], y); }
    } else {
      assert (t + [y])[i..] == t[i..] + [y];
      ElementsSnoc(t[i..], y);
    }
  }

  lemma ElementsSnoc<K>(s: seq<K>, y: K)
    ensures Elements(s + [y]) == Elements(s) + {y} && Elements<K>([]) == {}
  {
    var a, b := Elements(s + [y]), Elements(s) + {y};
    assert (s + [y])[|s|] == y;
    forall x ensures x in a <==> x in b { }
  }

  /** A key is among the most recent ones exactly when fewer than `cap` others came after it. */
  lemma RecentIff<K(!new)>(keys: seq<K>, t: seq<K>, cap: nat, k: K)
    requires MostRecent(keys, t, cap) && Distinct(keys)
    ensures k in keys <==> k in t && |Since(t, k)| < cap
  {
    forall x ensures x in Since(t, k) <==> LastTouch(t, x) > LastTouch(t, k) { SinceIff(t, k, x); }
    hide LastTouch, Since;
    DistinctCard(keys);
    if k in keys {
      var j :| 0 <= j < |keys| && keys[j] == k;
      forall x <- Since(t, k) ensures x in Elements(keys) - {k} {
        InTrace(t, x, k);
      }
      Smaller(Since(t, k), Elements(keys), k);
    } else if k in t {
      forall x <- Elements(keys) ensures x in Since(t, k) {
        var j :| 0 <= j < |keys| && keys[j] == x;
      }
      NotLarger(Elements(keys), Since(t, k));
    }
  }

  lemma InTrace<K(!new)>(t: seq<K>, x: K, k: K)
    requires LastTouch(t, x) > LastTouch(t, k)
    ensures x in t && x != k
  {
  }

  lemma {:induction false} NotLarger<K>(x: set<K>, y: set<K>)
    requires x <= y
    ensures |x| <= |y|
    decreases x
  {
    if x != {} {
      var e :| e in x;
      NotLarger(x - {e}, y - {e});
    }
  }

  /**
   * Which lookups the cache answers: those of a key that was resolved before, with fewer
   * than `cap` different keys resolved after it. The resolver `g` at hand then plays no
   * part; on every other key it decides.
   */
  lemma AnsweredByCacheIff<K(!new), V>(cap: nat, f: K -> Option<V>, ks: seq<K>, g: K -> Option<V>, k: K)
    ensures var c, t := Serve(cap, f, ks), Resolved(f, ks);
            var hit := k in t && |Since(t, k)| < cap;
            && (Get(c, k).1.Some? <==> hit)
            && Lookup(c, g, k).1 == if hit then f(k) else g(k)
  {
    ServeRecent(cap, f, ks);
    var c, t := Serve(cap, f, ks), Resolved(f, ks);
    hide MostRecent, Serve, Resolved, Since;
    if cap > 0 {
      RecentIff(c.keys, t, cap, k);
    }
  }

  // ----- The class -----

  class LruRouteCache<K(==, !new), V> {
    const maxSize: nat
    var order: seq<K>
    var values: map<K, V>

    ghost function State(): Cache<K, V>
      reads this
    {
      Cache(order, values, maxSize)
    }

    constructor (size: nat)
      ensures State() == Empty(size)
    {
      maxSize := size;
      order, values := [], map[];
    }

    method MoveToEnd(key: K)
      requires WellFormed(State()) && key in values
      modifies this`order
      ensures order == Touch(old(order), key)
    {
      var i := 0;
      while order[i] != key
        invariant 0 <= i < |order| && order == old(order)
        invariant key !in order[..i]
        decreases |order| - i
      {
        assert order[i + 1..] != [] by {
          assert key in order && order == order[..i] + [order[i]] + order[i + 1..];
        }
        i := i + 1;
      }
      WithoutAt(order, i, key);
      order := order[..i] + order[i + 1..] + [key];
    }

    method Find(key: K) returns (r: Option<V>)
      requires WellFormed(State())
      modifies this`order
      ensures WellFormed(State()) && (State(), r) == Get(old(State()), key)
    {
      if key !in values {
        return None;
      }
      WithoutSpec(order, key);
      MoveToEnd(key);
      return Some(values[key]);
    }

    method Store(key: K, value: V) returns (ok: bool)
      requires WellFormed(State())
      modifies this
      ensures WellFormed(State()) && (State(), ok) == Put(old(State()), key, value)
    {
      if key in values {
        WithoutSpec(order, key);
        MoveToEnd(key);
        values := values[key := value];
        return true;
      }
      if |order| >= maxSize {
        if order == [] {
          return false;
        }
        values := values - {order[0]};
        order := order[1..];
      }
      values := values[key := value];
      order := order + [key];
      return true;
    }
  }

  lemma {:induction false} WithoutAt<K>(s: seq<K>, i: nat, k: K)
    requires i < |s| && s[i] == k && k !in s[..i]
    ensures Without(s, k) == s[..i] + s[i + 1..]
  {
    if i > 0 {
      assert s[0] in s[..i];
      assert s[1..][..i - 1] == s[..i][1..];
      WithoutAt(s[1..], i - 1, k);
    }
  }
}
