/**
 * `jsonable_encoder` on object graphs: dicts, sequences, dataclass instances and
 * primitives, shared and possibly cyclic.
 */
module Encoder {
  import opened Common

  // ----- Object graphs -----

  type Id = nat

  datatype Prim = PNone | PBool(b: bool) | PInt(n: int) | PFloat(x: real) | PStr(s: string)

  datatype Val = Prim(p: Prim) | Ref(id: Id)

  type Entries = seq<(Prim, Val)>

  /** `Sequence` is any list, tuple, set or deque in iteration order; `Record` a dataclass instance. */
  datatype Node = Dict(entries: Entries) | Sequence(items: seq<Val>) | Record(fields: seq<(string, Val)>)

  type Heap = map<Id, Node>

  predicate Known(h: Heap, v: Val) { v.Ref? ==> v.id in h }

  predicate KnownEntries(h: Heap, es: Entries) { forall e <- es :: Known(h, e.1) }

  predicate KnownItems(h: Heap, vs: seq<Val>) { forall v <- vs :: Known(h, v) }

  predicate Closed(h: Heap) {
    forall id <- h ::
      match h[id] case Sequence(vs) => KnownItems(h, vs) case _ => KnownEntries(h, EntriesOf(h[id]))
  }

  /** The dict a node is encoded as; a dataclass instance goes by its field names. */
  function EntriesOf(n: Node): Entries
    requires !n.Sequence?
  {
    match n
    case Dict(es) => es
    case Record(fs) => seq(|fs|, i requires 0 <= i < |fs| => (PStr(fs[i].0), fs[i].1))
  }

  // ----- Options and output -----

  /** `only` and `without` are the arguments `include` and `exclude`. */
  datatype Opts = Opts(only: Option<set<Prim>>, without: Option<set<Prim>>, excludeNone: bool, saSafe: bool)

  const DEFAULTS := Opts(None, None, false, true)

  /** The values of a dict are encoded without `include` and `exclude`. */
  function Inner(o: Opts): Opts { o.(only := None, without := None) }

  datatype Json = JPrim(p: Prim) | JDict(members: seq<Member>) | JList(items: seq<Json>)

  datatype Member = Member(key: Prim, value: Json)

  const NULL := JPrim(PNone)

  predicate SaKey(k: Prim) { k.PStr? && "_sa" <= k.s }

  predicate Allowed(o: Opts, k: Prim, isNone: bool) {
    && (!o.saSafe || !SaKey(k))
    && (!isNone || !o.excludeNone)
    && (o.only.None? || k in o.only.value)
    && (o.without.None? || k !in o.without.value)
  }

  // ----- The encoder -----

  /**
   * `seen` holds the containers on the current path. It grows with every container
   * entered, so the recursion ends on every finite graph, cyclic or not.
   */
  function Enc(h: Heap, v: Val, seen: set<Id>, o: Opts): Json
    requires Closed(h) && Known(h, v)
    decreases h.Keys - seen, 0
  {
    match v
    case Prim(p) => JPrim(p)
    case Ref(id) =>
      if id in seen then NULL
      else
        match h[id]
        case Sequence(vs) => JList(EncItems(h, vs, seen + {id}, o))
        case _ => JDict(EncEntries(h, EntriesOf(h[id]), seen + {id}, o))
  }

  function EncItems(h: Heap, vs: seq<Val>, seen: set<Id>, o: Opts): (r: seq<Json>)
    requires Closed(h) && KnownItems(h, vs)
    ensures |r| == |vs| && forall i :: 0 <= i < |vs| ==> r[i] == Enc(h, vs[i], seen, o)
    decreases h.Keys - seen, 1 + |vs|
  {
    if vs == [] then [] else [Enc(h, vs[0], seen, o)] + EncItems(h, vs[1..], seen, o)
  }

  function EncEntries(h: Heap, es: Entries, seen: set<Id>, o: Opts): seq<Member>
    requires Closed(h) && KnownEntries(h, es)
    decreases h.Keys - seen, 1 + |es|
  {
    if es == [] then []
    else
      var rest := EncEntries(h, es[1..], seen, o);
      if Allowed(o, es[0].0, es[0].1 == Prim(PNone))
      then [Member(es[0].0, Enc(h, es[0].1, seen, Inner(o)))] + rest else rest
  }

  lemma {:induction false} EncEntriesAppend(h: Heap, es: Entries, fs: Entries, seen: set<Id>, o: Opts)
    requires Closed(h) && KnownEntries(h, es) && KnownEntries(h, fs)
    ensures KnownEntries(h, es + fs)
    ensures EncEntries(h, es + fs, seen, o) == EncEntries(h, es, seen, o) + EncEntries(h, fs, seen, o)
    decreases |es|
  {
    if es == [] {
      assert es + fs == fs;
    } else {
      assert (es + fs)[1..] == es[1..] + fs;
      EncEntriesAppend(h, es[1..], fs, seen, o);
    }
  }

  /** The recursive procedure with its loops over `encoded_dict` and `encoded_list`. */
  method JsonableEncoder(h: Heap, v: Val, seen: set<Id>, o: Opts) returns (r: Json)
    requires Closed(h) && Known(h, v)
    ensures r == Enc(h, v, seen, o)
    decreases h.Keys - seen
  {
    if v.Prim? {
      return JPrim(v.p);
    }
    if v.id in seen {
      return NULL;
    }
    var seen' := seen + {v.id};
    if h[v.id].Sequence? {
      var vs := h[v.id].items;
      var encoded: seq<Json> := [];
      for i := 0 to |vs|
        invariant |encoded| == i
        invariant forall k :: 0 <= k < i ==> encoded[k] == Enc(h, vs[k], seen', o)
      {
        var e := JsonableEncoder(h, vs[i], seen', o);
        encoded := encoded + [e];
      }
      return JList(encoded);
    }
    var es := EntriesOf(h[v.id]);
    var encoded: seq<Member> := [];
    for i := 0 to |es|
      invariant encoded == EncEntries(h, es[..i], seen', o)
    {
      EncEntriesAppend(h, es[..i], [es[i]], seen', o);
      assert es[..i + 1] == es[..i] + [es[i]];
      var (key, value) := es[i];
      if Allowed(o, key, value == Prim(PNone)) {
        var e := JsonableEncoder(h, value, seen', Inner(o));
        encoded := encoded + [Member(key, e)];
      }
    }
    assert es[..|es|] == es;
    return JDict(encoded);
  }

  // ----- None exactly at back edges -----

  datatype Hop = Key(k: Prim) | Index(i: nat)

  function FindEntry(es: Entries, o: Opts, k: Prim): (r: Option<Val>)
    ensures r.Some? ==> exists e <- es :: e.1 == r.value
  {
    if es == [] then None
    else if es[0].0 == k && Allowed(o, k, es[0].1 == Prim(PNone)) then Some(es[0].1)
    else
      var r := FindEntry(es[1..], o, k);
      assert r.Some? ==> exists e <- es[1..] :: e in es && e.1 == r.value;
      r
  }

  /** One hop in the graph, through a dict entry that the options keep or a sequence position. */
  function Child(h: Heap, v: Val, o: Opts, hop: Hop): (r: Option<Val>)
    requires Closed(h) && Known(h, v)
    ensures r.Some? ==> v.Ref? && Known(h, r.value)
  {
    if v.Prim? then None
    else
      match (h[v.id], hop)
      case (Sequence(vs), Index(i)) => if i < |vs| then Some(vs[i]) else None
      case (Sequence(_), Key(_)) => None
      case (_, Key(k)) => FindEntry(EntriesOf(h[v.id]), o, k)
      case (_, Index(_)) => None
  }

  function ChildOpts(h: Heap, v: Val, o: Opts): Opts
    requires v.Ref? && v.id in h
  {
    if h[v.id].Sequence? then o else Inner(o)
  }

  /** Where a path through the graph leads, the containers it leaves, and the options there. */
  datatype Arrival = Arrival(at: Val, trail: seq<Id>, opts: Opts)

  function Walk(h: Heap, v: Val, o: Opts, hops: seq<Hop>): (r: Option<Arrival>)
    requires Closed(h) && Known(h, v)
    ensures r.Some? ==> Known(h, r.value.at)
    decreases |hops|
  {
    if hops == [] then Some(Arrival(v, [], o))
    else
      match Child(h, v, o, hops[0])
      case None => None
      case Some(w) =>
        match Walk(h, w, ChildOpts(h, v, o), hops[1..])
        case None => None
        case Some(a) => Some(a.(trail := [v.id] + a.trail))
  }

  function FindKey(es: seq<Member>, k: Prim): (r: Option<Json>) {
    if es == [] then None else if es[0].key == k then Some(es[0].value) else FindKey(es[1..], k)
  }

  /** The part of the output that a path of keys and indices leads to. */
  function Select(j: Json, hops: seq<Hop>): Option<Json>
    decreases |hops|
  {
    if hops == [] then Some(j)
    else
      match (j, hops[0])
      case (JList(js), Index(i)) => if i < |js| then Select(js[i], hops[1..]) else None
      case (JDict(es), Key(k)) =>
        (match FindKey(es, k) case None => None case Some(e) => Select(e, hops[1..]))
      case _ => None
  }

  /** No container twice on the trail, and none of those already `seen`. */
  predicate Simple(trail: seq<Id>, seen: set<Id>) {
    trail != [] ==> trail[0] !in seen && Simple(trail[1..], seen + {trail[0]})
  }

  lemma {:induction false} FindEncoded(h: Heap, es: Entries, seen: set<Id>, o: Opts, k: Prim)
    requires Closed(h) && KnownEntries(h, es)
    ensures FindKey(EncEntries(h, es, seen, o), k)
            == match FindEntry(es, o, k) case None => None case Some(v) => Some(Enc(h, v, seen, Inner(o)))
    decreases |es|
  {
    if es != [] {
      FindEncoded(h, es[1..], seen, o, k);
      hide Enc;
      var rest := EncEntries(h, es[1..], seen, o);
      if Allowed(o, es[0].0, es[0].1 == Prim(PNone)) {
        assert ([Member(es[0].0, Enc(h, es[0].1, seen, Inner(o)))] + rest)[1..] == rest;
      }
    }
  }

  /** One hop in the output is one hop in the graph. */
  lemma SelectHop(h: Heap, v: Val, seen: set<Id>, o: Opts, hops: seq<Hop>)
    requires Closed(h) && Known(h, v) && hops != [] && v.Ref? && v.id !in seen
    ensures Select(Enc(h, v, seen, o), hops) ==
            match Child(h, v, o, hops[0])
            case None => None
            case Some(w) => Select(Enc(h, w, seen + {v.id}, ChildOpts(h, v, o)), hops[1..])
  {
    if !h[v.id].Sequence? && hops[0].Key? {
      FindEncoded(h, EntriesOf(h[v.id]), seen + {v.id}, o, hops[0].k);
    }
  }

  lemma {:induction false} SelectFrom(h: Heap, v: Val, seen: set<Id>, o: Opts, hops: seq<Hop>)
    requires Closed(h) && Known(h, v)
    ensures Select(Enc(h, v, seen, o), hops) ==
            match Walk(h, v, o, hops)
            case None => None
            case Some(a) => if Simple(a.trail, seen) then Some(Enc(h, a.at, seen + Elements(a.trail), a.opts)) else None
    decreases |hops|
  {
    if hops == [] {
      assert seen + Elements([]) == seen;
    } else if v.Ref? && v.id !in seen {
      SelectHop(h, v, seen, o, hops);
      hide Enc;
      hide Select;
      hide ChildOpts;
      var child := Child(h, v, o, hops[0]);
      if child.Some? {
        hide Child;
        var w, seen', o' := child.value, seen + {v.id}, ChildOpts(h, v, o);
        SelectFrom(h, w, seen', o', hops[1..]);
        if Walk(h, w, o', hops[1..]).Some? {
          var t := Walk(h, w, o', hops[1..]).value.trail;
          assert ([v.id] + t)[1..] == t;
          assert seen' + Elements(t) == seen + Elements([v.id] + t);
        }
      }
    }
  }

  /**
   * The output is the graph unrolled along simple paths: a path of hops exists in the
   * output exactly when it exists in the graph without leaving a container twice, and
   * ends at the encoding of the value it leads to.
   */
  lemma OutputIsUnrolledGraph(h: Heap, v: Val, o: Opts, hops: seq<Hop>)
    requires Closed(h) && Known(h, v)
    ensures Select(Enc(h, v, {}, o), hops) ==
            match Walk(h, v, o, hops)
            case None => None
            case Some(a) => if Simple(a.trail, {}) then Some(Enc(h, a.at, Elements(a.trail), a.opts)) else None
  {
    SelectFrom(h, v, {}, o, hops);
    hide Enc;
    if Walk(h, v, o, hops).Some? {
      assert {} + Elements(Walk(h, v, o, hops).value.trail) == Elements(Walk(h, v, o, hops).value.trail);
    }
  }

  /** A container on the output is None exactly where the path closes a cycle; a primitive is itself. */
  lemma NoneExactlyAtBackEdges(h: Heap, v: Val, o: Opts, hops: seq<Hop>)
    requires Closed(h) && Known(h, v)
    requires Walk(h, v, o, hops).Some? && Simple(Walk(h, v, o, hops).value.trail, {})
    ensures var a := Walk(h, v, o, hops).value;
            var out := Select(Enc(h, v, {}, o), hops);
            && out.Some?
            && (a.at.Ref? ==> (out.value == NULL <==> a.at.id in a.trail))
            && (a.at.Prim? ==> out.value == JPrim(a.at.p))
  {
    OutputIsUnrolledGraph(h, v, o, hops);
  }

  // ----- Agreement with the structural encoder on acyclic graphs -----

  /** A height for every container, above those of its children: the graph has no cycle. */
  predicate Ranked(h: Heap, rank: map<Id, nat>) {
    && h.Keys <= rank.Keys
    && forall id <- h ::
         match h[id]
         case Sequence(vs) => forall v <- vs :: Height(rank, v) <= rank[id]
         case _ => forall e <- EntriesOf(h[id]) :: Height(rank, e.1) <= rank[id]
  }

  function Height(rank: map<Id, nat>, v: Val): nat {
    match v case Prim(_) => 0 case Ref(id) => if id in rank then rank[id] + 1 else 0
  }

  /** The encoder one would write for trees: no seen set. */
  function Structural(h: Heap, rank: map<Id, nat>, v: Val, o: Opts): Json
    requires Closed(h) && Ranked(h, rank) && Known(h, v)
    decreases Height(rank, v), 0
  {
    match v
    case Prim(p) => JPrim(p)
    case Ref(id) =>
      match h[id]
      case Sequence(vs) => JList(StructuralItems(h, rank, rank[id], vs, o))
      case _ => JDict(StructuralEntries(h, rank, rank[id], EntriesOf(h[id]), o))
  }

  function StructuralItems(h: Heap, rank: map<Id, nat>, bound: nat, vs: seq<Val>, o: Opts): seq<Json>
    requires Closed(h) && Ranked(h, rank) && KnownItems(h, vs) && forall v <- vs :: Height(rank, v) <= bound
    decreases bound, 1 + |vs|
  {
    if vs == [] then []
    else [Structural(h, rank, vs[0], o)] + StructuralItems(h, rank, bound, vs[1..], o)
  }

  function StructuralEntries(h: Heap, rank: map<Id, nat>, bound: nat, es: Entries, o: Opts): seq<Member>
    requires Closed(h) && Ranked(h, rank) && KnownEntries(h, es) && forall e <- es :: Height(rank, e.1) <= bound
    decreases bound, 1 + |es|
  {
    if es == [] then []
    else
      var rest := StructuralEntries(h, rank, bound, es[1..], o);
      if Allowed(o, es[0].0, es[0].1 == Prim(PNone))
      then [Member(es[0].0, Structural(h, rank, es[0].1, Inner(o)))] + rest else rest
  }

  /** Everything on the path lies strictly above what is still to be encoded. */
  predicate Above(rank: map<Id, nat>, seen: set<Id>, bound: nat) {
    forall id <- seen :: id in rank && rank[id] >= bound
  }

  lemma {:induction false} StructuralFrom(h: Heap, rank: map<Id, nat>, v: Val, seen: set<Id>, o: Opts)
    requires Closed(h) && Ranked(h, rank) && Known(h, v) && Above(rank, seen, Height(rank, v))
    ensures Enc(h, v, seen, o) == Structural(h, rank, v, o)
    decreases Height(rank, v), 0
  {
    if v.Ref? {
      match h[v.id]
      case Sequence(vs) => StructuralItemsFrom(h, rank, rank[v.id], vs, seen + {v.id}, o);
      case _ => StructuralEntriesFrom(h, rank, rank[v.id], EntriesOf(h[v.id]), seen + {v.id}, o);
    }
  }

  lemma {:induction false} StructuralItemsFrom(h: Heap, rank: map<Id, nat>, bound: nat, vs: seq<Val>,
                                               seen: set<Id>, o: Opts)
    requires Closed(h) && Ranked(h, rank) && KnownItems(h, vs) && Above(rank, seen, bound)
    requires forall v <- vs :: Height(rank, v) <= bound
    ensures EncItems(h, vs, seen, o) == StructuralItems(h, rank, bound, vs, o)
    decreases bound, 1 + |vs|
  {
    if vs != [] {
      StructuralFrom(h, rank, vs[0], seen, o);
      StructuralItemsFrom(h, rank, bound, vs[1..], seen, o);
    }
  }

  lemma {:induction false} StructuralEntriesFrom(h: Heap, rank: map<Id, nat>, bound: nat, es: Entries,
                                                 seen: set<Id>, o: Opts)
    requires Closed(h) && Ranked(h, rank) && KnownEntries(h, es) && Above(rank, seen, bound)
    requires forall e <- es :: Height(rank, e.1) <= bound
    ensures EncEntries(h, es, seen, o) == StructuralEntries(h, rank, bound, es, o)
    decreases bound, 1 + |es|
  {
    if es != [] {
      StructuralFrom(h, rank, es[0].1, seen, Inner(o));
      StructuralEntriesFrom(h, rank, bound, es[1..], seen, o);
    }
  }

  /** On an acyclic graph, shared parts included, the seen set makes no difference. */
  lemma AcyclicIsStructural(h: Heap, rank: map<Id, nat>, v: Val, o: Opts)
    requires Closed(h) && Ranked(h, rank) && Known(h, v)
    ensures Enc(h, v, {}, o) == Structural(h, rank, v, o)
  {
    StructuralFrom(h, rank, v, {}, o);
  }

  // ----- No internal SQLAlchemy attribute survives -----

  predicate NoSaKeys(j: Json) {
    match j
    case JPrim(_) => true
    case JList(js) => forall i :: 0 <= i < |js| ==> NoSaKeys(js[i])
    case JDict(es) => forall i :: 0 <= i < |es| ==> !SaKey(es[i].key) && NoSaKeys(es[i].value)
  }

  lemma {:induction false} SaKeysGone(h: Heap, v: Val, seen: set<Id>, o: Opts)
    requires Closed(h) && Known(h, v) && o.saSafe
    ensures NoSaKeys(Enc(h, v, seen, o))
    decreases h.Keys - seen, 0
  {
    if v.Ref? && v.id !in seen {
      match h[v.id]
      case Sequence(vs) =>
        forall i | 0 <= i < |vs|
          ensures NoSaKeys(Enc(h, vs[i], seen + {v.id}, o))
        {
          SaKeysGone(h, vs[i], seen + {v.id}, o);
        }
      case _ => SaEntriesGone(h, EntriesOf(h[v.id]), seen + {v.id}, o);
    }
  }

  lemma {:induction false} SaEntriesGone(h: Heap, es: Entries, seen: set<Id>, o: Opts)
    requires Closed(h) && KnownEntries(h, es) && o.saSafe
    ensures NoSaKeys(JDict(EncEntries(h, es, seen, o)))
    decreases h.Keys - seen, 1 + |es|
  {
    if es != [] {
      SaKeysGone(h, es[0].1, seen, Inner(o));
      SaEntriesGone(h, es[1..], seen, o);
    }
  }

  // ----- Encoding the output again -----

  /** The value `v` in the heap `h` is an object tree for `j`. */
  predicate Represents(h: Heap, v: Val, j: Json)
    decreases j
  {
    match j
    case JPrim(p) => v == Prim(p)
    case JList(js) =>
      && v.Ref? && v.id in h && h[v.id].Sequence? && |h[v.id].items| == |js|
      && forall i :: 0 <= i < |js| ==> Represents(h, h[v.id].items[i], js[i])
    case JDict(ms) =>
      && v.Ref? && v.id in h && h[v.id].Dict? && |h[v.id].entries| == |ms|
      && forall i :: 0 <= i < |ms| ==>
           h[v.id].entries[i].0 == ms[i].key && Represents(h, h[v.id].entries[i].1, ms[i].value)
  }

  /** The output without the dict members that the options drop. */
  function Refilter(j: Json, o: Opts): Json
    decreases j, 0
  {
    match j
    case JPrim(_) => j
    case JList(js) => JList(RefilterItems(js, o))
    case JDict(ms) => JDict(RefilterMembers(ms, o))
  }

  function RefilterItems(js: seq<Json>, o: Opts): (r: seq<Json>)
    ensures |r| == |js| && forall i :: 0 <= i < |js| ==> r[i] == Refilter(js[i], o)
    decreases js, 1
  {
    if js == [] then [] else [Refilter(js[0], o)] + RefilterItems(js[1..], o)
  }

  function RefilterMembers(ms: seq<Member>, o: Opts): seq<Member>
    decreases ms, 1
  {
    if ms == [] then []
    else
      var m, rest := ms[0], RefilterMembers(ms[1..], o);
      assert (ms decreases to m) && (m decreases to m.value);
      if Allowed(o, m.key, m.value == NULL) then [Member(m.key, Refilter(m.value, Inner(o)))] + rest else rest
  }

  /** An object represents one tree only. */
  lemma {:induction false} RepresentsOne(h: Heap, v: Val, j: Json, k: Json)
    requires Represents(h, v, j) && Represents(h, v, k)
    ensures j == k
    decreases j
  {
    match j
    case JPrim(_) =>
    case JList(js) =>
      forall i | 0 <= i < |js|
        ensures js[i] == k.items[i]
      {
        RepresentsOne(h, h[v.id].items[i], js[i], k.items[i]);
      }
    case JDict(ms) =>
      forall i | 0 <= i < |ms|
        ensures ms[i] == k.members[i]
      {
        RepresentsOne(h, h[v.id].entries[i].1, ms[i].value, k.members[i].value);
      }
  }

  /** `j` occurs properly inside `k`. */
  predicate Inside(j: Json, k: Json)
    decreases k
  {
    match k
    case JPrim(_) => false
    case JList(js) => exists i :: 0 <= i < |js| && (js[i] == j || Inside(j, js[i]))
    case JDict(ms) => exists i :: 0 <= i < |ms| && (ms[i].value == j || Inside(j, ms[i].value))
  }

  lemma {:induction false} InsideTrans(a: Json, b: Json, c: Json)
    requires Inside(a, b) && Inside(b, c)
    ensures Inside(a, c)
    decreases c
  {
    match c
    case JList(js) =>
      var i :| 0 <= i < |js| && (js[i] == b || Inside(b, js[i]));
      if js[i] != b { InsideTrans(a, b, js[i]); }
    case JDict(ms) =>
      var i :| 0 <= i < |ms| && (ms[i].value == b || Inside(b, ms[i].value));
      if ms[i].value != b { InsideTrans(a, b, ms[i].value); }
  }

  lemma {:induction false} NotInsideItself(j: Json)
    ensures !Inside(j, j)
    decreases j
  {
    match j
    case JPrim(_) =>
    case JList(js) =>
      forall i | 0 <= i < |js|
        ensures js[i] != j && !Inside(j, js[i])
      {
        NotInsideItself(js[i]);
        if Inside(j, js[i]) {
          InsideTrans(js[i], j, js[i]);
        }
      }
    case JDict(ms) =>
      forall i | 0 <= i < |ms|
        ensures ms[i].value != j && !Inside(j, ms[i].value)
      {
        NotInsideItself(ms[i].value);
        if Inside(j, ms[i].value) {
          InsideTrans(ms[i].value, j, ms[i].value);
        }
      }
  }

  /** Each container on the path represents a tree that `j` lies inside. */
  predicate OnPath(h: Heap, trees: map<Id, Json>, j: Json) {
    forall id <- trees :: Represents(h, Ref(id), trees[id]) && Inside(j, trees[id])
  }

  lemma {:induction false} EncodeTree(h: Heap, v: Val, j: Json, trees: map<Id, Json>, o: Opts)
    requires Closed(h) && Known(h, v) && Represents(h, v, j) && OnPath(h, trees, j)
    ensures Enc(h, v, trees.Keys, o) == Refilter(j, o)
    decreases j, 1
  {
    if v.Ref? {
      if v.id in trees {
        RepresentsOne(h, v, j, trees[v.id]);
        NotInsideItself(j);
        assert false;
      }
      var trees' := trees[v.id := j];
      assert trees'.Keys == trees.Keys + {v.id};
      match j
      case JList(js) =>
        forall i | 0 <= i < |js|
          ensures Enc(h, h[v.id].items[i], trees'.Keys, o) == Refilter(js[i], o)
        {
          Deeper(h, v, j, js[i], trees);
          EncodeTree(h, h[v.id].items[i], js[i], trees', o);
        }
      case JDict(ms) => EncodeMembers(h, v, j, 0, trees', o);
    }
  }

  lemma Deeper(h: Heap, v: Val, j: Json, k: Json, trees: map<Id, Json>)
    requires v.Ref? && Represents(h, v, j) && OnPath(h, trees, j) && Inside(k, j)
    ensures OnPath(h, trees[v.id := j], k)
  {
    forall id <- trees
      ensures Inside(k, trees[id])
    {
      InsideTrans(k, j, trees[id]);
    }
  }

  lemma {:induction false} EncodeMembers(h: Heap, v: Val, j: Json, n: nat, trees: map<Id, Json>, o: Opts)
    requires Closed(h) && v.Ref? && j.JDict? && Represents(h, v, j) && n <= |j.members|
    requires v.id in trees && trees[v.id] == j && OnPath(h, trees - {v.id}, j)
    ensures EncEntries(h, h[v.id].entries[n..], trees.Keys, o) == RefilterMembers(j.members[n..], o)
    decreases j, 0, |j.members| - n
  {
    var es, ms := h[v.id].entries, j.members;
    if n < |ms| {
      assert es[n..][0] == es[n] && es[n..][1..] == es[n + 1..];
      assert ms[n..][0] == ms[n] && ms[n..][1..] == ms[n + 1..];
      assert es[n].0 == ms[n].key && Represents(h, es[n].1, ms[n].value);
      Deeper(h, v, j, ms[n].value, trees - {v.id});
      assert (trees - {v.id})[v.id := j] == trees;
      EncodeTree(h, es[n].1, ms[n].value, trees, Inner(o));
      EncodeMembers(h, v, j, n + 1, trees, o);
      assert es[n].1 == Prim(PNone) <==> ms[n].value == NULL;
      hide Enc, Refilter, Represents, OnPath, Allowed, Closed;
    }
  }

  /** No dict member, at any depth, that the options would drop. */
  predicate Kept(j: Json, o: Opts) {
    match j
    case JPrim(_) => true
    case JList(js) => forall i :: 0 <= i < |js| ==> Kept(js[i], o)
    case JDict(ms) =>
      forall i :: 0 <= i < |ms| ==> Allowed(o, ms[i].key, ms[i].value == NULL) && Kept(ms[i].value, Inner(o))
  }

  lemma {:induction false} RefilterShrinks(ms: seq<Member>, o: Opts)
    ensures |RefilterMembers(ms, o)| <= |ms|
  {
    if ms != [] {
      RefilterShrinks(ms[1..], o);
    }
  }

  lemma {:induction false} RefilterSameIff(j: Json, o: Opts)
    ensures Refilter(j, o) == j <==> Kept(j, o)
    decreases j, 0
  {
    match j
    case JPrim(_) =>
    case JList(js) =>
      forall i | 0 <= i < |js|
        ensures Refilter(js[i], o) == js[i] <==> Kept(js[i], o)
      {
        RefilterSameIff(js[i], o);
      }
    case JDict(ms) => RefilterMembersSameIff(ms, o);
  }

  lemma {:induction false} RefilterMembersSameIff(ms: seq<Member>, o: Opts)
    ensures RefilterMembers(ms, o) == ms <==> Kept(JDict(ms), o)
    decreases ms, 1
  {
    if ms != [] {
      RefilterSameIff(ms[0].value, Inner(o));
      RefilterMembersSameIff(ms[1..], o);
      RefilterShrinks(ms[1..], o);
      var rest := RefilterMembers(ms[1..], o);
      assert ms == [ms[0]] + ms[1..];
      if Allowed(o, ms[0].key, ms[0].value == NULL) {
        assert RefilterMembers(ms, o)[1..] == rest;
      }
    }
  }

  /** What one encoding keeps, the same options keep again, unless they drop None. */
  lemma {:induction false} KeptAgain(h: Heap, v: Val, seen: set<Id>, o: Opts)
    requires Closed(h) && Known(h, v) && !o.excludeNone
    ensures Kept(Enc(h, v, seen, o), o)
    decreases h.Keys - seen, 0
  {
    if v.Ref? && v.id !in seen {
      match h[v.id]
      case Sequence(vs) =>
        forall i | 0 <= i < |vs|
          ensures Kept(Enc(h, vs[i], seen + {v.id}, o), o)
        {
          KeptAgain(h, vs[i], seen + {v.id}, o);
        }
      case _ => MembersKeptAgain(h, EntriesOf(h[v.id]), seen + {v.id}, o);
    }
  }

  lemma {:induction false} MembersKeptAgain(h: Heap, es: Entries, seen: set<Id>, o: Opts)
    requires Closed(h) && KnownEntries(h, es) && !o.excludeNone
    ensures Kept(JDict(EncEntries(h, es, seen, o)), o)
    decreases h.Keys - seen, 1 + |es|
  {
    if es != [] {
      KeptAgain(h, es[0].1, seen, Inner(o));
      MembersKeptAgain(h, es[1..], seen, o);
    }
  }

  /**
   * Encoding the output again, in whatever heap it lies and with whatever options,
   * changes nothing exactly when no member of it is one that the options drop. So it is
   * a fixed point of the options it was made with, include and exclude among them,
   * unless they drop None; and of the default options if it was made safe.
   */
  lemma ReencodeSameIff(h: Heap, v: Val, h': Heap, v': Val, o: Opts, o': Opts)
    requires Closed(h) && Known(h, v) && Closed(h') && Known(h', v')
    requires Represents(h', v', Enc(h, v, {}, o))
    ensures Enc(h', v', {}, o') == Enc(h, v, {}, o) <==> Kept(Enc(h, v, {}, o), o')
    ensures o' == o && !o.excludeNone ==> Enc(h', v', {}, o') == Enc(h, v, {}, o)
    ensures o.saSafe && o' == Inner(o') && !o'.excludeNone ==> Enc(h', v', {}, o') == Enc(h, v, {}, o)
  {
    ReencodeTree(h', v', Enc(h, v, {}, o), o');
    if !o.excludeNone {
      KeptAgain(h, v, {}, o);
    }
    if o.saSafe && o' == Inner(o') && !o'.excludeNone {
      SaKeysGone(h, v, {}, o);
      hide Enc;
      NoSaKeysKept(Enc(h, v, {}, o), o');
    }
  }

  lemma ReencodeTree(h: Heap, v: Val, j: Json, o: Opts)
    requires Closed(h) && Known(h, v) && Represents(h, v, j)
    ensures Enc(h, v, {}, o) == j <==> Kept(j, o)
  {
    var none: map<Id, Json> := map[];
    EncodeTree(h, v, j, none, o);
    assert none.Keys == {};
    RefilterSameIff(j, o);
  }

  lemma {:induction false} NoSaKeysKept(j: Json, o: Opts)
    requires NoSaKeys(j) && o == Inner(o) && !o.excludeNone
    ensures Kept(j, o)
    decreases j
  {
    match j
    case JPrim(_) =>
    case JList(js) => forall i | 0 <= i < |js| ensures Kept(js[i], o) { NoSaKeysKept(js[i], o); }
    case JDict(ms) => forall i | 0 <= i < |ms| ensures Kept(ms[i].value, o) { NoSaKeysKept(ms[i].value, o); }
  }

  // ----- With exclude_none: the back edges that make a second encoding differ -----

  /** As in every Python dict or dataclass, no key occurs twice. */
  predicate DistinctKeys(es: Entries) {
    forall i, j :: 0 <= i < j < |es| ==> es[i].0 != es[j].0
  }

  predicate KeysDistinct(h: Heap) {
    forall id <- h :: !h[id].Sequence? ==> DistinctKeys(EntriesOf(h[id]))
  }

  /** The path runs through new containers only and then, by a dict key, back into one of them or one already seen. */
  predicate BackMember(h: Heap, v: Val, seen: set<Id>, o: Opts, hops: seq<Hop>)
    requires Closed(h) && Known(h, v)
  {
    && hops != [] && hops[|hops| - 1].Key?
    && var a := Walk(h, v, o, hops);
       a.Some? && Simple(a.value.trail, seen) && a.value.at.Ref? && a.value.at.id in seen + Elements(a.value.trail)
  }

  lemma BackMemberStep(h: Heap, v: Val, seen: set<Id>, o: Opts, hops: seq<Hop>)
    requires Closed(h) && Known(h, v) && |hops| > 1 && v.Ref? && v.id !in seen
    requires Child(h, v, o, hops[0]).Some?
    ensures BackMember(h, v, seen, o, hops) <==>
            BackMember(h, Child(h, v, o, hops[0]).value, seen + {v.id}, ChildOpts(h, v, o), hops[1..])
  {
    var w, o' := Child(h, v, o, hops[0]).value, ChildOpts(h, v, o);
    hide Child, ChildOpts;
    var a := Walk(h, w, o', hops[1..]);
    if a.Some? {
      var t := a.value.trail;
      assert ([v.id] + t)[1..] == t;
      assert seen + {v.id} + Elements(t) == seen + Elements([v.id] + t);
    }
  }

  /** One hop by a key: into a container already seen, or into the one just left. */
  lemma BackMemberEnd(h: Heap, v: Val, seen: set<Id>, o: Opts, k: Prim)
    requires Closed(h) && Known(h, v)
    ensures BackMember(h, v, seen, o, [Key(k)]) <==>
              && v.Ref? && v.id !in seen
              && var w := Child(h, v, o, Key(k)); w.Some? && w.value.Ref? && w.value.id in seen + {v.id}
  {
    var hops := [Key(k)];
    assert hops[1..] == [];
    hide Child, ChildOpts;
    if v.Ref? && Child(h, v, o, hops[0]).Some? {
      var w, o', t := Child(h, v, o, hops[0]).value, ChildOpts(h, v, o), [v.id] + [];
      assert Walk(h, w, o', []) == Some(Arrival(w, [], o'));
      assert Walk(h, v, o, hops) == Some(Arrival(w, t, o'));
      assert t[1..] == [] && Simple([], seen + {v.id});
      assert Elements(t) == {v.id};
    }
  }

  lemma {:induction false} FoundMember(ms: seq<Member>, k: Prim)
    requires FindKey(ms, k).Some?
    ensures exists i :: 0 <= i < |ms| && ms[i] == Member(k, FindKey(ms, k).value)
  {
    if ms[0].key != k {
      FoundMember(ms[1..], k);
      var i :| 0 <= i < |ms[1..]| && ms[1..][i] == Member(k, FindKey(ms, k).value);
      assert ms[i + 1] == Member(k, FindKey(ms, k).value);
    } else {
      assert ms[0] == Member(k, FindKey(ms, k).value);
    }
  }

  /** What one hop leads to is part of the output, and not kept there if it is not kept itself. */
  lemma ChildNotKept(h: Heap, v: Val, seen: set<Id>, o: Opts, hop: Hop)
    requires Closed(h) && Known(h, v) && v.Ref? && v.id !in seen && Child(h, v, o, hop).Some? && o.excludeNone
    requires var e := Enc(h, Child(h, v, o, hop).value, seen + {v.id}, ChildOpts(h, v, o));
             !Kept(e, ChildOpts(h, v, o)) || (hop.Key? && e == NULL)
    ensures !Kept(Enc(h, v, seen, o), o)
  {
    var seen' := seen + {v.id};
    if h[v.id].Sequence? {
      assert Enc(h, v, seen, o) == JList(EncItems(h, h[v.id].items, seen', o));
    } else {
      FindEncoded(h, EntriesOf(h[v.id]), seen', o, hop.k);
      var ms := EncEntries(h, EntriesOf(h[v.id]), seen', o);
      assert Enc(h, v, seen, o) == JDict(ms);
      FoundMember(ms, hop.k);
    }
  }

  lemma {:induction false} BackMemberNotKept(h: Heap, v: Val, seen: set<Id>, o: Opts, hops: seq<Hop>)
    requires Closed(h) && Known(h, v) && o.excludeNone && BackMember(h, v, seen, o, hops)
    ensures !Kept(Enc(h, v, seen, o), o)
    decreases |hops|
  {
    hide Enc, Kept, FindEntry;
    var child := Child(h, v, o, hops[0]);
    if |hops| == 1 {
      assert hops == [Key(hops[0].k)];
      BackMemberEnd(h, v, seen, o, hops[0].k);
      SeenIsNull(h, child.value, seen + {v.id}, ChildOpts(h, v, o));
    } else {
      assert v.Ref? && v.id !in seen && child.Some?;
      BackMemberStep(h, v, seen, o, hops);
      BackMemberNotKept(h, child.value, seen + {v.id}, ChildOpts(h, v, o), hops[1..]);
    }
    ChildNotKept(h, v, seen, o, hops[0]);
  }

  lemma SeenIsNull(h: Heap, v: Val, seen: set<Id>, o: Opts)
    requires Closed(h) && Known(h, v) && v.Ref?
    ensures Enc(h, v, seen, o) == NULL <==> v.id in seen
  {
  }

  /** A dict member that a second encoding drops lies at the end of such a path. */
  lemma {:induction false} NotKeptBackMember(h: Heap, v: Val, seen: set<Id>, o: Opts) returns (hops: seq<Hop>)
    requires Closed(h) && KeysDistinct(h) && Known(h, v) && o.excludeNone && !Kept(Enc(h, v, seen, o), o)
    ensures BackMember(h, v, seen, o, hops)
    decreases h.Keys - seen
  {
    var seen', o' := seen + {v.id}, ChildOpts(h, v, o);
    if h[v.id].Sequence? {
      var vs := h[v.id].items;
      assert Enc(h, v, seen, o) == JList(EncItems(h, vs, seen', o));
      var i :| 0 <= i < |vs| && !Kept(Enc(h, vs[i], seen', o), o);
      hide Enc, Kept;
      var rest := NotKeptBackMember(h, vs[i], seen', o');
      hops := [Index(i)] + rest;
      assert Child(h, v, o, hops[0]) == Some(vs[i]) && hops[1..] == rest;
      BackMemberStep(h, v, seen, o, hops);
    } else {
      var es := EntriesOf(h[v.id]);
      assert Enc(h, v, seen, o) == JDict(EncEntries(h, es, seen', o));
      var i := DroppedEntry(h, es, seen', o);
      FindOnly(es, o, i);
      hide Enc, Kept, FindEntry;
      if es[i].1.Ref? && es[i].1.id in seen' {
        hops := [Key(es[i].0)];
        BackMemberEnd(h, v, seen, o, es[i].0);
      } else {
        var rest := NotKeptBackMember(h, es[i].1, seen', o');
        hops := [Key(es[i].0)] + rest;
        assert Child(h, v, o, hops[0]) == Some(es[i].1) && hops[1..] == rest;
        BackMemberStep(h, v, seen, o, hops);
      }
    }
  }

  /** The entry behind a member that is dropped, or that has something dropped inside. */
  lemma {:induction false} DroppedEntry(h: Heap, es: Entries, seen: set<Id>, o: Opts) returns (i: nat)
    requires Closed(h) && KnownEntries(h, es) && o.excludeNone && !Kept(JDict(EncEntries(h, es, seen, o)), o)
    ensures i < |es| && Known(h, es[i].1) && Allowed(o, es[i].0, es[i].1 == Prim(PNone))
    ensures (es[i].1.Ref? && es[i].1.id in seen) || !Kept(Enc(h, es[i].1, seen, Inner(o)), Inner(o))
    decreases |es|
  {
    var rest := EncEntries(h, es[1..], seen, o);
    assert es != [] && es[0] in es;
    if Allowed(o, es[0].0, es[0].1 == Prim(PNone)) {
      var m := Member(es[0].0, Enc(h, es[0].1, seen, Inner(o)));
      assert EncEntries(h, es, seen, o) == [m] + rest;
      if m.value == NULL || !Kept(m.value, Inner(o)) {
        return 0;
      }
      hide Enc;
      assert !Kept(JDict(rest), o);
    }
    i := DroppedEntry(h, es[1..], seen, o);
    i := i + 1;
  }

  lemma {:induction false} FindOnly(es: Entries, o: Opts, i: nat)
    requires DistinctKeys(es) && i < |es| && Allowed(o, es[i].0, es[i].1 == Prim(PNone))
    ensures FindEntry(es, o, es[i].0) == Some(es[i].1)
  {
    if i > 0 {
      assert es[0].0 != es[i].0;
      FindOnly(es[1..], o, i - 1);
    }
  }

  /**
   * With `exclude_none`, encoding the output again with the same options changes it
   * exactly when some path through the graph, entering no container twice, ends with a
   * dict entry that leads back to a container on the path.
   */
  lemma ReencodeChangesIffBackMember(h: Heap, v: Val, h': Heap, v': Val, o: Opts)
    requires Closed(h) && KeysDistinct(h) && Known(h, v) && Closed(h') && Known(h', v')
    requires Represents(h', v', Enc(h, v, {}, o)) && o.excludeNone
    ensures Enc(h', v', {}, o) != Enc(h, v, {}, o) <==> exists hops :: BackMember(h, v, {}, o, hops)
  {
    ReencodeTree(h', v', Enc(h, v, {}, o), o);
    hide Enc, BackMember;
    if hops :| BackMember(h, v, {}, o, hops) {
      BackMemberNotKept(h, v, {}, o, hops);
    }
    if !Kept(Enc(h, v, {}, o), o) {
      var hops := NotKeptBackMember(h, v, {}, o);
    }
  }

  /** A dict that contains itself: encoding it with `exclude_none` is not idempotent. */
  lemma ExcludeNoneNotIdempotent()
    ensures var o := DEFAULTS.(excludeNone := true);
            var h: Heap := map[0 := Dict([(PStr("me"), Ref(0))])];
            var h': Heap := map[0 := Dict([(PStr("me"), Prim(PNone))])];
            && Closed(h) && Closed(h') && Represents(h', Ref(0), Enc(h, Ref(0), {}, o))
            && Enc(h', Ref(0), {}, o) != Enc(h, Ref(0), {}, o)
  {
    var o := DEFAULTS.(excludeNone := true);
    var es: Entries := [(PStr("me"), Ref(0))];
    var h: Heap := map[0 := Dict(es)];
    assert es[1..] == [] && !SaKey(PStr("me")) by { assert "me"[0] != '_'; }
    assert EncEntries(h, es, {0}, o) == [Member(PStr("me"), NULL)];
    assert {} + {0} == {0};
    assert Enc(h, Ref(0), {}, o) == JDict([Member(PStr("me"), NULL)]);
    var es': Entries := [(PStr("me"), Prim(PNone))];
    var h': Heap := map[0 := Dict(es')];
    assert es'[1..] == [] && EncEntries(h', es', {0}, o) == [];
    assert Enc(h', Ref(0), {}, o) == JDict([]);
  }

  // ----- What one container encodes to -----

  lemma {:induction false} FindDropped(es: Entries, o: Opts, k: Prim)
    requires forall e <- es :: e.0 == k ==> !Allowed(o, k, e.1 == Prim(PNone))
    ensures FindEntry(es, o, k) == None
  {
    if es != [] {
      assert es[0] in es;
      FindDropped(es[1..], o, k);
    }
  }

  /**
   * The entry `i` is found in the output, under its key, exactly when the options keep
   * it. `include` and `exclude` do not reach into its value.
   */
  lemma EntryEncoded(h: Heap, es: Entries, i: nat, seen: set<Id>, o: Opts)
    requires Closed(h) && KnownEntries(h, es) && DistinctKeys(es) && i < |es|
    ensures Known(h, es[i].1)
    ensures var (k, v) := es[i];
            var r := FindKey(EncEntries(h, es, seen, o), k);
            && (r.Some? <==>
                  && !(o.saSafe && k.PStr? && "_sa" <= k.s)
                  && !(o.excludeNone && v == Prim(PNone))
                  && (o.only.Some? ==> k in o.only.value)
                  && (o.without.Some? ==> k !in o.without.value))
            && (r.Some? ==> r.value == Enc(h, v, seen, Opts(None, None, o.excludeNone, o.saSafe)))
  {
    assert es[i] in es;
    FindEncoded(h, es, seen, o, es[i].0);
    hide Enc, EncEntries, FindKey;
    if Allowed(o, es[i].0, es[i].1 == Prim(PNone)) {
      FindOnly(es, o, i);
    } else {
      FindDropped(es, o, es[i].0);
    }
  }

  /** No key of the output is made up. */
  lemma NoOtherKey(h: Heap, es: Entries, k: Prim, seen: set<Id>, o: Opts)
    requires Closed(h) && KnownEntries(h, es) && forall e <- es :: e.0 != k
    ensures FindKey(EncEntries(h, es, seen, o), k) == None
  {
    FindDropped(es, o, k);
    FindEncoded(h, es, seen, o, k);
  }

  /**
   * A dataclass instance encodes as the dict that binds the name of each of its fields,
   * in declaration order, to the value of that field.
   */
  lemma RecordEncodesAsDict(h: Heap, id: Id, es: Entries, seen: set<Id>, o: Opts)
    requires Closed(h) && id in h && h[id].Record? && id !in seen && |es| == |h[id].fields|
    requires forall i :: 0 <= i < |es| ==> es[i] == (PStr(h[id].fields[i].0), h[id].fields[i].1)
    ensures KnownEntries(h, es) && Enc(h, Ref(id), seen, o) == JDict(EncEntries(h, es, seen + {id}, o))
  {
    assert EntriesOf(h[id]) == es;
  }

  /** The value of the field `i` is found in the output under the name of the field `i`. */
  lemma FieldEncoded(h: Heap, id: Id, i: nat, seen: set<Id>, o: Opts)
    requires Closed(h) && id in h && h[id].Record? && id !in seen && i < |h[id].fields|
    requires forall j, k :: 0 <= j < k < |h[id].fields| ==> h[id].fields[j].0 != h[id].fields[k].0
    ensures var (name, v) := h[id].fields[i];
            var r := Select(Enc(h, Ref(id), seen, o), [Key(PStr(name))]);
            && Known(h, v)
            && (r.Some? <==>
                  && !(o.saSafe && "_sa" <= name)
                  && !(o.excludeNone && v == Prim(PNone))
                  && (o.only.Some? ==> PStr(name) in o.only.value)
                  && (o.without.Some? ==> PStr(name) !in o.without.value))
            && (r.Some? ==> r.value == Enc(h, v, seen + {id}, Opts(None, None, o.excludeNone, o.saSafe)))
  {
    var fs := h[id].fields;
    var es: Entries := seq(|fs|, j requires 0 <= j < |fs| => (PStr(fs[j].0), fs[j].1));
    RecordEncodesAsDict(h, id, es, seen, o);
    EntryEncoded(h, es, i, seen + {id}, o);
    SelectKey(EncEntries(h, es, seen + {id}, o), es[i].0);
  }

  lemma SelectKey(ms: seq<Member>, k: Prim)
    ensures Select(JDict(ms), [Key(k)]) == FindKey(ms, k)
  {
    assert [Key(k)][1..] == [];
  }

  /** A sequence encodes position by position, with the options it was given. */
  lemma ItemEncoded(h: Heap, id: Id, i: nat, seen: set<Id>, o: Opts)
    requires Closed(h) && id in h && h[id].Sequence? && id !in seen
    ensures var r := Select(Enc(h, Ref(id), seen, o), [Index(i)]);
            && (r.Some? <==> i < |h[id].items|)
            && (r.Some? ==> Known(h, h[id].items[i]) && r.value == Enc(h, h[id].items[i], seen + {id}, o))
  {
    assert [Index(i)][1..] == [];
    assert forall j <- h[id].items :: Known(h, j);
  }
}
