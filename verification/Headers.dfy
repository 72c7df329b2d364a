/** `MutableHeaders`: a list of raw headers with an index from lower-case name to position. */
module Headers {
  import opened Common
  import opened Text

  type Raw = seq<(string, string)>

  datatype Table = Table(raw: Raw, index: map<string, nat>)

  function NameAt(raw: Raw, i: nat): string
    requires i < |raw|
  {
    Lower(raw[i].0)
  }

  lemma LowerTwice(s: string)
    ensures Lower(Lower(s)) == Lower(s)
  {
    forall i | 0 <= i < |s| ensures Lower(Lower(s))[i] == Lower(s)[i] {
      assert LowerChar(LowerChar(s[i])) == LowerChar(s[i]);
    }
  }

  // ----- Operations on the table -----

  /** The index a constructor builds: each name at its last position. */
  function IndexOf(raw: Raw): (m: map<string, nat>)
  {
    if raw == [] then map[] else IndexOf(raw[..|raw| - 1])[NameAt(raw, |raw| - 1) := |raw| - 1]
  }

  /** The index holds exactly the names of the list, each at the last position of that name. */
  lemma {:induction false} IndexOfIsLast(raw: Raw)
    ensures forall k <- IndexOf(raw) :: IndexOf(raw)[k] < |raw| && NameAt(raw, IndexOf(raw)[k]) == k
    ensures forall i :: 0 <= i < |raw| ==> NameAt(raw, i) in IndexOf(raw) && i <= IndexOf(raw)[NameAt(raw, i)]
    decreases |raw|
  {
    hide Lower;
    if raw != [] {
      var rest := raw[..|raw| - 1];
      IndexOfIsLast(rest);
      assert forall i :: 0 <= i < |rest| ==> NameAt(rest, i) == NameAt(raw, i);
      hide NameAt;
    }
  }

  function Set(t: Table, key: string, value: string): Table {
    var k := Lower(key);
    if k in t.index && t.index[k] < |t.raw| then t.(raw := t.raw[t.index[k] := (k, value)])
    else Table(t.raw + [(k, value)], t.index[k := |t.raw|])
  }

  /** Only the first occurrence of a name is indexed. */
  function Append(t: Table, key: string, value: string): Table {
    var k := Lower(key);
    Table(t.raw + [(k, value)], if k in t.index then t.index else t.index[k := |t.raw|])
  }

  function Shift(index: map<string, nat>, at: nat): map<string, nat> {
    map k | k in index :: if index[k] > at then index[k] - 1 else index[k]
  }

  /** None is the `KeyError` of an unknown name. */
  function Delete(t: Table, key: string): Option<Table> {
    var k := Lower(key);
    if k !in t.index || t.index[k] >= |t.raw| then None
    else
      var at := t.index[k];
      Some(Table(t.raw[..at] + t.raw[at + 1..], Shift(t.index - {k}, at)))
  }

  function Update(t: Table, pairs: seq<(string, string)>): Table
    decreases |pairs|
  {
    if pairs == [] then t else Update(Set(t, pairs[0].0, pairs[0].1), pairs[1..])
  }

  function Get(t: Table, key: string): Option<string> {
    var k := Lower(key);
    if k in t.index && t.index[k] < |t.raw| then Some(t.raw[t.index[k]].1) else None
  }

  function GetList(raw: Raw, key: string): seq<string> {
    if raw == [] then []
    else (if NameAt(raw, 0) == Lower(key) then [raw[0].1] else []) + GetList(raw[1..], key)
  }

  // ----- Runs -----

  datatype Op = SetOp(key: string, value: string) | AppendOp(key: string, value: string)
              | DeleteOp(key: string) | UpdateOp(pairs: seq<(string, string)>)

  function Step(t: Table, op: Op): Table {
    match op
    case SetOp(k, v) => Set(t, k, v)
    case AppendOp(k, v) => Append(t, k, v)
    case DeleteOp(k) => (match Delete(t, k) case Some(t') => t' case None => t)
    case UpdateOp(ps) => Update(t, ps)
  }

  function Run(t: Table, ops: seq<Op>): Table
    decreases |ops|
  {
    if ops == [] then t else Run(Step(t, ops[0]), ops[1..])
  }

  /** Every index entry points into the list, to a header of that name. */
  predicate Sound(t: Table) {
    forall k <- t.index :: t.index[k] < |t.raw| && NameAt(t.raw, t.index[k]) == k
  }

  /** Every name in the list is indexed. */
  predicate Complete(t: Table) {
    forall i :: 0 <= i < |t.raw| ==> NameAt(t.raw, i) in t.index
  }

  predicate Duplicated(raw: Raw, k: string) {
    exists i, j :: 0 <= i < j < |raw| && NameAt(raw, i) == k && NameAt(raw, j) == k
  }

  lemma SetKeeps(t: Table, key: string, value: string)
    requires Sound(t)
    ensures Sound(Set(t, key, value)) && (Complete(t) ==> Complete(Set(t, key, value)))
    ensures Get(Set(t, key, value), key) == Some(value)
  {
    LowerTwice(key);
    hide Lower;
    var k, t' := Lower(key), Set(t, key, value);
    if k in t.index {
      assert forall i :: 0 <= i < |t.raw| ==> NameAt(t'.raw, i) == NameAt(t.raw, i);
    } else {
      assert forall i :: 0 <= i < |t.raw| ==> NameAt(t'.raw, i) == NameAt(t.raw, i);
      assert NameAt(t'.raw, |t.raw|) == k;
    }
  }

  lemma AppendKeeps(t: Table, key: string, value: string)
    requires Sound(t)
    ensures Sound(Append(t, key, value)) && (Complete(t) ==> Complete(Append(t, key, value)))
  {
    LowerTwice(key);
    hide Lower;
    var t' := Append(t, key, value);
    assert forall i :: 0 <= i < |t.raw| ==> NameAt(t'.raw, i) == NameAt(t.raw, i);
    assert NameAt(t'.raw, |t.raw|) == Lower(key);
  }

  /** Where the headers go when one is removed. */
  lemma RemovedNames(raw: Raw, at: nat)
    requires at < |raw|
    ensures var raw' := raw[..at] + raw[at + 1..];
            forall i :: 0 <= i < |raw'| ==> NameAt(raw', i) == NameAt(raw, if i < at then i else i + 1)
  {
  }

  lemma DeleteSound(t: Table, key: string)
    requires Sound(t) && Delete(t, key).Some?
    ensures Sound(Delete(t, key).value)
  {
    hide Lower;
    var k := Lower(key);
    var at, t' := t.index[k], Delete(t, key).value;
    RemovedNames(t.raw, at);
    forall n <- t'.index
      ensures t'.index[n] < |t'.raw| && NameAt(t'.raw, t'.index[n]) == n
    {
      assert n in t.index && n != k && t.index[n] != at;
    }
  }

  /** After a deletion every remaining name is indexed exactly when the deleted one was not duplicated. */
  lemma DeleteCompleteIff(t: Table, key: string)
    requires Sound(t) && Complete(t) && Delete(t, key).Some?
    ensures Complete(Delete(t, key).value) <==> !Duplicated(t.raw, Lower(key))
  {
    hide Lower;
    var k := Lower(key);
    var at, t' := t.index[k], Delete(t, key).value;
    RemovedNames(t.raw, at);
    assert t'.index.Keys == t.index.Keys - {k};
    if i, j :| 0 <= i < j < |t.raw| && NameAt(t.raw, i) == k && NameAt(t.raw, j) == k {
      var other := if i == at then j else i;
      var p := if other < at then other else other - 1;
      assert NameAt(t'.raw, p) == k;
    } else {
      forall p | 0 <= p < |t'.raw| ensures NameAt(t'.raw, p) in t'.index {
        var q := if p < at then p else p + 1;
        assert NameAt(t.raw, at) == k && NameAt(t'.raw, p) == NameAt(t.raw, q);
        assert q < at || at < q;
      }
    }
  }

  /** Two headers of one name: after a deletion the list still has the other, and the index does not. */
  lemma DeletedNameStays()
    ensures var raw: Raw := [("a", "1"), ("a", "2")];
            var t := Delete(Table(raw, IndexOf(raw)), "a");
            t.Some? && t.value.raw == [("a", "1")] && GetList(t.value.raw, "a") == ["1"] && Get(t.value, "a") == None
  {
    var one: Raw, raw: Raw := [("a", "1")], [("a", "1"), ("a", "2")];
    assert Lower("a") == "a";
    assert raw[..1] == one && one[..0] == [];
    assert IndexOf(one) == IndexOf([])["a" := 0] && IndexOf(raw) == IndexOf(one)["a" := 1];
    assert raw[..1] + raw[2..] == one;
    assert one[1..] == [] && GetList(one, "a") == ["1"] + GetList([], "a");
  }

  lemma {:induction false} UpdateKeeps(t: Table, pairs: seq<(string, string)>)
    requires Sound(t)
    ensures Sound(Update(t, pairs)) && (Complete(t) ==> Complete(Update(t, pairs)))
    decreases |pairs|
  {
    hide Set;
    if pairs != [] {
      SetKeeps(t, pairs[0].0, pairs[0].1);
      UpdateKeeps(Set(t, pairs[0].0, pairs[0].1), pairs[1..]);
    }
  }

  // ----- What a lookup finds, whatever the case of the letters -----

  /** Equal but for the case of the letters a to z. */
  predicate SameName(a: string, b: string) {
    |a| == |b| && forall i :: 0 <= i < |a| ==>
      || a[i] == b[i]
      || (65 <= a[i] as int <= 90 && b[i] as int == a[i] as int + 32)
      || (65 <= b[i] as int <= 90 && a[i] as int == b[i] as int + 32)
  }

  lemma SameNameIff(a: string, b: string)
    ensures SameName(a, b) <==> Lower(a) == Lower(b)
  {
    if Lower(a) == Lower(b) {
      forall i | 0 <= i < |a|
        ensures |a| == |b| && LowerChar(a[i]) == LowerChar(b[i])
      {
        assert Lower(a)[i] == Lower(b)[i];
      }
    }
  }

  /** What is set is found under every spelling of its name; all other names keep their values. */
  lemma SetThenGet(t: Table, key: string, value: string, other: string)
    requires Sound(t)
    ensures Get(Set(t, key, value), other) == if SameName(key, other) then Some(value) else Get(t, other)
  {
    SameNameIff(key, other);
    hide Lower, SameName;
    if Lower(other) in t.index {
      assert NameAt(t.raw, t.index[Lower(other)]) == Lower(other);
    }
    if Lower(key) in t.index {
      assert NameAt(t.raw, t.index[Lower(key)]) == Lower(key);
    }
  }

  /** An appended header stands last, and is found if its name is new; what was found before still is. */
  lemma AppendThenGet(t: Table, key: string, value: string, other: string)
    requires Sound(t)
    ensures var t' := Append(t, key, value);
            && |t'.raw| == |t.raw| + 1 && t.raw <= t'.raw
            && t'.raw[|t.raw|].1 == value && SameName(t'.raw[|t.raw|].0, key)
            && Get(t', other) == if SameName(key, other) && Get(t, key) == None then Some(value) else Get(t, other)
  {
    SameNameIff(key, other);
    SameNameIff(Lower(key), key);
    LowerTwice(key);
    hide Lower, SameName;
  }

  /** All values of a name, in order: the appended one joins those of its own name, behind them. */
  lemma AppendThenGetList(t: Table, key: string, value: string, other: string)
    ensures GetList(Append(t, key, value).raw, other)
            == GetList(t.raw, other) + if SameName(key, other) then [value] else []
  {
    SameNameIff(key, other);
    LowerTwice(key);
    hide Lower, SameName;
    GetListSnoc(t.raw, (Lower(key), value), other);
  }

  lemma {:induction false} GetListSnoc(raw: Raw, h: (string, string), key: string)
    ensures GetList(raw + [h], key) == GetList(raw, key) + if Lower(h.0) == Lower(key) then [h.1] else []
  {
    hide Lower;
    if raw == [] {
      assert raw + [h] == [h] && [h][1..] == [];
    } else {
      assert (raw + [h])[1..] == raw[1..] + [h];
      GetListSnoc(raw[1..], h, key);
    }
  }

  /** A deletion takes out the very entry that a lookup finds, and fails exactly when a lookup does. */
  lemma DeleteTakesFound(t: Table, key: string)
    requires Sound(t)
    ensures Delete(t, key).None? <==> Get(t, key) == None
    ensures Delete(t, key).Some? ==>
              exists at | 0 <= at < |t.raw| ::
                && SameName(t.raw[at].0, key) && Get(t, key) == Some(t.raw[at].1)
                && Delete(t, key).value.raw == t.raw[..at] + t.raw[at + 1..]
  {
    hide Lower;
    if Delete(t, key).Some? {
      var at := t.index[Lower(key)];
      assert NameAt(t.raw, at) == Lower(key);
      SameNameIff(t.raw[at].0, key);
    }
  }

  /** No deletion of the run hits a name that stands twice in the list. */
  predicate DeletesUnique(t: Table, ops: seq<Op>)
    decreases |ops|
  {
    ops != [] ==>
      (ops[0].DeleteOp? ==> !Duplicated(t.raw, Lower(ops[0].key))) && DeletesUnique(Step(t, ops[0]), ops[1..])
  }

  lemma {:induction false} RunFrom(t: Table, ops: seq<Op>)
    requires Sound(t)
    ensures Sound(Run(t, ops))
    ensures Complete(t) && DeletesUnique(t, ops) ==> Complete(Run(t, ops))
    decreases |ops|
  {
    hide Sound;
    hide Complete;
    hide Duplicated;
    hide Lower;
    if ops != [] {
      match ops[0] {
        case SetOp(k, v) => SetKeeps(t, k, v);
        case AppendOp(k, v) => AppendKeeps(t, k, v);
        case UpdateOp(ps) => UpdateKeeps(t, ps);
        case DeleteOp(k) =>
          if Delete(t, k).Some? {
            DeleteSound(t, k);
            if Complete(t) {
              DeleteCompleteIff(t, k);
            }
          }
      }
      hide Step;
      RunFrom(Step(t, ops[0]), ops[1..]);
    }
  }

  lemma {:induction false} GetListEmptyIff(raw: Raw, key: string)
    ensures GetList(raw, key) == [] <==> forall i :: 0 <= i < |raw| ==> NameAt(raw, i) != Lower(key)
  {
    hide Lower;
    if raw != [] {
      GetListEmptyIff(raw[1..], key);
      assert forall i :: 0 <= i < |raw[1..]| ==> NameAt(raw[1..], i) == NameAt(raw, i + 1);
      assert forall i :: 0 < i < |raw| ==> NameAt(raw, i) == NameAt(raw[1..], i - 1);
    }
  }

  /**
   * Over every run from any header list the index stays sound; and if no deletion hits
   * a duplicated name, membership by index agrees with the headers in the list.
   */
  lemma IndexSoundOverRuns(raw: Raw, ops: seq<Op>, key: string)
    ensures var t := Run(Table(raw, IndexOf(raw)), ops);
            && Sound(t)
            && (Lower(key) in t.index ==> GetList(t.raw, key) != [])
            && (DeletesUnique(Table(raw, IndexOf(raw)), ops) ==>
                  (Lower(key) in t.index <==> GetList(t.raw, key) != []))
  {
    var t0 := Table(raw, IndexOf(raw));
    IndexOfIsLast(raw);
    assert Sound(t0) && Complete(t0);
    RunFrom(t0, ops);
    var t := Run(t0, ops);
    hide Run;
    hide Lower;
    GetListEmptyIff(t.raw, key);
    if Lower(key) in t.index {
      assert NameAt(t.raw, t.index[Lower(key)]) == Lower(key);
    }
  }

  // ----- With unique names: an ordered map -----

  /** The list with lower-case names: an association list. */
  function Assoc(raw: Raw): (r: Raw)
    ensures |r| == |raw| && forall i :: 0 <= i < |raw| ==> r[i] == (NameAt(raw, i), raw[i].1)
  {
    seq(|raw|, i requires 0 <= i < |raw| => (NameAt(raw, i), raw[i].1))
  }

  predicate Unique(raw: Raw) {
    forall i, j :: 0 <= i < j < |raw| ==> NameAt(raw, i) != NameAt(raw, j)
  }

  /** Plain ordered-map operations on association lists: in place or at the end; removal closes the gap. */
  function MapSet(m: Raw, k: string, v: string): Raw {
    if m == [] then [(k, v)] else if m[0].0 == k then [(k, v)] + m[1..] else [m[0]] + MapSet(m[1..], k, v)
  }

  function MapDelete(m: Raw, k: string): Raw {
    if m == [] then [] else if m[0].0 == k then m[1..] else [m[0]] + MapDelete(m[1..], k)
  }

  function MapGet(m: Raw, k: string): Option<string> {
    if m == [] then None else if m[0].0 == k then Some(m[0].1) else MapGet(m[1..], k)
  }

  lemma {:induction false} MapAt(m: Raw, k: string, v: string, i: nat)
    requires i <= |m| && forall j :: 0 <= j < i ==> m[j].0 != k
    ensures i < |m| && m[i].0 == k ==>
              && MapSet(m, k, v) == m[i := (k, v)] && MapDelete(m, k) == m[..i] + m[i + 1..]
              && MapGet(m, k) == Some(m[i].1)
    ensures i == |m| ==> MapSet(m, k, v) == m + [(k, v)] && MapDelete(m, k) == m && MapGet(m, k) == None
    decreases i
  {
    if i > 0 {
      assert forall j :: 0 <= j < i - 1 ==> m[1..][j] == m[j + 1];
      MapAt(m[1..], k, v, i - 1);
      assert m == [m[0]] + m[1..];
    }
  }

  /** A sound and complete index over unique names finds the one position of a name. */
  lemma FindPosition(t: Table, key: string) returns (i: nat)
    requires Sound(t) && Complete(t) && Unique(t.raw)
    ensures i <= |t.raw| && forall j :: 0 <= j < i ==> NameAt(t.raw, j) != Lower(key)
    ensures Lower(key) in t.index ==> i == t.index[Lower(key)] && i < |t.raw| && NameAt(t.raw, i) == Lower(key)
    ensures Lower(key) !in t.index ==> i == |t.raw|
  {
    hide Lower;
    i := if Lower(key) in t.index then t.index[Lower(key)] else |t.raw|;
  }

  /** The four operations refine those of a plain ordered map, order of the other headers included. */
  lemma RefinesOrderedMap(t: Table, key: string, value: string)
    requires Sound(t) && Complete(t) && Unique(t.raw)
    ensures var k, m := Lower(key), Assoc(t.raw);
            && Assoc(Set(t, key, value).raw) == MapSet(m, k, value)
            && Get(t, key) == MapGet(m, k)
            && (k in t.index <==> MapGet(m, k).Some?)
            && (Delete(t, key).Some? <==> k in t.index)
            && (Delete(t, key).Some? ==> Assoc(Delete(t, key).value.raw) == MapDelete(m, k))
            && (k !in t.index ==> Assoc(Append(t, key, value).raw) == m + [(k, value)])
  {
    LowerTwice(key);
    hide Lower, MapSet, MapDelete, MapGet, Unique;
    var i := FindPosition(t, key);
    var k, m := Lower(key), Assoc(t.raw);
    MapAt(m, k, value, i);
    if k in t.index {
      AssocEdit(t.raw, i, k, value);
    } else {
      AssocGrow(t.raw, k, value);
    }
  }

  lemma AssocEdit(raw: Raw, i: nat, k: string, value: string)
    requires i < |raw| && Lower(k) == k
    ensures Assoc(raw[i := (k, value)]) == Assoc(raw)[i := (k, value)]
    ensures Assoc(raw[..i] + raw[i + 1..]) == Assoc(raw)[..i] + Assoc(raw)[i + 1..]
  {
    RemovedNames(raw, i);
  }

  lemma AssocGrow(raw: Raw, k: string, value: string)
    requires Lower(k) == k
    ensures Assoc(raw + [(k, value)]) == Assoc(raw) + [(k, value)]
  {
  }

  lemma UniqueGrown(raw: Raw, raw': Raw, k: string)
    requires Unique(raw) && |raw'| == |raw| + 1 && NameAt(raw', |raw|) == k
    requires forall i :: 0 <= i < |raw| ==> NameAt(raw', i) == NameAt(raw, i) && NameAt(raw, i) != k
    ensures Unique(raw')
  {
    hide NameAt;
  }

  lemma UniqueSame(raw: Raw, raw': Raw)
    requires Unique(raw) && |raw'| == |raw|
    requires forall i :: 0 <= i < |raw| ==> NameAt(raw', i) == NameAt(raw, i)
    ensures Unique(raw')
  {
    hide NameAt;
  }

  lemma UniqueRemoved(raw: Raw, at: nat)
    requires Unique(raw) && at < |raw|
    ensures Unique(raw[..at] + raw[at + 1..])
  {
    RemovedNames(raw, at);
    hide NameAt;
  }

  /** Uniqueness is kept by setting, by deleting, and by appending a name that is not there. */
  lemma UniqueKept(t: Table, key: string, value: string)
    requires Sound(t) && Complete(t) && Unique(t.raw)
    ensures Unique(Set(t, key, value).raw)
    ensures Delete(t, key).Some? ==> Unique(Delete(t, key).value.raw) && Complete(Delete(t, key).value)
    ensures Lower(key) !in t.index ==> Unique(Append(t, key, value).raw)
  {
    LowerTwice(key);
    hide Lower;
    var k, grown := Lower(key), t.raw + [(Lower(key), value)];
    if Delete(t, key).Some? {
      DeleteCompleteIff(t, key);
      UniqueRemoved(t.raw, t.index[k]);
    }
    if k in t.index {
      UniqueSame(t.raw, t.raw[t.index[k] := (k, value)]);
    } else {
      assert forall i :: 0 <= i < |t.raw| ==> NameAt(grown, i) == NameAt(t.raw, i);
      UniqueGrown(t.raw, grown, k);
    }
  }

  // ----- Whole runs against the ordered map -----

  function MapUpdate(m: Raw, pairs: seq<(string, string)>): Raw
    decreases |pairs|
  {
    if pairs == [] then m else MapUpdate(MapSet(m, Lower(pairs[0].0), pairs[0].1), pairs[1..])
  }

  function MapStep(m: Raw, op: Op): Raw {
    match op
    case SetOp(k, v) => MapSet(m, Lower(k), v)
    case AppendOp(k, v) => m + [(Lower(k), v)]
    case DeleteOp(k) => MapDelete(m, Lower(k))
    case UpdateOp(ps) => MapUpdate(m, ps)
  }

  function MapRun(m: Raw, ops: seq<Op>): Raw
    decreases |ops|
  {
    if ops == [] then m else MapRun(MapStep(m, ops[0]), ops[1..])
  }

  /** Every append of the run adds a name that the map does not hold at that moment. */
  predicate AppendsNew(m: Raw, ops: seq<Op>)
    decreases |ops|
  {
    ops != [] ==>
      (ops[0].AppendOp? ==> MapGet(m, Lower(ops[0].key)) == None) && AppendsNew(MapStep(m, ops[0]), ops[1..])
  }

  predicate Exact(t: Table) {
    Sound(t) && Complete(t) && Unique(t.raw)
  }

  lemma {:induction false} UpdateRefines(t: Table, pairs: seq<(string, string)>)
    requires Exact(t)
    ensures Exact(Update(t, pairs)) && Assoc(Update(t, pairs).raw) == MapUpdate(Assoc(t.raw), pairs)
    decreases |pairs|
  {
    hide Sound, Complete, Unique, Set, Get, Delete, Append, MapSet, MapGet, MapDelete, Assoc, Lower;
    if pairs != [] {
      var (key, value) := pairs[0];
      SetKeeps(t, key, value);
      UniqueKept(t, key, value);
      RefinesOrderedMap(t, key, value);
      UpdateRefines(Set(t, key, value), pairs[1..]);
    }
  }

  lemma {:induction false} AbsentDelete(m: Raw, k: string)
    requires MapGet(m, k) == None
    ensures MapDelete(m, k) == m
  {
    if m != [] {
      AbsentDelete(m[1..], k);
    }
  }

  lemma StepRefines(t: Table, op: Op)
    requires Exact(t) && (op.AppendOp? ==> MapGet(Assoc(t.raw), Lower(op.key)) == None)
    ensures Exact(Step(t, op)) && Assoc(Step(t, op).raw) == MapStep(Assoc(t.raw), op)
  {
    hide Sound, Complete, Unique, Duplicated, Set, Get, Delete, Append, MapSet, MapGet, MapDelete, Assoc, Lower;
    match op {
      case SetOp(k, v) =>
        SetKeeps(t, k, v);
        UniqueKept(t, k, v);
        RefinesOrderedMap(t, k, v);
      case AppendOp(k, v) =>
        AppendKeeps(t, k, v);
        UniqueKept(t, k, v);
        RefinesOrderedMap(t, k, v);
      case DeleteOp(k) =>
        UniqueKept(t, k, "");
        RefinesOrderedMap(t, k, "");
        if Delete(t, k).Some? {
          DeleteSound(t, k);
        } else {
          AbsentDelete(Assoc(t.raw), Lower(k));
        }
      case UpdateOp(ps) => UpdateRefines(t, ps);
    }
  }

  /**
   * Over every run from a list of unique names in which appends add new names, the
   * headers are those of a plain ordered map, order included, and so is every lookup.
   */
  lemma {:induction false} RunRefinesOrderedMap(t: Table, ops: seq<Op>, key: string)
    requires Exact(t) && AppendsNew(Assoc(t.raw), ops)
    ensures Assoc(Run(t, ops).raw) == MapRun(Assoc(t.raw), ops)
    ensures Get(Run(t, ops), key) == MapGet(MapRun(Assoc(t.raw), ops), Lower(key))
    decreases |ops|
  {
    hide Step, MapStep, Get, MapGet, Assoc, Lower;
    if ops == [] {
      RefinesOrderedMap(t, key, "");
    } else {
      StepRefines(t, ops[0]);
      hide Exact;
      RunRefinesOrderedMap(Step(t, ops[0]), ops[1..], key);
    }
  }

  /** What the constructor builds over unique names is such a table. */
  lemma ConstructedExact(raw: Raw)
    requires Unique(raw)
    ensures Exact(Table(raw, IndexOf(raw)))
  {
    IndexOfIsLast(raw);
  }

  // ----- The class -----

  /** The loop over the index that moves every position behind the deleted one. */
  method ShiftIndex(before: map<string, nat>, at: nat) returns (index: map<string, nat>)
    ensures index == Shift(before, at)
  {
    index := before;
    var todo := index.Keys;
    while todo != {}
      invariant index.Keys == before.Keys && todo <= index.Keys
      invariant forall n <- before ::
                  index[n] == if n !in todo && before[n] > at then before[n] - 1 else before[n]
      decreases todo
    {
      var n :| n in todo;
      if index[n] > at {
        index := index[n := index[n] - 1];
      }
      todo := todo - {n};
    }
    assert index == Shift(before, at);
  }

  class MutableHeaders {
    var raw: Raw
    var index: map<string, nat>

    ghost function State(): Table
      reads this
    {
      Table(raw, index)
    }

    constructor (list: Raw)
      ensures State() == Table(list, IndexOf(list)) && Sound(State())
    {
      raw := list;
      index := map[];
      new;
      for i := 0 to |list|
        invariant raw == list && index == IndexOf(list[..i])
      {
        index := index[NameAt(list, i) := i];
        assert list[..i + 1][..i] == list[..i];
      }
      assert list[..|list|] == list;
      IndexOfIsLast(list);
    }

    method SetItem(key: string, value: string)
      requires Sound(State())
      modifies this
      ensures Sound(State()) && State() == Set(old(State()), key, value)
    {
      SetKeeps(State(), key, value);
      hide Lower;
      var k := Lower(key);
      if k in index {
        raw := raw[index[k] := (k, value)];
      } else {
        index := index[k := |raw|];
        raw := raw + [(k, value)];
      }
    }

    method AppendItem(key: string, value: string)
      requires Sound(State())
      modifies this
      ensures Sound(State()) && State() == Append(old(State()), key, value)
    {
      AppendKeeps(State(), key, value);
      hide Lower;
      var k := Lower(key);
      if k !in index {
        index := index[k := |raw|];
      }
      raw := raw + [(k, value)];
    }

    method DeleteItem(key: string) returns (found: bool)
      requires Sound(State())
      modifies this
      ensures Sound(State()) && found == Delete(old(State()), key).Some?
      ensures State() == if found then Delete(old(State()), key).value else old(State())
    {
      hide Lower;
      var k := Lower(key);
      if k !in index {
        return false;
      }
      DeleteSound(State(), key);
      hide Shift;
      var at := index[k];
      raw := raw[..at] + raw[at + 1..];
      index := ShiftIndex(index - {k}, at);
      return true;
    }

    method UpdateItems(pairs: seq<(string, string)>)
      requires Sound(State())
      modifies this
      ensures Sound(State()) && State() == Update(old(State()), pairs)
    {
      for i := 0 to |pairs|
        invariant Sound(State())
        invariant Update(State(), pairs[i..]) == Update(old(State()), pairs)
      {
        hide Set;
        assert pairs[i..][0] == pairs[i] && pairs[i..][1..] == pairs[i + 1..];
        SetItem(pairs[i].0, pairs[i].1);
      }
    }
  }
}
