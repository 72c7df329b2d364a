/** URL generation through nested mounts, and its round trip through their matching. */
module MountUrls {
  import opened Common
  import opened Text
  import opened Templates
  import opened PathCompiler
  import opened ReplaceParams
  import opened Routes
  import opened Mounts

  datatype Mount = Mount(name: Option<string>, pieces: seq<Piece>)

  // ----- `Mount.url_path_for` along a chain of mounts that leads to a route -----

  /** Dict assignment: in place, or at the end. */
  function Assign(items: Items, k: string, v: Value): Items {
    if items == [] then [(k, v)]
    else if items[0].0 == k then [(k, v)] + items[1..]
    else [items[0]] + Assign(items[1..], k, v)
  }

  /** `s.lstrip("/")`. */
  function LStripSlash(s: string): string {
    if s != [] && s[0] == '/' then LStripSlash(s[1..]) else s
  }

  lemma {:induction false} LStripSlashIs(s: string)
    ensures var r := LStripSlash(s);
            && |r| <= |s| && r == s[|s| - |r|..] && (r != [] ==> r[0] != '/')
            && (forall i :: 0 <= i < |s| - |r| ==> s[i] == '/') && (forall c <- r :: c in s)
  {
    if s != [] && s[0] == '/' {
      LStripSlashIs(s[1..]);
      var r := LStripSlash(s);
      assert forall i :: 0 < i < |s| - |r| ==> s[i] == s[1..][i - 1];
    }
  }

  /** The URL of the mount itself, with the given rest of the path. */
  function OwnUrl(m: Mount, items: Items): Result<string, UrlError>
    requires PATH in Keys(items)
  {
    match ValueOf(items, PATH)
    case IntVal(_) => Err(BadValue)
    case StrVal(p) =>
      match ReplaceAll(Format(m.pieces), Convertors(m.pieces), Assign(items, PATH, StrVal(LStripSlash(p))))
      case Err(e) => Err(e)
      case Ok((path, rest)) => if rest == [] then Ok(path) else Err(NoMatchFound)
  }

  /** The prefix of a child's URL, and the parameters left for the child. */
  function PrefixUrl(m: Mount, items: Items): Result<(string, Items), UrlError> {
    match ReplaceAll(Format(m.pieces), Convertors(m.pieces), Assign(items, PATH, StrVal("")))
    case Err(e) => Err(e)
    case Ok((path, rest)) =>
      Ok((path, if PATH in Keys(items) then Assign(rest, PATH, ValueOf(items, PATH)) else rest))
  }

  /** The part of a route name that is for the child of a mount. */
  function ChildName(m: Mount, name: string): Option<string> {
    match m.name
    case None => Some(name)
    case Some(own) => if own + ":" <= name then Some(name[|own| + 1..]) else None
  }

  function ChainUrl(ms: seq<Mount>, r: Route, name: string, items: Items): Result<string, UrlError>
    decreases |ms|
  {
    if ms == [] then UrlPathFor(r, name, items)
    else if ms[0].name == Some(name) && PATH in Keys(items) then OwnUrl(ms[0], items)
    else
      match ChildName(ms[0], name)
      case None => Err(NoMatchFound)
      case Some(childName) =>
        match PrefixUrl(ms[0], items)
        case Err(e) => Err(e)
        case Ok((prefix, rest)) =>
          match ChainUrl(ms[1..], r, childName, rest)
          case Err(e) => Err(e)
          case Ok(url) => Ok(RStripSlash(prefix) + url)
  }

  /** The name under which a route is known outside all mounts. */
  function FullName(ms: seq<Mount>, name: string): string {
    if ms == [] then name
    else (match ms[0].name case Some(own) => own + ":" case None => "") + FullName(ms[1..], name)
  }

  lemma ChildOfFullName(ms: seq<Mount>, name: string)
    requires ms != []
    ensures ms[0].name != Some(FullName(ms, name))
    ensures ChildName(ms[0], FullName(ms, name)) == Some(FullName(ms[1..], name))
  {
    var rest := FullName(ms[1..], name);
    match ms[0].name
    case None => assert "" + rest == rest;
    case Some(own) =>
      assert (own + ":" + rest)[|own| + 1..] == rest;
      assert |own| < |own + ":" + rest|;
  }

  // ----- Dicts as maps -----

  lemma {:induction false} ItemsMapIff(items: Items, k: string, v: Value)
    requires IsDict(items)
    ensures (k, v) in items <==> k in ItemsMap(items) && ItemsMap(items)[k] == v
  {
    if (k, v) in items {
      ValueOfItem(items, (k, v));
    }
    if k in Keys(items) {
      var it :| it in items && it.0 == k;
      ValueOfItem(items, it);
    }
  }

  lemma {:induction false} AssignIs(items: Items, k: string, v: Value)
    requires IsDict(items)
    ensures IsDict(Assign(items, k, v))
    ensures forall it :: it in Assign(items, k, v) <==> it == (k, v) || (it in items && it.0 != k)
  {
    if items != [] {
      HeadAndTail(items);
      hide IsDict;
      if items[0].0 == k {
        ConsIsDict((k, v), items[1..]);
      } else {
        AssignIs(items[1..], k, v);
        ConsIsDict(items[0], Assign(items[1..], k, v));
      }
    }
  }

  /** What a mount leaves for its child: everything but its own parameters. */
  function Left(ps: seq<Piece>, items: Items): Items {
    var rest := Unused(ps, Assign(items, PATH, StrVal("")));
    if PATH in Keys(items) then Assign(rest, PATH, ValueOf(items, PATH)) else rest
  }

  lemma LeftIs(ps: seq<Piece>, items: Items)
    requires IsDict(items) && IsMount(ps)
    ensures IsDict(Left(ps, items))
    ensures forall it :: it in Left(ps, items) <==> it in items && it.0 !in Names(Front(ps))
  {
    var with := Assign(items, PATH, StrVal(""));
    AssignIs(items, PATH, StrVal(""));
    UnusedIs(ps, with);
    MountNames(ps);
    var rest := Unused(ps, with);
    hide Names;
    hide IsMount;
    if PATH in Keys(items) {
      var v := ValueOf(items, PATH);
      ItemsMapIff(items, PATH, v);
      AssignIs(rest, PATH, v);
      forall it ensures it in Left(ps, items) <==> it in items && it.0 !in Names(Front(ps)) {
        if it in items && it.0 == PATH {
          ItemsMapIff(items, PATH, it.1);
        }
      }
    }
  }

  lemma MountNames(ps: seq<Piece>)
    requires IsMount(ps)
    ensures Names(ps) == Names(Front(ps)) + [PATH]
    ensures PATH !in Names(Front(ps)) && Distinct(Names(Front(ps)))
  {
    var front, back := Front(ps), ps[|ps| - 2..];
    assert ps == front + back && back == [Param(PATH, PathConv), Lit("")];
    NamesAppend(front, back);
    BackFill([]);
    var k := |Names(front)|;
    assert forall i :: 0 <= i < k ==> Names(ps)[i] == Names(front)[i];
    assert Names(ps)[k] == PATH;
  }

  lemma LeftMap(ps: seq<Piece>, items: Items)
    requires IsDict(items) && IsMount(ps)
    ensures IsDict(Left(ps, items))
    ensures ItemsMap(Left(ps, items)) == ItemsMap(items) - set n <- Names(Front(ps))
  {
    LeftIs(ps, items);
    hide Left, IsMount, Names, IsDict, ValueOf;
    var a, b := ItemsMap(Left(ps, items)), ItemsMap(items) - set n <- Names(Front(ps));
    forall k | k in a ensures k in b && b[k] == a[k] {
      ItemsMapIff(Left(ps, items), k, a[k]);
      ItemsMapIff(items, k, a[k]);
    }
    forall k | k in b ensures k in a {
      ItemsMapIff(items, k, b[k]);
      ItemsMapIff(Left(ps, items), k, b[k]);
    }
  }

  // ----- The prefix of a mount -----

  /** A good value whose text has no newline. */
  predicate Good(c: Conv, v: Value) {
    GoodValue(c, v) && ToText(c, v).Ok? && '\n' !in ToText(c, v).value
  }

  predicate GoodFor(ps: seq<Piece>, vals: map<string, Value>) {
    forall p <- ps :: p.Param? ==> p.name in vals && Good(p.conv, vals[p.name])
  }

  lemma {:induction false} SubstAppend(ps: seq<Piece>, qs: seq<Piece>, sub: map<string, string>)
    ensures Subst(ps + qs, sub) == Subst(ps, sub) + Subst(qs, sub)
  {
    if ps == [] {
      assert ps + qs == qs;
    } else {
      assert (ps + qs)[1..] == ps[1..] + qs;
      SubstAppend(ps[1..], qs, sub);
    }
  }

  lemma SubstFront(ps: seq<Piece>, sub: map<string, string>)
    requires IsMount(ps) && PATH in sub
    ensures Subst(ps, sub) == Subst(Front(ps), sub) + sub[PATH]
  {
    var front, back := Front(ps), ps[|ps| - 2..];
    assert ps == front + back && back == [Param(PATH, PathConv), Lit("")];
    SubstAppend(front, back, sub);
    assert back[1..] == [Lit("")] && [Lit("")][1..] == [];
    assert Subst([Lit("")], sub) == "" + [] == [];
  }

  /** The convertor and the text of an item that a mount uses. */
  lemma ItemText(ps: seq<Piece>, items: Items, it: (string, Value), v: string)
    requires IsMount(ps) && IsDict(items) && GoodFor(Front(ps), ItemsMap(items)) && '{' !in v
    requires it in Assign(items, PATH, StrVal(v)) && it.0 in Names(ps)
    ensures it.0 in Convertors(ps)
    ensures ToText(Convertors(ps)[it.0], it.1).Ok? && '{' !in ToText(Convertors(ps)[it.0], it.1).value
  {
    AssignIs(items, PATH, StrVal(v));
    hide Assign;
    if it.0 == PATH {
      ConvertorsLookup(ps, ps[|ps| - 2]);
    } else {
      MountNames(ps);
      NamesOf(Front(ps));
      var p :| p in Front(ps) && p.Param? && p.name == it.0;
      ConvertorsLookup(ps, p);
      ItemsMapIff(items, it.0, it.1);
      ConvertText(p.conv, it.1);
    }
  }

  lemma MountRenderable(ps: seq<Piece>, items: Items, v: string)
    requires IsMount(ps) && IsDict(items) && '{' !in v
    requires (forall k <- Keys(items) :: BraceFree(k)) && GoodFor(Front(ps), ItemsMap(items))
    ensures IsDict(Assign(items, PATH, StrVal(v)))
    ensures Renderable(ps, Convertors(ps), Assign(items, PATH, StrVal(v)))
  {
    hide Names, Convertors, ToText, IsMount, GoodFor, ItemsMap, Assign;
    AssignIs(items, PATH, StrVal(v));
    forall it <- Assign(items, PATH, StrVal(v))
      ensures BraceFree(it.0)
      ensures it.0 in Names(ps) ==>
                && it.0 in Convertors(ps) && ToText(Convertors(ps)[it.0], it.1).Ok?
                && '{' !in ToText(Convertors(ps)[it.0], it.1).value
    {
      assert it.0 != PATH ==> it.0 in Keys(items);
      if it.0 in Names(ps) {
        ItemText(ps, items, it, v);
      }
    }
  }

  /** Filling the template of a mount: the front with the values' texts, then the path. */
  lemma MountReplace(ps: seq<Piece>, items: Items, v: string) returns (texts: map<string, string>)
    requires IsMount(ps) && WellFormed(ps) && IsDict(items) && '{' !in v
    requires (forall k <- Keys(items) :: BraceFree(k)) && GoodFor(Front(ps), ItemsMap(items))
    ensures Rendered(Front(ps), ItemsMap(items), texts)
    ensures var with := Assign(items, PATH, StrVal(v));
            ReplaceAll(Format(ps), Convertors(ps), with) == Ok((Subst(Front(ps), texts) + v, Unused(ps, with)))
  {
    var with, convs := Assign(items, PATH, StrVal(v)), Convertors(ps);
    WellFormedIsPlain(ps);
    MountRenderable(ps, items, v);
    ReplaceIsSimultaneous(ps, convs, with);
    texts := Texts(ps, convs, with);
    MountTexts(ps, items, v);
    hide *;
    SubstFront(ps, texts);
  }

  lemma MountTexts(ps: seq<Piece>, items: Items, v: string)
    requires IsMount(ps) && IsDict(items) && GoodFor(Front(ps), ItemsMap(items))
    requires var with := Assign(items, PATH, StrVal(v));
             IsDict(with) && Renderable(ps, Convertors(ps), with)
    ensures var texts := Texts(ps, Convertors(ps), Assign(items, PATH, StrVal(v)));
            Rendered(Front(ps), ItemsMap(items), texts) && PATH in texts && texts[PATH] == v
  {
    var with, convs := Assign(items, PATH, StrVal(v)), Convertors(ps);
    MountNames(ps);
    ConvertorsLookup(ps, ps[|ps| - 2]);
    AssignIs(items, PATH, StrVal(v));
    hide Names, Convertors, Assign, IsMount;
    TextsKeys(ps, convs, with);
    assert (PATH, StrVal(v)) in with;
    FrontRendered(ps, items, v, Texts(ps, convs, with));
  }

  lemma FrontRendered(ps: seq<Piece>, items: Items, v: string, texts: map<string, string>)
    requires IsMount(ps) && IsDict(items) && GoodFor(Front(ps), ItemsMap(items))
    requires forall it <- Assign(items, PATH, StrVal(v)) :: it.0 in Names(ps) && it.0 in Convertors(ps) ==>
               it.0 in texts && ToText(Convertors(ps)[it.0], it.1) == Ok(texts[it.0])
    ensures Rendered(Front(ps), ItemsMap(items), texts)
  {
    AssignIs(items, PATH, StrVal(v));
    MountNames(ps);
    NamesOf(Front(ps));
    hide Assign, Names, Convertors, ToText, GoodValue;
    forall p <- Front(ps) | p.Param?
      ensures p.name in texts && ToText(p.conv, ItemsMap(items)[p.name]) == Ok(texts[p.name])
    {
      ConvertorsLookup(ps, p);
      var value := ItemsMap(items)[p.name];
      ItemsMapIff(items, p.name, value);
      assert p.name in Names(Front(ps)) && p.name != PATH;
      assert (p.name, value) in Assign(items, PATH, StrVal(v));
    }
  }

  // ----- Matching what was generated -----

  /** A compiled mount as its constructor makes it: one slash in front of the path, parameters apart. */
  predicate Tidy(ps: seq<Piece>) {
    && IsMount(ps) && WellFormed(ps) && Separated(ps)
    && var t := ps[|ps| - 3].text; |t| >= 2 ==> t[|t| - 2] != '/'
  }

  lemma {:induction false} SeparatedAt(ps: seq<Piece>, i: nat)
    requires Separated(ps) && i < |ps| && ps[i].Param?
    ensures Bounded(ps[i].conv, ps[i + 1..])
    decreases i
  {
    if i > 0 {
      SeparatedAt(ps[1..], i - 1);
      assert ps[1..][i..] == ps[i + 1..];
    }
  }

  /** A template that ends in a parameter of one path segment is filled to a text that does not end in a slash. */
  lemma EndsInSegment(ps: seq<Piece>, vs: seq<string>)
    requires ps != [] && ps[|ps| - 1].Param? && !ps[|ps| - 1].conv.PathConv?
    requires |vs| == |Names(ps)| && AllAccept(ps, vs)
    ensures var f := Fill(ps, vs); f != [] && f[|f| - 1] != '/'
  {
    hide Fill, AllAccept, Names;
    var front, last := ps[..|ps| - 1], [ps[|ps| - 1]];
    assert ps == front + last;
    FillAppend(front, last, vs);
    var v := vs[|Names(front)|..];
    SingleParam(last[0], v);
    assert v[0][|v[0]| - 1] in v[0];
  }

  lemma SingleParam(p: Piece, vs: seq<string>)
    requires p.Param?
    ensures |Names([p])| == 1
    ensures |vs| == 1 ==> Fill([p], vs) == vs[0] && (AllAccept([p], vs) <==> Accepts(p.conv, vs[0]))
  {
    assert [p][1..] == [];
    assert |vs| == 1 ==> vs[0] + [] == vs[0];
  }

  /** The filled front of a mount is text ending at a segment, or nothing, before its last literal. */
  lemma FrontParts(ps: seq<Piece>, vs: seq<string>) returns (g: string, t: string)
    requires Tidy(ps) && |vs| == |Names(Front(ps))| && AllAccept(Front(ps), vs)
    ensures Fill(Front(ps), vs) == g + t && t == ps[|ps| - 3].text
    ensures |t| == 1 && g != [] ==> g[|g| - 1] != '/'
  {
    var front := Front(ps);
    var k := |front| - 1;
    var a := front[..k];
    t := front[k].text;
    assert front == a + [Lit(t)] && ps[k] == Lit(t);
    FillAppend(a, [Lit(t)], vs);
    assert [Lit(t)][1..] == [] && Fill([Lit(t)], vs[|Names(a)|..]) == t;
    g := Fill(a, vs[..|Names(a)|]);
    if |t| == 1 && a != [] {
      LastIsSegment(ps, k);
      EndsInSegment(a, vs[..|Names(a)|]);
    }
  }

  lemma LastIsSegment(ps: seq<Piece>, k: nat)
    requires Tidy(ps) && k == |ps| - 3 && k > 0
    requires ps[k].text == "/"
    ensures ps[k - 1].Param? && !ps[k - 1].conv.PathConv?
  {
    hide Separated;
    assert (k - 1) % 2 == 1;
    SeparatedAt(ps, k - 1);
    assert ps[k - 1 + 1..][0] == ps[k];
  }

  lemma StripOneSlash(ps: seq<Piece>, vs: seq<string>)
    requires Tidy(ps) && |vs| == |Names(Front(ps))| && AllAccept(Front(ps), vs)
    ensures var f := Fill(Front(ps), vs); f != [] && f[|f| - 1] == '/' && RStripSlash(f) == f[..|f| - 1]
  {
    var g, t := FrontParts(ps, vs);
    hide Fill, AllAccept, Separated, WellFormed;
    var f := g + t;
    assert f[|f| - 1] == t[|t| - 1];
    if |t| > 1 {
      assert f[|f| - 2] == t[|t| - 2];
    }
    StripLast(f);
  }

  lemma StripLast(f: string)
    requires f != [] && f[|f| - 1] == '/' && (|f| >= 2 ==> f[|f| - 2] != '/')
    ensures RStripSlash(f) == f[..|f| - 1]
  {
  }

  /** The captures of a generated path are the texts of the values and the rest. */
  lemma RecoverCaptures(ps: seq<Piece>, vals: map<string, Value>, texts: map<string, string>, rest: string)
    returns (vs: seq<string>, front: string)
    requires Tidy(ps) && Rendered(Front(ps), vals, texts) && '\n' !in rest
    ensures front == Subst(Front(ps), texts) && front != []
    ensures front[|front| - 1] == '/' && RStripSlash(front) == front[..|front| - 1]
    ensures |vs| == |Names(Front(ps))| && AllAccept(Front(ps), vs)
    ensures ConvertAll(Front(ps), vs) == Ok(ValuesIn(Front(ps), vals))
    ensures Match(ps, front + rest) == Some(vs + [rest])
  {
    NamesOf(Front(ps));
    FillAndConvert(Front(ps), vals, texts);
    vs := InOrder(Front(ps), texts);
    StripOneSlash(ps, vs);
    front := Fill(Front(ps), vs);
    MountNames(ps);
    hide ConvertAll, Fill, Subst, InOrder, ValuesIn, RStripSlash, AllAccept, Rendered, Match, Separated;
    var caps := vs + [rest];
    MountFill(ps, caps);
    assert caps[..|vs|] == vs;
    MatchFilled(ps, caps);
  }

  /** From the captures to the child's scope. */
  lemma MountOutcome(ps: seq<Piece>, sc: Scope, vs: seq<string>, m: map<string, Value>, front: string, rest: string)
    requires IsMount(ps) && !sc.kind.Lifespan? && front != []
    requires RoutePath(sc.path, sc.rootPath) == front + rest && Match(ps, front + rest) == Some(vs + [rest])
    requires |vs| == |Names(Front(ps))| && AllAccept(Front(ps), vs) && ConvertAll(Front(ps), vs) == Ok(m)
    ensures MountMatch(ps, sc) == Mounted(
              sc.(params := sc.params + m,
                  appRootPath := if sc.appRootPath.Some? then sc.appRootPath else Some(sc.rootPath),
                  rootPath := sc.rootPath + front[..|front| - 1]),
              "/" + rest)
  {
    hide Match, ConvertAll, RoutePath, AllAccept, Fill, Names, Accepts, IsMount, Distinct, Fits, Enter;
    assert (vs + [rest])[..|vs + [rest]| - 1] == vs;
    assert MountMatch(ps, sc) == Enter(sc, front + rest, m, "/" + rest);
    EnterIs(sc, front, rest, m);
  }

  lemma EnterIs(sc: Scope, front: string, rest: string, m: map<string, Value>)
    requires front != []
    ensures Enter(sc, front + rest, m, "/" + rest) == Mounted(
              sc.(params := sc.params + m,
                  appRootPath := if sc.appRootPath.Some? then sc.appRootPath else Some(sc.rootPath),
                  rootPath := sc.rootPath + front[..|front| - 1]),
              "/" + rest)
  {
    var s := front + rest;
    assert s[..|s| - |"/" + rest|] == front[..|front| - 1];
  }

  /** A mount matches its generated front followed by any newline-free rest, and hands on its values. */
  lemma MountRecover(ps: seq<Piece>, vals: map<string, Value>, texts: map<string, string>, rest: string, sc: Scope)
    returns (front: string)
    requires Tidy(ps) && Rendered(Front(ps), vals, texts) && '\n' !in rest && !sc.kind.Lifespan?
    ensures front == Subst(Front(ps), texts) && front != [] && RStripSlash(front) == front[..|front| - 1]
    ensures front[|front| - 1] == '/'
    ensures RoutePath(sc.path, sc.rootPath) == front + rest ==>
              MountMatch(ps, sc) == Mounted(
                sc.(params := sc.params + ValuesIn(Front(ps), vals),
                    appRootPath := if sc.appRootPath.Some? then sc.appRootPath else Some(sc.rootPath),
                    rootPath := sc.rootPath + front[..|front| - 1]),
                "/" + rest)
  {
    var vs;
    vs, front := RecoverCaptures(ps, vals, texts, rest);
    hide Match, ConvertAll, AllAccept, Subst, ValuesIn, RStripSlash, MountMatch, RoutePath, Rendered, Separated;
    if RoutePath(sc.path, sc.rootPath) == front + rest {
      MountOutcome(ps, sc, vs, ValuesIn(Front(ps), vals), front, rest);
    }
  }

  // ----- Chains -----

  /** Declared paths start with a slash, and no literal contains a newline. */
  predicate CleanRooted(ps: seq<Piece>) {
    Rooted(ps) && forall p <- ps :: p.Lit? ==> '\n' !in p.text
  }

  predicate GoodMounts(ms: seq<Mount>) {
    forall m <- ms :: Tidy(m.pieces) && CleanRooted(m.pieces)
  }

  predicate GoodRoute(r: Route) {
    r == MakeRoute(r.name, r.methods, r.pieces) && Reversible(r.pieces) && CleanRooted(r.pieces)
  }

  function ChainNames(ms: seq<Mount>, r: Route): seq<string>
    requires GoodMounts(ms)
  {
    if ms == [] then Names(r.pieces) else Names(Front(ms[0].pieces)) + ChainNames(ms[1..], r)
  }

  /** One good value for each parameter of the mounts and of the route, whose names all differ. */
  predicate ChainGood(ms: seq<Mount>, r: Route, vals: map<string, Value>)
    requires GoodMounts(ms)
  {
    && Distinct(ChainNames(ms, r)) && vals.Keys == (set n <- ChainNames(ms, r))
    && (forall m <- ms :: GoodFor(Front(m.pieces), vals)) && GoodFor(r.pieces, vals)
  }

  lemma {:induction false} NamesInChain(ms: seq<Mount>, r: Route)
    requires GoodMounts(ms)
    ensures forall n <- Names(r.pieces) :: n in ChainNames(ms, r)
    ensures forall m <- ms, n <- Names(Front(m.pieces)) :: n in ChainNames(ms, r)
  {
    hide Names;
    if ms != [] {
      NamesInChain(ms[1..], r);
      assert forall m <- ms :: m == ms[0] || m in ms[1..];
    }
  }

  /** Good values stay good when values of other names are taken away. */
  lemma GoodForLess(ps: seq<Piece>, vals: map<string, Value>, gone: set<string>)
    requires GoodFor(ps, vals) && forall n <- Names(ps) :: n !in gone
    ensures GoodFor(ps, vals - gone)
  {
    NamesOf(ps);
    hide Good, Names;
  }

  lemma ChainGoodStep(ms: seq<Mount>, r: Route, vals: map<string, Value>)
    requires GoodMounts(ms) && ms != [] && ChainGood(ms, r, vals)
    ensures GoodMounts(ms[1..]) && Tidy(ms[0].pieces) && CleanRooted(ms[0].pieces)
    ensures GoodFor(Front(ms[0].pieces), vals)
    ensures ChainGood(ms[1..], r, vals - set n <- Names(Front(ms[0].pieces)))
  {
    hide CleanRooted, Names, GoodFor, Distinct, WellFormed, Separated;
    assert ms[0] in ms && forall m <- ms[1..] :: m in ms;
    var own, rest := Names(Front(ms[0].pieces)), ms[1..];
    DistinctParts(own, ChainNames(rest, r));
    NamesInChain(rest, r);
    var gone := set n <- own;
    assert (vals - gone).Keys == set n <- ChainNames(rest, r);
    forall m <- rest ensures GoodFor(Front(m.pieces), vals - gone) {
      GoodForLess(Front(m.pieces), vals, gone);
    }
    GoodForLess(r.pieces, vals, gone);
  }

  lemma {:induction false} ChainNamesPlain(ms: seq<Mount>, r: Route)
    requires GoodMounts(ms) && WellFormed(r.pieces)
    ensures forall n <- ChainNames(ms, r) :: BraceFree(n)
  {
    if ms == [] {
      WellFormedIsPlain(r.pieces);
    } else {
      assert ms[0] in ms && forall m <- ms[1..] :: m in ms;
      ChainNamesPlain(ms[1..], r);
      WellFormedIsPlain(ms[0].pieces);
      MountNames(ms[0].pieces);
      hide Names;
    }
  }

  /** Texts of good values in newline-free literals. */
  lemma {:induction false} SubstClean(ps: seq<Piece>, vals: map<string, Value>, texts: map<string, string>)
    requires Rendered(ps, vals, texts) && GoodFor(ps, vals) && forall p <- ps :: p.Lit? ==> '\n' !in p.text
    ensures '\n' !in Subst(ps, texts)
  {
    hide GoodValue, ToText;
    if ps != [] {
      assert ps[0] in ps;
      SubstClean(ps[1..], vals, texts);
    }
  }

  lemma SubstRooted(ps: seq<Piece>, texts: map<string, string>)
    requires CleanRooted(ps)
    ensures Subst(ps, texts) != [] && Subst(ps, texts)[0] == '/'
  {
  }

  function Outcome(r: Route, verb: string, params: map<string, Value>): MatchResult {
    if r.methods.None? || r.methods.value == {} || verb in r.methods.value then Full(params) else Partial(params)
  }

  predicate CleanUrl(u: string) {
    u != [] && u[0] == '/' && '\n' !in u
  }

  lemma RouteItems(ps: seq<Piece>, items: Items)
    requires Distinct(Names(ps)) && IsDict(items) && GoodFor(ps, ItemsMap(items)) && Keys(items) == set n <- Names(ps)
    ensures GoodItems(ps, items)
  {
    ConvertorsKeys(ps);
    NamesOf(ps);
    hide GoodValue, ToText, Distinct;
    forall it <- items
      ensures it.0 in Convertors(ps) && GoodValue(Convertors(ps)[it.0], it.1) && ToText(Convertors(ps)[it.0], it.1).Ok?
    {
      assert it.0 in Keys(items);
      var p :| p in ps && p.Param? && p.name == it.0;
      ConvertorsLookup(ps, p);
      ItemsMapIff(items, it.0, it.1);
    }
    assert Keys(items) == Convertors(ps).Keys;
  }

  /** No mount left: the URL of the route itself. */
  lemma RouteUrl(r: Route, items: Items, sc: Scope) returns (url: string)
    requires GoodRoute(r) && IsDict(items) && ChainGood([], r, ItemsMap(items)) && sc.kind.Http?
    ensures UrlPathFor(r, r.name, items) == Ok(url) && CleanUrl(url)
    ensures RoutePath(sc.path, sc.rootPath) == url ==>
              Matches(r, sc) == Outcome(r, sc.verb, sc.params + ItemsMap(items))
  {
    RouteItems(r.pieces, items);
    var texts := UrlIsFilled(r, items);
    SubstRooted(r.pieces, texts);
    SubstClean(r.pieces, ItemsMap(items), texts);
    UrlRoundTrip(r, items, sc);
    url := Subst(r.pieces, texts);
    hide Matches, UrlPathFor, Subst, RoutePath, ItemsMap, MakeRoute;
  }

  function PiecesOf(ms: seq<Mount>): (pss: seq<seq<Piece>>)
    requires GoodMounts(ms)
    ensures |pss| == |ms| && forall ps <- pss :: IsMount(ps)
  {
    if ms == [] then [] else [ms[0].pieces] + PiecesOf(ms[1..])
  }

  /** One level of URL generation. */
  lemma UrlLevel(ms: seq<Mount>, r: Route, items: Items, front: string, url: string)
    requires ms != [] && front != [] && RStripSlash(front) == front[..|front| - 1]
    requires var ps, with := ms[0].pieces, Assign(items, PATH, StrVal(""));
             ReplaceAll(Format(ps), Convertors(ps), with) == Ok((front, Unused(ps, with)))
    requires ChainUrl(ms[1..], r, FullName(ms[1..], r.name), Left(ms[0].pieces, items)) == Ok(url)
    ensures ChainUrl(ms, r, FullName(ms, r.name), items) == Ok(front[..|front| - 1] + url)
  {
    ChildOfFullName(ms, r.name);
    assert PrefixUrl(ms[0], items) == Ok((front, Left(ms[0].pieces, items)));
    hide PrefixUrl, FullName, ChildName, OwnUrl, RStripSlash, Left, ReplaceAll, Format, Convertors, UrlPathFor;
  }

  /** One level of matching: the child sees its own part of the path. */
  lemma MatchLevel(ps: seq<Piece>, sc: Scope, child: Scope, front: string, url: string)
    requires IsMount(ps) && RootOk(sc) && front != [] && front[|front| - 1] == '/' && CleanUrl(url)
    requires RoutePath(sc.path, sc.rootPath) == front + url[1..]
    requires child.path == sc.path && child.rootPath == sc.rootPath + front[..|front| - 1]
    ensures RootOk(child) && RoutePath(child.path, child.rootPath) == url
  {
    RoutePathIsSuffix(sc);
    hide RoutePath, RootOk;
    MoveSlash(sc.rootPath, front, url[1..]);
    assert "/" + url[1..] == url;
    BelowRoot(child.rootPath, url);
    ChildRootOk(child, url);
  }

  lemma ChainLevel(ps: seq<Piece>, rest: seq<seq<Piece>>, sc: Scope, child: Scope)
    requires IsMount(ps) && forall qs <- rest :: IsMount(qs)
    requires MountMatch(ps, sc) == Mounted(child, RoutePath(child.path, child.rootPath))
    ensures Chain([ps] + rest, sc) == Chain(rest, child)
  {
    hide MountMatch, RoutePath, IsMount;
    assert ([ps] + rest)[1..] == rest;
  }

  lemma JoinLevels(front: string, url: string)
    requires front != [] && front[|front| - 1] == '/' && CleanUrl(url) && front[0] == '/' && '\n' !in front
    ensures front[..|front| - 1] + url == front + url[1..] && CleanUrl(front[..|front| - 1] + url)
  {
    var whole := front[..|front| - 1] + url;
    assert forall c <- whole :: c in front || c in url;
  }

  /** The generated front of the outermost mount. */
  lemma FrontUrl(ms: seq<Mount>, r: Route, items: Items) returns (texts: map<string, string>, front: string)
    requires GoodMounts(ms) && GoodRoute(r) && ms != []
    requires IsDict(items) && ChainGood(ms, r, ItemsMap(items))
    ensures Tidy(ms[0].pieces) && Rendered(Front(ms[0].pieces), ItemsMap(items), texts)
    ensures front == Subst(Front(ms[0].pieces), texts) && front != [] && front[0] == '/' && '\n' !in front
    ensures var ps, with := ms[0].pieces, Assign(items, PATH, StrVal(""));
            ReplaceAll(Format(ps), Convertors(ps), with) == Ok((front, Unused(ps, with)))
  {
    var ps, vals := ms[0].pieces, ItemsMap(items);
    ChainGoodStep(ms, r, vals);
    ChainNamesPlain(ms, r);
    assert vals.Keys == Keys(items);
    assert CleanRooted(Front(ps));
    hide Names, Subst, ReplaceAll, WellFormed, Separated, Distinct, IsDict, GoodFor, Rendered, ChainNames;
    texts := MountReplace(ps, items, "");
    front := Subst(Front(ps), texts);
    assert front + "" == front;
    SubstRooted(Front(ps), texts);
    SubstClean(Front(ps), vals, texts);
  }

  /** The values of a mount and those left for its child are all the values. */
  lemma ValuesSplit(ps: seq<Piece>, vals: map<string, Value>, params: map<string, Value>)
    requires forall p <- ps :: p.Param? ==> p.name in vals
    ensures params + ValuesIn(ps, vals) + (vals - set n <- Names(ps)) == params + vals
  {
    ValuesInAll(ps, vals);
  }

  /** The scope that the outermost mount hands to its child. */
  function ChildScope(ps: seq<Piece>, vals: map<string, Value>, front: string, sc: Scope): Scope
    requires front != [] && forall p <- ps :: p.Param? ==> p.name in vals
  {
    sc.(params := sc.params + ValuesIn(ps, vals),
        appRootPath := if sc.appRootPath.Some? then sc.appRootPath else Some(sc.rootPath),
        rootPath := sc.rootPath + front[..|front| - 1])
  }

  /** Matching the outermost mount leads to its child with the child's URL. */
  lemma EnterChain(ms: seq<Mount>, vals: map<string, Value>, texts: map<string, string>,
                   front: string, url: string, sc: Scope)
    requires GoodMounts(ms) && ms != [] && GoodMounts(ms[1..]) && Tidy(ms[0].pieces) && CleanUrl(url)
    requires Rendered(Front(ms[0].pieces), vals, texts) && front == Subst(Front(ms[0].pieces), texts) && front != []
    requires RootOk(sc) && !sc.kind.Lifespan? && RoutePath(sc.path, sc.rootPath) == front + url[1..]
    ensures var child := ChildScope(Front(ms[0].pieces), vals, front, sc);
            && RootOk(child) && RoutePath(child.path, child.rootPath) == url
            && Chain(PiecesOf(ms), sc) == Chain(PiecesOf(ms[1..]), child)
  {
    hide Chain, MountMatch, RoutePath, RootOk, Subst, ValuesIn, RStripSlash, WellFormed, Separated, Distinct;
    hide GoodValue, ToText;
    var ps := ms[0].pieces;
    var child := ChildScope(Front(ps), vals, front, sc);
    hide Rendered;
    assert IsMount(ps) && PiecesOf(ms) == [ps] + PiecesOf(ms[1..]);
    hide GoodMounts, PiecesOf, IsMount, Tidy;
    assert '\n' !in url[1..] && "/" + url[1..] == url;
    var f := MountRecover(ps, vals, texts, url[1..], sc);
    MatchLevel(ps, sc, child, front, url);
    ChainLevel(ps, PiecesOf(ms[1..]), sc, child);
  }

  /**
   * URL reversal through nested mounts of any depth: `url_path_for` with the full name of
   * a route succeeds, and a request for the path it returns is handed down the same
   * mounts to the same route, which matches with the same parameters.
   */
  lemma {:induction false} ChainRoundTrip(ms: seq<Mount>, r: Route, items: Items, sc: Scope) returns (url: string)
    requires GoodMounts(ms) && GoodRoute(r) && sc.kind.Http?
    requires IsDict(items) && ChainGood(ms, r, ItemsMap(items))
    ensures ChainUrl(ms, r, FullName(ms, r.name), items) == Ok(url) && CleanUrl(url)
    ensures RootOk(sc) && RoutePath(sc.path, sc.rootPath) == url ==>
              && Chain(PiecesOf(ms), sc).Some?
              && Matches(r, Chain(PiecesOf(ms), sc).value.0) == Outcome(r, sc.verb, sc.params + ItemsMap(items))
    decreases |ms|
  {
    if ms == [] {
      url := RouteUrl(r, items, sc);
      hide Matches, ItemsMap, ChainGood, GoodRoute;
    } else {
      var ps, vals := ms[0].pieces, ItemsMap(items);
      var texts, front := FrontUrl(ms, r, items);
      StripFront(ps, vals, texts);
      ChainGoodStep(ms, r, vals);
      LeftMap(ps, items);
      var child := ChildScope(Front(ps), vals, front, sc);
      ValuesSplit(Front(ps), vals, sc.params);
      hide *;
      var rest := ChainRoundTrip(ms[1..], r, Left(ps, items), child);
      UrlLevel(ms, r, items, front, rest);
      JoinLevels(front, rest);
      url := front[..|front| - 1] + rest;
      if RootOk(sc) && RoutePath(sc.path, sc.rootPath) == url {
        EnterChain(ms, vals, texts, front, rest, sc);
      }
    }
  }

  lemma StripFront(ps: seq<Piece>, vals: map<string, Value>, texts: map<string, string>)
    requires Tidy(ps) && Rendered(Front(ps), vals, texts)
    ensures var front := Subst(Front(ps), texts);
            front != [] && front[|front| - 1] == '/' && RStripSlash(front) == front[..|front| - 1]
  {
    hide *;
    var vs, front := RecoverCaptures(ps, vals, texts, "");
  }

  /** The generated URL of a mount itself. */
  lemma OwnUrlIs(m: Mount, items: Items, p: string) returns (texts: map<string, string>)
    requires Tidy(m.pieces) && IsDict(items) && Keys(items) == (set n <- Names(m.pieces))
    requires GoodFor(Front(m.pieces), ItemsMap(items)) && (PATH, StrVal(p)) in items && '{' !in p
    ensures Rendered(Front(m.pieces), ItemsMap(items), texts) && PATH in Keys(items)
    ensures OwnUrl(m, items) == Ok(Subst(Front(m.pieces), texts) + LStripSlash(p))
  {
    var ps, v := m.pieces, LStripSlash(p);
    ItemsMapIff(items, PATH, StrVal(p));
    LStripSlashIs(p);
    WellFormedIsPlain(ps);
    var with := Assign(items, PATH, StrVal(v));
    EverythingUsed(ps, items, v);
    hide Names, IsDict, GoodFor, Separated, WellFormed, Rendered, ReplaceAll, Subst, Assign, Unused, LStripSlash;
    texts := MountReplace(ps, items, v);
  }

  lemma EverythingUsed(ps: seq<Piece>, items: Items, v: string)
    requires IsMount(ps) && IsDict(items) && Keys(items) == set n <- Names(ps)
    ensures Unused(ps, Assign(items, PATH, StrVal(v))) == []
  {
    hide Names, Assign, Unused;
    AssignIs(items, PATH, StrVal(v));
    MountNames(ps);
    assert forall it <- Assign(items, PATH, StrVal(v)) :: it.0 == PATH || it.0 in Keys(items);
    AllUsed(ps, Assign(items, PATH, StrVal(v)));
  }

  /**
   * The URL of a mount itself: the path it is given loses its leading slashes, and a
   * request for the URL hands exactly that path to the mounted application.
   */
  lemma OwnUrlRoundTrip(m: Mount, items: Items, p: string, sc: Scope)
    requires Tidy(m.pieces) && IsDict(items) && Keys(items) == (set n <- Names(m.pieces)) && !sc.kind.Lifespan?
    requires GoodFor(Front(m.pieces), ItemsMap(items))
    requires (PATH, StrVal(p)) in items && '{' !in p && '\n' !in p
    ensures OwnUrl(m, items).Ok?
    ensures RoutePath(sc.path, sc.rootPath) == OwnUrl(m, items).value ==>
              var result := MountMatch(m.pieces, sc);
              && result.Mounted? && result.remaining == "/" + LStripSlash(p)
              && result.child.params == sc.params + ValuesIn(Front(m.pieces), ItemsMap(items))
  {
    var texts := OwnUrlIs(m, items, p);
    LStripSlashIs(p);
    hide *;
    var front := MountRecover(m.pieces, ItemsMap(items), texts, LStripSlash(p), sc);
  }

  // ----- Names and parameters that lead nowhere -----

  /**
   * Whom a name is for. A mount's own name with a "path" asks for the mount itself; a name
   * behind the mount's name and a colon, or any name if it has none, asks for a route
   * below it; every other name is not found.
   */
  lemma NameDecides(ms: seq<Mount>, r: Route, name: string, items: Items)
    requires ms != []
    ensures ms[0].name == Some(name) && "path" in Keys(items) ==> ChainUrl(ms, r, name, items) == OwnUrl(ms[0], items)
    ensures ms[0].name == Some(name) && "path" !in Keys(items) ==> ChainUrl(ms, r, name, items) == Err(NoMatchFound)
    ensures ms[0].name.Some? && ms[0].name.value != name && !(ms[0].name.value + ":" <= name) ==>
              ChainUrl(ms, r, name, items) == Err(NoMatchFound)
  {
    hide OwnUrl, PrefixUrl, UrlPathFor;
    if ms[0].name == Some(name) {
      assert |name + ":"| > |name|;
    }
  }

  /** What is not found below a mount is not found through it. */
  lemma NotFoundBelow(ms: seq<Mount>, r: Route, name: string, items: Items, prefix: string, rest: Items)
    requires ms != [] && PrefixUrl(ms[0], items) == Ok((prefix, rest))
    requires ChainUrl(ms[1..], r, name, rest) == Err(NoMatchFound)
    ensures ms[0].name == None ==> ChainUrl(ms, r, name, items) == Err(NoMatchFound)
    ensures ms[0].name.Some? ==> ChainUrl(ms, r, ms[0].name.value + ":" + name, items) == Err(NoMatchFound)
  {
    hide OwnUrl, PrefixUrl, UrlPathFor;
    if ms[0].name.Some? {
      var own := ms[0].name.value;
      var full := own + ":" + name;
      assert own + ":" <= full && full[|own| + 1..] == name && |full| > |own|;
    }
  }

  /** The path given to a mount itself must be a text. */
  lemma OwnUrlNeedsText(m: Mount, items: Items, n: int)
    requires IsDict(items) && (PATH, IntVal(n)) in items
    ensures PATH in Keys(items) && OwnUrl(m, items) == Err(BadValue)
  {
    ValueOfItem(items, (PATH, IntVal(n)));
  }

  /** The URL of a mount itself is not found with a parameter too many. */
  lemma OwnUrlTooMany(m: Mount, items: Items, p: string, extra: string)
    requires Tidy(m.pieces) && IsDict(items) && (PATH, StrVal(p)) in items && '{' !in p
    requires (forall k <- Keys(items) :: BraceFree(k)) && GoodFor(Front(m.pieces), ItemsMap(items))
    requires extra in Keys(items) && extra !in Names(m.pieces)
    ensures PATH in Keys(items) && OwnUrl(m, items) == Err(NoMatchFound)
  {
    var v := LStripSlash(p);
    ValueOfItem(items, (PATH, StrVal(p)));
    LStripSlashIs(p);
    SomethingUnused(m.pieces, items, v, extra);
    hide Names, IsDict, GoodFor, Separated, WellFormed, Rendered, ReplaceAll, Subst, Assign, Unused, LStripSlash;
    hide ValueOf;
    var texts := MountReplace(m.pieces, items, v);
  }

  lemma SomethingUnused(ps: seq<Piece>, items: Items, v: string, extra: string)
    requires IsMount(ps) && IsDict(items) && extra in Keys(items) && extra !in Names(ps)
    ensures Unused(ps, Assign(items, PATH, StrVal(v))) != []
  {
    MountNames(ps);
    AssignIs(items, PATH, StrVal(v));
    hide Names, Assign, IsMount;
    UnusedIs(ps, Assign(items, PATH, StrVal(v)));
    var it :| it in items && it.0 == extra;
    assert it in Unused(ps, Assign(items, PATH, StrVal(v)));
  }
}
