/** HTTP routes: matching a request path, and generating the path from parameters. */
module Routes {
  import opened Common
  import opened Text
  import opened Templates
  import opened PathCompiler
  import opened ReplaceParams

  datatype Kind = Http | WebSocket | Lifespan

  /** The part of the ASGI scope that routing reads and writes. */
  datatype Scope = Scope(kind: Kind, verb: string, path: string, rootPath: string,
                         params: map<string, Value>, appRootPath: Option<string>)

  /** `get_route_path`: the path below `root_path`, if that is a prefix ending at a slash. */
  function RoutePath(path: string, root: string): string {
    if root == [] || !(root <= path) then path
    else if path == root then []
    else if path[|root|] == '/' then path[|root|..]
    else path
  }

  /** `Convertor.convert`. */
  function Convert(c: Conv, capture: string): Result<Value, UrlError>
    requires Accepts(c, capture)
  {
    if !c.IntConv? then Ok(StrVal(capture))
    else if |capture| > MAX_DIGITS then Err(BadValue)
    else Ok(IntVal(ParseDecimal(capture)))
  }

  /** The converted captures by parameter name; an error is the exception of a convertor. */
  function ConvertAll(ps: seq<Piece>, caps: seq<string>): Result<map<string, Value>, UrlError>
    requires |caps| == |Names(ps)| && AllAccept(ps, caps)
  {
    if ps == [] then Ok(map[])
    else if ps[0].Lit? then ConvertAll(ps[1..], caps)
    else
      match (Convert(ps[0].conv, caps[0]), ConvertAll(ps[1..], caps[1..]))
      case (Ok(v), Ok(m)) => Ok(map[ps[0].name := v] + m)
      case _ => Err(BadValue)
  }

  /** A capture converts to itself, or to the number it writes; only digits too many for CPython raise. */
  lemma ConvertSpec(c: Conv, capture: string)
    requires Accepts(c, capture)
    ensures !c.IntConv? ==> Convert(c, capture) == Ok(StrVal(capture))
    ensures c.IntConv? ==> AllDigits(capture) && (Convert(c, capture).Err? <==> |capture| > 4300)
    ensures c.IntConv? && Convert(c, capture).Ok? ==> Convert(c, capture).value == IntVal(ParseDecimal(capture))
  {
  }

  datatype Route = Route(name: string, methods: Option<set<string>>, pieces: seq<Piece>,
                         format: string, convertors: map<string, Conv>)

  /** The methods of a route as its constructor leaves them: in upper case, and HEAD wherever GET is. */
  function MakeMethods(methods: set<string>): set<string> {
    var ms := set m <- methods :: Upper(m);
    if "GET" in ms then ms + {"HEAD"} else ms
  }

  function MakeRoute(name: string, methods: Option<set<string>>, ps: seq<Piece>): Route {
    var ms := match methods case Some(s) => Some(MakeMethods(s)) case None => None;
    Route(name, ms, ps, Format(ps), Convertors(ps))
  }

  datatype MatchResult = NoMatch | Partial(params: map<string, Value>) | Full(params: map<string, Value>) | Raised

  predicate Allows(methods: Option<set<string>>, verb: string) {
    methods.None? || methods.value == {} || verb in methods.value
  }

  function Matches(r: Route, sc: Scope): MatchResult {
    if !sc.kind.Http? then NoMatch
    else
      var s := RoutePath(sc.path, sc.rootPath);
      match Match(r.pieces, s)
      case None => NoMatch
      case Some(caps) =>
        MatchSound(r.pieces, s);
        match ConvertAll(r.pieces, caps)
        case Err(_) => Raised
        case Ok(m) => if Allows(r.methods, sc.verb) then Full(sc.params + m) else Partial(sc.params + m)
  }

  /** Below `root` lies what is `root` itself or follows it with a slash; any other path is left whole. */
  lemma RoutePathSpec(root: string, rest: string, path: string)
    ensures RoutePath(root + rest, root) == if rest == [] || rest[0] == '/' then rest else root + rest
    ensures !(root <= path) ==> RoutePath(path, root) == path
  {
    assert (root + rest)[|root|..] == rest;
    assert root == [] ==> root + rest == rest;
    assert root + rest == root ==> |rest| == 0;
  }

  /**
   * The verdict on a request whose path matches and converts: a route without methods
   * takes every request; one with methods takes those in full, HEAD wherever it takes
   * GET, and all others partially.
   */
  lemma MethodDecides(name: string, methods: Option<set<string>>, ps: seq<Piece>, sc: Scope, caps: seq<string>)
    requires sc.kind.Http? && Match(ps, RoutePath(sc.path, sc.rootPath)) == Some(caps)
    ensures |caps| == |Names(ps)| && AllAccept(ps, caps)
    ensures ConvertAll(ps, caps).Err? ==> Matches(MakeRoute(name, methods, ps), sc) == Raised
    ensures ConvertAll(ps, caps).Ok? ==>
              var m := sc.params + ConvertAll(ps, caps).value;
              Matches(MakeRoute(name, methods, ps), sc) ==
                if methods.None? || methods.value == {}
                   || (exists v <- methods.value :: Upper(v) == sc.verb || (Upper(v) == "GET" && sc.verb == "HEAD"))
                then Full(m) else Partial(m)
  {
    hide Match, ConvertAll;
    MatchSound(ps, RoutePath(sc.path, sc.rootPath));
    hide RoutePath;
    if methods.Some? && methods.value != {} {
      var v :| v in methods.value;
      assert Upper(v) in MakeMethods(methods.value);
    }
  }

  /** A request that is not HTTP, or whose path does not match, is not the route's. */
  lemma NoMatchIff(r: Route, sc: Scope)
    ensures Matches(r, sc) == NoMatch <==> !sc.kind.Http? || Match(r.pieces, RoutePath(sc.path, sc.rootPath)) == None
  {
    hide Match, ConvertAll, RoutePath;
    MatchSound(r.pieces, RoutePath(sc.path, sc.rootPath));
  }

  function Keys(items: Items): set<string> {
    set it <- items :: it.0
  }

  /** `url_path_for`. */
  function UrlPathFor(r: Route, name: string, items: Items): Result<string, UrlError> {
    if name != r.name || Keys(items) != r.convertors.Keys then Err(NoMatchFound)
    else
      match ReplaceAll(r.format, r.convertors, items)
      case Err(e) => Err(e)
      case Ok((path, rest)) => if rest != [] then Err(BadValue) else Ok(path)
  }

  /** No URL for another name, for a missing parameter or for one too many; and only then NoMatchFound. */
  lemma NoMatchFoundIff(name: string, methods: Option<set<string>>, ps: seq<Piece>, wanted: string, items: Items)
    ensures UrlPathFor(MakeRoute(name, methods, ps), wanted, items) == Err(NoMatchFound) <==>
              wanted != name || (set it <- items :: it.0) != (set n <- Names(ps))
  {
    var r := MakeRoute(name, methods, ps);
    ConvertorsKeys(ps);
    assert r.convertors.Keys == set n <- Names(ps);
    hide Convertors, Names, Format;
    ReplaceErrors(r.format, r.convertors, items);
  }

  lemma {:induction false} ReplaceErrors(path: string, convs: map<string, Conv>, items: Items)
    ensures ReplaceAll(path, convs, items) != Err(NoMatchFound)
    decreases |items|
  {
    hide Contains, Replace, Decimal;
    if items != [] {
      ReplaceErrors(path, convs, items[1..]);
      if items[0].0 in convs && ToText(convs[items[0].0], items[0].1).Ok? {
        var text := ToText(convs[items[0].0], items[0].1).value;
        ReplaceErrors(Replace(path, Placeholder(items[0].0), text), convs, items[1..]);
      }
    }
  }

  // ----- Values that survive the way through the URL -----

  /** A value of the convertor's own type, without '{', and without newline for a path. */
  predicate GoodValue(c: Conv, v: Value) {
    match (c, v)
    case (StrConv, StrVal(s)) => '{' !in s
    case (PathConv, StrVal(s)) => '{' !in s && '\n' !in s
    case (IntConv, IntVal(_)) => true
    case _ => false
  }

  /** Text and value determine each other, the decimal form of integers included. */
  lemma ConvertText(c: Conv, v: Value)
    requires GoodValue(c, v) && ToText(c, v).Ok?
    ensures Accepts(c, ToText(c, v).value) && Convert(c, ToText(c, v).value) == Ok(v)
    ensures '{' !in ToText(c, v).value
  {
    if c.IntConv? {
      var d := Decimal(v.number);
      DecimalRoundTrip(v.number);
      assert forall ch <- d :: IsDigit(ch);
    }
  }

  /** The texts for the parameters of `ps` in template order. */
  function InOrder(ps: seq<Piece>, texts: map<string, string>): (vs: seq<string>)
    requires forall n <- Names(ps) :: n in texts
    ensures |vs| == |Names(ps)|
  {
    if ps == [] then []
    else if ps[0].Lit? then InOrder(ps[1..], texts)
    else assert ps[0].name in Names(ps); [texts[ps[0].name]] + InOrder(ps[1..], texts)
  }

  /** `vals` and `texts` hold good values, and their texts, for all parameters of `ps`. */
  predicate Rendered(ps: seq<Piece>, vals: map<string, Value>, texts: map<string, string>) {
    forall p <- ps :: p.Param? ==>
      && p.name in vals && p.name in texts
      && GoodValue(p.conv, vals[p.name]) && ToText(p.conv, vals[p.name]) == Ok(texts[p.name])
  }

  lemma {:induction false} NamesOf(ps: seq<Piece>)
    ensures forall n :: n in Names(ps) <==> exists p <- ps :: p.Param? && p.name == n
  {
    if ps != [] {
      NamesOf(ps[1..]);
      assert ps == [ps[0]] + ps[1..];
      assert forall p :: p in ps <==> p == ps[0] || p in ps[1..];
    }
  }

  function ValuesIn(ps: seq<Piece>, vals: map<string, Value>): map<string, Value>
    requires forall p <- ps :: p.Param? ==> p.name in vals
  {
    if ps == [] then map[]
    else
      assert ps[0] in ps;
      var rest := ValuesIn(ps[1..], vals);
      if ps[0].Lit? then rest else map[ps[0].name := vals[ps[0].name]] + rest
  }

  lemma {:induction false} ValuesInAll(ps: seq<Piece>, vals: map<string, Value>)
    requires forall p <- ps :: p.Param? ==> p.name in vals
    ensures forall n :: n in ValuesIn(ps, vals) <==> n in Names(ps)
    ensures forall n <- ValuesIn(ps, vals) :: n in vals && ValuesIn(ps, vals)[n] == vals[n]
  {
    if ps != [] {
      assert ps[0] in ps;
      ValuesInAll(ps[1..], vals);
    }
  }

  /** Filling in the texts is the substitution, and converting them back gives the values. */
  lemma {:induction false} FillAndConvert(ps: seq<Piece>, vals: map<string, Value>, texts: map<string, string>)
    requires Rendered(ps, vals, texts) && forall n <- Names(ps) :: n in texts
    ensures var vs := InOrder(ps, texts);
            && AllAccept(ps, vs) && Fill(ps, vs) == Subst(ps, texts)
            && ConvertAll(ps, vs) == Ok(ValuesIn(ps, vals))
  {
    if ps != [] {
      hide ToText;
      hide Convert;
      hide GoodValue;
      hide Accepts;
      hide Placeholder;
      assert ps[0] in ps;
      FillAndConvert(ps[1..], vals, texts);
      if ps[0].Param? {
        var vs := InOrder(ps, texts);
        ConvertText(ps[0].conv, vals[ps[0].name]);
        assert vs[0] == texts[ps[0].name] && vs[1..] == InOrder(ps[1..], texts);
      }
    }
  }

  /** On a separated template, matching the substituted path gives the values back. */
  lemma Recover(ps: seq<Piece>, vals: map<string, Value>, texts: map<string, string>) returns (caps: seq<string>)
    requires Separated(ps) && Rendered(ps, vals, texts)
    ensures |caps| == |Names(ps)| && AllAccept(ps, caps) && Fill(ps, caps) == Subst(ps, texts)
    ensures Match(ps, Subst(ps, texts)) == Some(caps) && ConvertAll(ps, caps) == Ok(ValuesIn(ps, vals))
    ensures forall n :: n in ValuesIn(ps, vals) <==> n in Names(ps)
    ensures forall n <- ValuesIn(ps, vals) :: n in vals && ValuesIn(ps, vals)[n] == vals[n]
  {
    NamesOf(ps);
    caps := InOrder(ps, texts);
    FillAndConvert(ps, vals, texts);
    MatchFilled(ps, caps);
    ValuesInAll(ps, vals);
  }

  lemma {:induction false} ConvertorsLookup(ps: seq<Piece>, p: Piece)
    requires Distinct(Names(ps)) && p in ps && p.Param?
    ensures p.name in Convertors(ps) && Convertors(ps)[p.name] == p.conv
  {
    var front, last := ps[..|ps| - 1], ps[|ps| - 1];
    assert ps == front + [last];
    NamesAppend(front, [last]);
    assert Names([last]) == if last.Param? then [last.name] else [];
    var k := |Names(front)|;
    assert forall i :: 0 <= i < k ==> Names(front)[i] == Names(ps)[i];
    if p in front {
      ConvertorsLookup(front, p);
      if last.Param? {
        NamesOf(front);
        assert p.name in Names(front) && Names(ps)[k] == last.name;
      }
    }
  }

  function ItemsMap(items: Items): map<string, Value> {
    map k | k in Keys(items) :: ValueOf(items, k)
  }

  function ValueOf(items: Items, k: string): Value
    requires k in Keys(items)
  {
    if items[0].0 == k then items[0].1 else ValueOf(items[1..], k)
  }

  lemma {:induction false} ValueOfItem(items: Items, it: (string, Value))
    requires IsDict(items) && it in items
    ensures it.0 in Keys(items) && ValueOf(items, it.0) == it.1
  {
    if items[0] != it {
      assert it in items[1..];
      ValueOfItem(items[1..], it);
      var i :| 0 <= i < |items[1..]| && items[1..][i] == it;
      assert items[i + 1] == it;
    }
  }

  // ----- URL reversal -----

  /** A compiled path without '{' in its literals, whose parameters each end at a slash or at the end. */
  predicate Reversible(ps: seq<Piece>) {
    WellFormed(ps) && Distinct(Names(ps)) && Separated(ps)
  }

  lemma WellFormedIsPlain(ps: seq<Piece>)
    requires WellFormed(ps)
    ensures Plain(ps) && forall n <- Names(ps) :: BraceFree(n)
  {
    forall p <- ps
      ensures match p case Lit(t) => '{' !in t case Param(n, _) => BraceFree(n)
    {
      var i :| 0 <= i < |ps| && ps[i] == p;
    }
    NamesOf(ps);
  }

  /** All parameters are given, with good values that have a text. */
  predicate GoodItems(ps: seq<Piece>, items: Items) {
    && IsDict(items)
    && Keys(items) == Convertors(ps).Keys
    && forall it <- items :: GoodValue(Convertors(ps)[it.0], it.1) && ToText(Convertors(ps)[it.0], it.1).Ok?
  }

  /** The generated path is the template filled with the texts of the values. */
  lemma UrlIsFilled(r: Route, items: Items) returns (texts: map<string, string>)
    requires r == MakeRoute(r.name, r.methods, r.pieces) && WellFormed(r.pieces) && Distinct(Names(r.pieces))
    requires GoodItems(r.pieces, items)
    ensures Rendered(r.pieces, ItemsMap(items), texts)
    ensures UrlPathFor(r, r.name, items) == Ok(Subst(r.pieces, texts))
  {
    var ps, convs := r.pieces, r.convertors;
    WellFormedIsPlain(ps);
    ConvertorsKeys(ps);
    NamesOf(ps);
    forall it <- items
      ensures it.0 in Names(ps) && '{' !in ToText(convs[it.0], it.1).value
    {
      assert it.0 in Keys(items);
      ConvertText(convs[it.0], it.1);
    }
    texts := Texts(ps, convs, items);
    ReplaceIsSimultaneous(ps, convs, items);
    TextsKeys(ps, convs, items);
    AllUsed(ps, items);
    forall p <- ps | p.Param?
      ensures p.name in texts && p.name in ItemsMap(items)
      ensures GoodValue(p.conv, ItemsMap(items)[p.name]) && ToText(p.conv, ItemsMap(items)[p.name]) == Ok(texts[p.name])
    {
      ConvertorsLookup(ps, p);
      assert p.name in Keys(items);
      var it :| it in items && it.0 == p.name;
      ValueOfItem(items, it);
    }
  }

  lemma {:induction false} AllUsed(ps: seq<Piece>, items: Items)
    requires forall it <- items :: it.0 in Names(ps)
    ensures Unused(ps, items) == []
  {
    if items != [] {
      AllUsed(ps, items[1..]);
    }
  }

  /**
   * URL reversal: for a reversible path and good values, `url_path_for` succeeds, and
   * a request for the path it returns matches the same route with the same parameters.
   */
  lemma UrlRoundTrip(r: Route, items: Items, sc: Scope)
    requires r == MakeRoute(r.name, r.methods, r.pieces) && Reversible(r.pieces) && GoodItems(r.pieces, items)
    requires sc.kind.Http?
    ensures UrlPathFor(r, r.name, items).Ok?
    ensures RoutePath(sc.path, sc.rootPath) == UrlPathFor(r, r.name, items).value ==>
              Matches(r, sc) == if r.methods.None? || r.methods.value == {} || sc.verb in r.methods.value
                                then Full(sc.params + ItemsMap(items)) else Partial(sc.params + ItemsMap(items))
  {
    var texts := UrlIsFilled(r, items);
    var caps := Recover(r.pieces, ItemsMap(items), texts);
    ConvertorsKeys(r.pieces);
    assert ValuesIn(r.pieces, ItemsMap(items)) == ItemsMap(items);
    hide Match;
    hide ConvertAll;
    hide ToText;
    hide UrlPathFor;
    hide ItemsMap;
    hide Reversible;
  }
}
