/** The other way round: generating the URL of a route from the parameters of a match. */
module UrlInverse {
  import opened Common
  import opened Text
  import opened Templates
  import opened PathCompiler
  import opened ReplaceParams
  import opened ReplaceOrder
  import opened Routes

  // ----- Canonical captures -----

  /** What converting a capture and printing the value makes of it. */
  function Canonical(c: Conv, cap: string): string
    requires Accepts(c, cap)
  {
    if c.IntConv? then Decimal(ParseDecimal(cap)) else cap
  }

  predicate NoLeadingZero(s: string) {
    |s| == 1 || (s != [] && s[0] != '0')
  }

  /** Printing a parsed number never makes it longer, and changes nothing exactly when it has no leading zero. */
  lemma {:induction false} DecimalOfDigits(s: string)
    requires AllDigits(s) && s != []
    ensures var d := Decimal(ParseDecimal(s));
            |d| <= |s| && (|d| == |s| ==> d == s) && (d == s <==> NoLeadingZero(s))
  {
    var rest, last := s[..|s| - 1], s[|s| - 1];
    assert s == rest + [last];
    LastDigit(s);
    if rest != [] {
      assert AllDigits(rest);
      DecimalOfDigits(rest);
      assert rest[0] == s[0];
      if ParseDecimal(rest) == 0 {
        assert Decimal(0) == "0";
        assert rest == "0" ==> rest[0] == '0';
      }
    }
  }

  lemma LastDigit(s: string)
    requires AllDigits(s) && s != []
    ensures var rest, last := s[..|s| - 1], s[|s| - 1];
            Decimal(ParseDecimal(s)) ==
              if ParseDecimal(rest) == 0 then [last] else Decimal(ParseDecimal(rest)) + [last]
  {
    var v := DigitValue(s[|s| - 1]);
    assert DigitChar(v) == s[|s| - 1];
    var n := ParseDecimal(s[..|s| - 1]);
    assert (n * 10 + v) / 10 == n && (n * 10 + v) % 10 == v;
  }

  lemma ConvertedText(c: Conv, cap: string)
    requires Accepts(c, cap) && Convert(c, cap).Ok?
    ensures ToText(c, Convert(c, cap).value) == Ok(Canonical(c, cap))
    ensures '{' !in cap ==> '{' !in Canonical(c, cap)
  {
    if c.IntConv? {
      DecimalOfDigits(cap);
    }
  }

  /** The texts of all captures once converted. */
  function CanonicalAll(ps: seq<Piece>, caps: seq<string>): (vs: seq<string>)
    requires |caps| == |Names(ps)| && AllAccept(ps, caps)
    ensures |vs| == |Names(ps)|
  {
    if ps == [] then []
    else if ps[0].Lit? then CanonicalAll(ps[1..], caps)
    else [Canonical(ps[0].conv, caps[0])] + CanonicalAll(ps[1..], caps[1..])
  }

  /** No int capture starts with a superfluous zero. */
  predicate IntsCanonical(ps: seq<Piece>, caps: seq<string>)
    requires |caps| == |Names(ps)|
  {
    ps != [] ==>
      if ps[0].Lit? then IntsCanonical(ps[1..], caps)
      else (ps[0].conv.IntConv? ==> NoLeadingZero(caps[0])) && IntsCanonical(ps[1..], caps[1..])
  }

  lemma CanonicalShorter(c: Conv, cap: string)
    requires Accepts(c, cap)
    ensures |Canonical(c, cap)| <= |cap|
    ensures |Canonical(c, cap)| == |cap| <==> (c.IntConv? ==> NoLeadingZero(cap))
    ensures |Canonical(c, cap)| == |cap| ==> Canonical(c, cap) == cap
  {
    if c.IntConv? {
      DecimalOfDigits(cap);
    }
  }

  /** Filling in the canonical captures gives the same path exactly when they were canonical, else a shorter one. */
  lemma {:induction false} FillCanonical(ps: seq<Piece>, caps: seq<string>)
    requires |caps| == |Names(ps)| && AllAccept(ps, caps)
    ensures var a, b := Fill(ps, CanonicalAll(ps, caps)), Fill(ps, caps);
            && |a| <= |b| && (|a| == |b| <==> IntsCanonical(ps, caps)) && (|a| == |b| ==> a == b)
  {
    hide Canonical, Accepts, NoLeadingZero;
    if ps != [] {
      if ps[0].Lit? {
        FillCanonical(ps[1..], caps);
      } else {
        FillCanonical(ps[1..], caps[1..]);
        CanonicalShorter(ps[0].conv, caps[0]);
        assert CanonicalAll(ps, caps)[1..] == CanonicalAll(ps[1..], caps[1..]);
      }
    }
  }

  // ----- The parameters of a match -----

  /** Converted captures are values with a text, for exactly the parameters of the template. */
  lemma {:induction false} ConvertedHaveTexts(ps: seq<Piece>, caps: seq<string>, m: map<string, Value>)
    requires |caps| == |Names(ps)| && AllAccept(ps, caps) && ConvertAll(ps, caps) == Ok(m) && Distinct(Names(ps))
    ensures forall n :: n in m <==> n in Names(ps)
    ensures forall p <- ps :: p.Param? ==> p.name in m && ToText(p.conv, m[p.name]).Ok?
    ensures (forall cap <- caps :: '{' !in cap) ==>
              forall p <- ps :: p.Param? ==> '{' !in ToText(p.conv, m[p.name]).value
  {
    if ps != [] {
      hide Convert, ToText, Accepts, Canonical;
      var rest := ps[1..];
      assert ps == [ps[0]] + rest;
      if ps[0].Lit? {
        assert Names(ps) == Names(rest);
        ConvertedHaveTexts(rest, caps, m);
      } else {
        var name := ps[0].name;
        DistinctParts([name], Names(rest));
        var m' := ConvertAll(rest, caps[1..]).value;
        ConvertedHaveTexts(rest, caps[1..], m');
        ConvertedText(ps[0].conv, caps[0]);
        NamesOf(rest);
        assert caps[0] in caps && forall cap <- caps[1..] :: cap in caps;
        assert m[name] == Convert(ps[0].conv, caps[0]).value;
        forall p <- rest | p.Param? ensures p.name in m' && m[p.name] == m'[p.name] {
          assert p.name in Names(rest);
        }
        assert forall p <- ps :: p == ps[0] || p in rest;
      }
    }
  }

  /** Substituting the texts of the converted captures fills the template with the canonical captures. */
  lemma {:induction false} SubstIsCanonical(ps: seq<Piece>, caps: seq<string>, m: map<string, Value>,
                                            vals: map<string, Value>, texts: map<string, string>)
    requires |caps| == |Names(ps)| && AllAccept(ps, caps) && ConvertAll(ps, caps) == Ok(m) && Distinct(Names(ps))
    requires forall n <- m :: n in vals && vals[n] == m[n]
    requires forall p <- ps :: p.Param? ==>
               p.name in vals && p.name in texts && ToText(p.conv, vals[p.name]) == Ok(texts[p.name])
    ensures Subst(ps, texts) == Fill(ps, CanonicalAll(ps, caps))
  {
    if ps != [] {
      hide Convert, ToText, Accepts, Canonical;
      var rest := ps[1..];
      assert ps[0] in ps && forall p <- rest :: p in ps;
      if ps[0].Lit? {
        assert Names(ps) == Names(rest);
        SubstIsCanonical(rest, caps, m, vals, texts);
      } else {
        var name := ps[0].name;
        DistinctParts([name], Names(rest));
        var m' := ConvertAll(rest, caps[1..]).value;
        ConvertedHaveTexts(rest, caps[1..], m');
        SubstIsCanonical(rest, caps[1..], m', vals, texts);
        ConvertedText(ps[0].conv, caps[0]);
        assert m[name] == Convert(ps[0].conv, caps[0]).value;
        assert CanonicalAll(ps, caps)[1..] == CanonicalAll(rest, caps[1..]);
      }
    }
  }

  lemma {:induction false} CapturesInPath(ps: seq<Piece>, caps: seq<string>)
    requires |caps| == |Names(ps)|
    ensures forall cap <- caps, ch <- cap :: ch in Fill(ps, caps)
  {
    if ps != [] {
      if ps[0].Lit? {
        CapturesInPath(ps[1..], caps);
      } else {
        CapturesInPath(ps[1..], caps[1..]);
        assert caps == [caps[0]] + caps[1..];
      }
    }
  }

  function Captures(ps: seq<Piece>, s: string): (r: Option<seq<string>>)
    ensures r.Some? ==> Fits(ps, r.value, s)
  {
    MatchSound(ps, s);
    Match(ps, s)
  }

  /** The parameters of a match can be given back to the route, in any order. */
  lemma MatchedItems(ps: seq<Piece>, caps: seq<string>, items: Items)
    requires |caps| == |Names(ps)| && AllAccept(ps, caps) && WellFormed(ps) && Distinct(Names(ps)) && IsDict(items)
    requires ConvertAll(ps, caps) == Ok(ItemsMap(items))
    ensures Keys(items) == Convertors(ps).Keys && forall it <- items :: it.0 in Names(ps)
    ensures Convertible(ps, Convertors(ps), items)
    ensures (forall cap <- caps :: '{' !in cap) ==> Renderable(ps, Convertors(ps), items)
  {
    ConvertedHaveTexts(ps, caps, ItemsMap(items));
    ConvertorsKeys(ps);
    NamesOf(ps);
    WellFormedIsPlain(ps);
    hide ToText, ConvertAll, Names, AllAccept, WellFormed, Distinct;
    assert ItemsMap(items).Keys == Keys(items);
    forall it <- items
      ensures it.0 in Names(ps) && it.0 in Convertors(ps) && ToText(Convertors(ps)[it.0], it.1).Ok?
      ensures (forall cap <- caps :: '{' !in cap) ==> '{' !in ToText(Convertors(ps)[it.0], it.1).value
    {
      assert it.0 in Keys(items);
      var p :| p in ps && p.Param? && p.name == it.0;
      ConvertorsLookup(ps, p);
      ValueOfItem(items, it);
    }
  }

  /** The text of each parameter of a match. */
  lemma MatchedTexts(ps: seq<Piece>, items: Items, p: Piece)
    requires Distinct(Names(ps)) && IsDict(items) && Convertible(ps, Convertors(ps), items)
    requires Keys(items) == Convertors(ps).Keys && p in ps && p.Param?
    ensures var texts := Texts(ps, Convertors(ps), items);
            && p.name in ItemsMap(items) && p.name in texts
            && ToText(p.conv, ItemsMap(items)[p.name]) == Ok(texts[p.name])
  {
    ConvertorsLookup(ps, p);
    NamesOf(ps);
    hide ToText, Names, Texts, Distinct;
    TextsKeys(ps, Convertors(ps), items);
    var it :| it in items && it.0 == p.name;
    ValueOfItem(items, it);
  }

  /** With the texts of the parameters of a match the template is filled with the canonical captures. */
  lemma MatchedSubst(ps: seq<Piece>, caps: seq<string>, items: Items)
    requires |caps| == |Names(ps)| && AllAccept(ps, caps) && WellFormed(ps) && Distinct(Names(ps)) && IsDict(items)
    requires ConvertAll(ps, caps) == Ok(ItemsMap(items)) && Convertible(ps, Convertors(ps), items)
    ensures Subst(ps, Texts(ps, Convertors(ps), items)) == Fill(ps, CanonicalAll(ps, caps))
  {
    hide *;
    MatchedItems(ps, caps, items);
    var texts := Texts(ps, Convertors(ps), items);
    forall p <- ps | p.Param?
      ensures p.name in ItemsMap(items) && p.name in texts
      ensures ToText(p.conv, ItemsMap(items)[p.name]) == Ok(texts[p.name])
    {
      MatchedTexts(ps, items, p);
    }
    SubstIsCanonical(ps, caps, ItemsMap(items), ItemsMap(items), texts);
  }

  /**
   * The URL generated from the parameters of a match, in any order, is the template filled
   * with the canonical captures, unless a capture spells a placeholder.
   */
  lemma UrlOfMatch(r: Route, caps: seq<string>, items: Items, others: Items)
    requires r == MakeRoute(r.name, r.methods, r.pieces) && WellFormed(r.pieces) && Distinct(Names(r.pieces))
    requires |caps| == |Names(r.pieces)| && AllAccept(r.pieces, caps)
    requires ConvertAll(r.pieces, caps) == Ok(ItemsMap(items))
    requires Convertible(r.pieces, r.convertors, items) && Undisturbed(r.pieces, r.convertors, items)
    requires Reordered(items, others)
    ensures UrlPathFor(r, r.name, others) == Ok(Fill(r.pieces, CanonicalAll(r.pieces, caps)))
  {
    assert IsDict(items);
    hide *;
    var ps := r.pieces;
    RouteTables(r);
    MatchedItems(ps, caps, items);
    WellFormedIsPlain(ps);
    UrlInAnyOrder(r, items, others);
    MatchedSubst(ps, caps, items);
  }

  lemma RouteTables(r: Route)
    requires r == MakeRoute(r.name, r.methods, r.pieces)
    ensures r.format == Format(r.pieces) && r.convertors == Convertors(r.pieces)
  {
  }

  lemma UrlInAnyOrder(r: Route, items: Items, others: Items)
    requires r.format == Format(r.pieces) && Keys(items) == r.convertors.Keys && Plain(r.pieces)
    requires Convertible(r.pieces, r.convertors, items) && Undisturbed(r.pieces, r.convertors, items)
    requires Reordered(items, others) && forall it <- items :: it.0 in Names(r.pieces)
    ensures UrlPathFor(r, r.name, others) == Ok(Subst(r.pieces, Texts(r.pieces, r.convertors, items)))
  {
    hide Names, Subst, Texts, Format, Undisturbed, Convertible, ReplaceAll, Plain, Unused;
    UndisturbedIsSimultaneous(r.pieces, r.convertors, items, others);
    AllUsed(r.pieces, others);
    assert Keys(others) == Keys(items);
  }

  ghost predicate RegeneratedInAnyOrder(r: Route, items: Items, path: string) {
    forall others :: Reordered(items, others) ==> UrlPathFor(r, r.name, others) == Ok(path)
  }

  /** The canonical captures fill the template to the path when no newline was dropped and no int has a leading zero. */
  lemma FillIsPathIff(ps: seq<Piece>, caps: seq<string>, path: string)
    requires Fits(ps, caps, path)
    ensures Fill(ps, CanonicalAll(ps, caps)) == path <==> IntsCanonical(ps, caps) && |Fill(ps, caps)| == |path|
  {
    hide Fill, AllAccept, Names, IntsCanonical, CanonicalAll;
    FillCanonical(ps, caps);
  }

  /** If every order gives the path, every order has the same outcome. */
  lemma RegeneratedIsUndisturbed(r: Route, items: Items, path: string, a: string)
    requires r == MakeRoute(r.name, r.methods, r.pieces) && Plain(r.pieces) && IsDict(items)
    requires Convertible(r.pieces, r.convertors, items) && OneWithBraces(r.pieces, r.convertors, items, a)
    requires RegeneratedInAnyOrder(r, items, path)
    ensures Undisturbed(r.pieces, r.convertors, items)
  {
    hide Names, Convertors, Texts, Format, Convertible, ReplaceAll, ToText, OneWithBraces, Undisturbed, Plain, IsDict;
    hide Reordered;
    ReorderedSelf(items);
    forall others | Reordered(items, others)
      ensures SameOutcome(ReplaceAll(r.format, r.convertors, items), ReplaceAll(r.format, r.convertors, others))
    {
      assert UrlPathFor(r, r.name, others) == Ok(path) && UrlPathFor(r, r.name, items) == Ok(path);
    }
    OrderIrrelevantIff(r.pieces, r.convertors, items, a);
  }

  /**
   * Matching, then generating: `url_path_for` on the parameters of a match gives the matched
   * path again, in whatever order they are given, if no capture disturbs a placeholder, no
   * int was written with a leading zero and the match dropped no final newline; and
   * only if so, when at most one capture contains braces.
   */
  lemma MatchThenUrlIff(r: Route, sc: Scope, items: Items, a: string)
    requires r == MakeRoute(r.name, r.methods, r.pieces) && WellFormed(r.pieces) && Distinct(Names(r.pieces))
    requires (Matches(r, sc).Full? || Matches(r, sc).Partial?) && sc.params == map[]
    requires IsDict(items) && ItemsMap(items) == Matches(r, sc).params
    ensures var path, caps := RoutePath(sc.path, sc.rootPath), Captures(r.pieces, RoutePath(sc.path, sc.rootPath));
            && caps.Some? && Convertible(r.pieces, r.convertors, items)
            && var intact := && Undisturbed(r.pieces, r.convertors, items)
                             && IntsCanonical(r.pieces, caps.value) && |Fill(r.pieces, caps.value)| == |path|;
               && (intact ==> RegeneratedInAnyOrder(r, items, path))
               && (OneWithBraces(r.pieces, r.convertors, items, a) ==>
                     (RegeneratedInAnyOrder(r, items, path) <==> intact))
  {
    var ps, path := r.pieces, RoutePath(sc.path, sc.rootPath);
    var caps := MatchedCaptures(r, sc);
    MatchedItems(ps, caps, items);
    WellFormedIsPlain(ps);
    hide Match, Fill, Names, ConvertAll, AllAccept, UrlPathFor, IntsCanonical, CanonicalAll, MakeRoute, Matches;
    hide WellFormed, Distinct, Convertible, OneWithBraces, Undisturbed, Reordered, RoutePath;
    FillIsPathIff(ps, caps, path);
    if Undisturbed(ps, r.convertors, items) {
      forall others | Reordered(items, others)
        ensures UrlPathFor(r, r.name, others) == Ok(Fill(ps, CanonicalAll(ps, caps)))
      {
        UrlOfMatch(r, caps, items, others);
      }
      ReorderedSelf(items);
    } else if OneWithBraces(ps, r.convertors, items, a) && RegeneratedInAnyOrder(r, items, path) {
      RegeneratedIsUndisturbed(r, items, path, a);
    }
  }

  /** The captures behind the parameters of a match. */
  lemma MatchedCaptures(r: Route, sc: Scope) returns (caps: seq<string>)
    requires (Matches(r, sc).Full? || Matches(r, sc).Partial?) && sc.params == map[]
    ensures Captures(r.pieces, RoutePath(sc.path, sc.rootPath)) == Some(caps)
    ensures ConvertAll(r.pieces, caps) == Ok(Matches(r, sc).params)
  {
    caps := Captures(r.pieces, RoutePath(sc.path, sc.rootPath)).value;
    var m := ConvertAll(r.pieces, caps).value;
    assert map[] + m == m;
  }

  lemma {:induction false} BracesOfFill(ps: seq<Piece>, caps: seq<string>)
    requires |caps| == |Names(ps)| && AllAccept(ps, caps)
    ensures Braces(Fill(ps, CanonicalAll(ps, caps))) == Braces(Fill(ps, caps))
  {
    hide Accepts, Canonical;
    if ps != [] {
      if ps[0].Lit? {
        BracesOfFill(ps[1..], caps);
        BracesAppend(ps[0].text, Fill(ps[1..], CanonicalAll(ps[1..], caps)));
        BracesAppend(ps[0].text, Fill(ps[1..], caps));
      } else {
        var vs := CanonicalAll(ps, caps);
        BracesOfFill(ps[1..], caps[1..]);
        assert vs[1..] == CanonicalAll(ps[1..], caps[1..]);
        CanonicalBraces(ps[0].conv, caps[0]);
        BracesAppend(vs[0], Fill(ps[1..], vs[1..]));
        BracesAppend(caps[0], Fill(ps[1..], caps[1..]));
      }
    }
  }

  lemma CanonicalBraces(c: Conv, cap: string)
    requires Accepts(c, cap)
    ensures Braces(Canonical(c, cap)) == Braces(cap)
  {
    if c.IntConv? {
      NoBraces(cap);
      NoBraces(Canonical(c, cap));
    }
  }

  /**
   * The same for the order in which the parameters are given: each placeholder must be in
   * turn. This is exact when at most one capture contains braces, and enough otherwise.
   */
  lemma MatchThenUrlInOrderIff(r: Route, sc: Scope, items: Items, a: string)
    requires r == MakeRoute(r.name, r.methods, r.pieces) && WellFormed(r.pieces) && Distinct(Names(r.pieces))
    requires (Matches(r, sc).Full? || Matches(r, sc).Partial?) && sc.params == map[]
    requires IsDict(items) && ItemsMap(items) == Matches(r, sc).params
    ensures var path, caps := RoutePath(sc.path, sc.rootPath), Captures(r.pieces, RoutePath(sc.path, sc.rootPath));
            && caps.Some? && Convertible(r.pieces, r.convertors, items)
            && var intact := && InTurn(r.pieces, r.convertors, items, map[])
                             && IntsCanonical(r.pieces, caps.value) && |Fill(r.pieces, caps.value)| == |path|;
               && (intact ==> UrlPathFor(r, r.name, items) == Ok(path))
               && (OneWithBraces(r.pieces, r.convertors, items, a) ==>
                     (UrlPathFor(r, r.name, items) == Ok(path) <==> intact))
  {
    hide Match, Fill, Names, ConvertAll, AllAccept, UrlPathFor, IntsCanonical, CanonicalAll, MakeRoute, Matches;
    hide WellFormed, Distinct, Convertible, OneWithBraces, InTurn, RoutePath, IsDict, ItemsMap, Format, Convertors;
    var path := RoutePath(sc.path, sc.rootPath);
    var caps := MatchedCaptures(r, sc);
    RouteTables(r);
    MatchedItems(r.pieces, caps, items);
    FillIsPathIff(r.pieces, caps, path);
    if InTurn(r.pieces, r.convertors, items, map[]) {
      UrlInTurn(r, caps, items);
    } else if OneWithBraces(r.pieces, r.convertors, items, a) {
      UrlOutOfTurn(r, caps, items, path, a);
    }
  }

  lemma UrlInTurn(r: Route, caps: seq<string>, items: Items)
    requires r.format == Format(r.pieces) && r.convertors == Convertors(r.pieces)
    requires WellFormed(r.pieces) && Distinct(Names(r.pieces)) && IsDict(items)
    requires |caps| == |Names(r.pieces)| && AllAccept(r.pieces, caps)
    requires ConvertAll(r.pieces, caps) == Ok(ItemsMap(items)) && Convertible(r.pieces, r.convertors, items)
    requires InTurn(r.pieces, r.convertors, items, map[])
    ensures UrlPathFor(r, r.name, items) == Ok(Fill(r.pieces, CanonicalAll(r.pieces, caps)))
  {
    hide *;
    var ps, texts := r.pieces, Texts(r.pieces, r.convertors, items);
    MatchedItems(ps, caps, items);
    WellFormedIsPlain(ps);
    SubstNothing(ps);
    InTurnIsSimultaneous(ps, r.convertors, items, map[]);
    assert map[] + texts == texts;
    MatchedSubst(ps, caps, items);
    AllUsed(ps, items);
    UrlIsReplaced(r, items);
  }

  lemma UrlOutOfTurn(r: Route, caps: seq<string>, items: Items, path: string, a: string)
    requires r.format == Format(r.pieces) && r.convertors == Convertors(r.pieces)
    requires WellFormed(r.pieces) && Distinct(Names(r.pieces)) && IsDict(items) && Fits(r.pieces, caps, path)
    requires ConvertAll(r.pieces, caps) == Ok(ItemsMap(items)) && Convertible(r.pieces, r.convertors, items)
    requires !InTurn(r.pieces, r.convertors, items, map[]) && OneWithBraces(r.pieces, r.convertors, items, a)
    ensures UrlPathFor(r, r.name, items) != Ok(path)
  {
    FitsBraces(r.pieces, caps, path);
    hide *;
    var ps := r.pieces;
    MatchedItems(ps, caps, items);
    WellFormedIsPlain(ps);
    MatchedSubst(ps, caps, items);
    AllUsed(ps, items);
    GivenOrderIff(ps, r.convertors, items, a);
    NotPathIfBehind(r, items, Fill(ps, CanonicalAll(ps, caps)), path);
  }

  /** The matched path has the braces of the template filled with the canonical captures. */
  lemma FitsBraces(ps: seq<Piece>, caps: seq<string>, path: string)
    requires Fits(ps, caps, path)
    ensures Braces(path) == Braces(Fill(ps, CanonicalAll(ps, caps)))
  {
    hide Fill, AllAccept, Names, CanonicalAll;
    BracesOfFill(ps, caps);
    BracesAppend(Fill(ps, caps), "\n");
    NoBraces("\n");
  }

  lemma UrlIsReplaced(r: Route, items: Items)
    requires Keys(items) == r.convertors.Keys
    ensures var q := ReplaceAll(r.format, r.convertors, items);
            forall path :: UrlPathFor(r, r.name, items) == Ok(path) <==> q == Ok((path, []))
  {
  }

  lemma NotPathIfBehind(r: Route, items: Items, full: string, path: string)
    requires Behind(ReplaceAll(r.format, r.convertors, items), full, []) && Braces(path) == Braces(full)
    requires Keys(items) == r.convertors.Keys
    ensures UrlPathFor(r, r.name, items) != Ok(path)
  {
    hide ReplaceAll, Braces;
  }

  /** The URL of the parameters of a match without '{' in its captures. */
  lemma PlainUrl(r: Route, caps: seq<string>, items: Items)
    requires r == MakeRoute(r.name, r.methods, r.pieces) && WellFormed(r.pieces) && Distinct(Names(r.pieces))
    requires |caps| == |Names(r.pieces)| && AllAccept(r.pieces, caps) && IsDict(items)
    requires ConvertAll(r.pieces, caps) == Ok(ItemsMap(items)) && forall cap <- caps :: '{' !in cap
    ensures UrlPathFor(r, r.name, items) == Ok(Fill(r.pieces, CanonicalAll(r.pieces, caps)))
  {
    hide *;
    RouteTables(r);
    MatchedItems(r.pieces, caps, items);
    WellFormedIsPlain(r.pieces);
    RenderableIsUndisturbed(r.pieces, r.convertors, items);
    ReorderedSelf(items);
    UrlOfMatch(r, caps, items, items);
  }

  /** For a path without '{' the order does not matter, and two conditions are left. */
  lemma PlainMatchThenUrlIff(r: Route, sc: Scope, items: Items)
    requires r == MakeRoute(r.name, r.methods, r.pieces) && WellFormed(r.pieces) && Distinct(Names(r.pieces))
    requires (Matches(r, sc).Full? || Matches(r, sc).Partial?) && sc.params == map[]
    requires IsDict(items) && ItemsMap(items) == Matches(r, sc).params && '{' !in RoutePath(sc.path, sc.rootPath)
    ensures var path, caps := RoutePath(sc.path, sc.rootPath), Captures(r.pieces, RoutePath(sc.path, sc.rootPath));
            && caps.Some? && UrlPathFor(r, r.name, items).Ok?
            && (UrlPathFor(r, r.name, items).value == path
                <==> IntsCanonical(r.pieces, caps.value) && |Fill(r.pieces, caps.value)| == |path|)
  {
    var ps, path := r.pieces, RoutePath(sc.path, sc.rootPath);
    var caps := MatchedCaptures(r, sc);
    CapturesInPath(ps, caps);
    assert forall ch <- Fill(ps, caps) :: ch in path;
    hide Match, Fill, Names, ConvertAll, AllAccept, UrlPathFor, IntsCanonical, CanonicalAll, MakeRoute, Matches;
    hide WellFormed, Distinct, RoutePath, IsDict;
    assert forall cap <- caps :: '{' !in cap;
    PlainUrl(r, caps, items);
    FillIsPathIff(ps, caps, path);
  }

  // ----- Paths that are not generated again -----

  /** The template /{a}/{b}. */
  function Two(a: string, b: string): seq<Piece> {
    [Lit("/"), Param(a, StrConv), Lit("/"), Param(b, StrConv), Lit("")]
  }

  lemma TwoRests(a: string, b: string)
    ensures var p1, p2, p3, p4 := Two(a, b)[1..], Two(a, b)[2..], Two(a, b)[3..], Two(a, b)[4..];
            && p1[0] == Param(a, StrConv) && p2[0] == Lit("/") && p3[0] == Param(b, StrConv) && p4[0] == Lit("")
            && p1[1..] == p2 && p2[1..] == p3 && p3[1..] == p4 && p4[1..] == []
  {
  }

  lemma TwoNames(a: string, b: string)
    requires a != b
    ensures Names(Two(a, b)) == [a, b] && Distinct(Names(Two(a, b))) && Separated(Two(a, b))
  {
    TwoRests(a, b);
    var p1, p2, p3, p4 := Two(a, b)[1..], Two(a, b)[2..], Two(a, b)[3..], Two(a, b)[4..];
    assert Names(p4) == [] + [] && Names(p3) == [b] + Names(p4) == [b];
    assert Names(p2) == [] + Names(p3) == [b] && Names(p1) == [a] + Names(p2) == [a, b];
    assert p4 == [Lit("")] && |p4| == 1 && Bounded(StrConv, p4) && Bounded(StrConv, p2);
    assert Separated([]) && Separated(p4) && Separated(p3) && Separated(p2) && Separated(p1);
  }

  lemma TwoFormat(a: string, b: string)
    ensures Format(Two(a, b)) == "/" + Placeholder(a) + ("/" + Placeholder(b))
  {
    hide Placeholder;
    TwoRests(a, b);
    var p1, p2, p3, p4 := Two(a, b)[1..], Two(a, b)[2..], Two(a, b)[3..], Two(a, b)[4..];
    assert Format(p4) == "" + Format([]) == [];
    assert Format(p3) == Placeholder(b) + Format(p4) == Placeholder(b);
    assert Format(p2) == "/" + Placeholder(b);
    JoinThree("/", Placeholder(a), "/" + Placeholder(b));
  }

  lemma TwoFilled(a: string, b: string, v: string, w: string)
    requires Accepts(StrConv, v) && Accepts(StrConv, w) && Names(Two(a, b)) == [a, b]
    ensures AllAccept(Two(a, b), [v, w]) && Fill(Two(a, b), [v, w]) == "/" + v + ("/" + w)
  {
    hide Accepts;
    TwoRests(a, b);
    var p1, p2, p3, p4 := Two(a, b)[1..], Two(a, b)[2..], Two(a, b)[3..], Two(a, b)[4..];
    assert [v, w][1..] == [w] && [w][1..] == [];
    assert Names(p4) == [] + [] && Names(p3) == [b] + Names(p4) == [b];
    assert Names(p2) == [] + Names(p3) == [b] && Names(p1) == [a] + Names(p2) == [a, b];
    assert AllAccept(p4, []) && AllAccept(p3, [w]) && AllAccept(p2, [w]) && AllAccept(p1, [v, w]);
    assert Fill(p4, []) == "" + [] == [];
    assert Fill(p3, [w]) == [w][0] + Fill(p3[1..], [w][1..]) == w + [] == w;
    assert Fill(p2, [w]) == "/" + w;
    JoinThree("/", v, "/" + w);
  }

  lemma TwoConverted(a: string, b: string, v: string, w: string)
    requires a != b && Names(Two(a, b)) == [a, b] && AllAccept(Two(a, b), [v, w])
    ensures ConvertAll(Two(a, b), [v, w]) == Ok(map[a := StrVal(v), b := StrVal(w)])
  {
    hide Accepts;
    TwoRests(a, b);
    var p1, p2, p3, p4 := Two(a, b)[1..], Two(a, b)[2..], Two(a, b)[3..], Two(a, b)[4..];
    var none: map<string, Value>, m: map<string, Value> := map[], map[b := StrVal(w)];
    assert [v, w][1..] == [w] && [w][1..] == [];
    assert Names(p4) == [] + [] && Names(p3) == [b] + Names(p4) == [b];
    assert Names(p2) == [] + Names(p3) == [b] && Names(p1) == [a] + Names(p2) == [a, b];
    assert AllAccept(p1, [v, w]) && AllAccept(p2, [w]) && AllAccept(p3, [w]) && AllAccept(p4, []);
    assert ConvertAll(p4, []) == Ok(none) && m + none == m;
    assert Convert(StrConv, w) == Ok(StrVal(w)) && ConvertAll(p3[1..], [w][1..]) == Ok(none);
    assert ConvertAll(p3, [w]) == Ok(m);
    assert ConvertAll(p2, [w]) == Ok(m);
    assert map[a := StrVal(v)] + m == map[a := StrVal(v), b := StrVal(w)];
  }

  /** First {a} becomes {b}, then both become the value of b. */
  lemma TwoReplaced(a: string, b: string, w: string)
    requires BraceFree(a) && BraceFree(b) && a != b && '{' !in w
    ensures var pa, pb := Placeholder(a), Placeholder(b);
            && Replace("/" + pa + ("/" + pb), pa, pb) == "/" + pb + ("/" + pb)
            && Replace("/" + pb + ("/" + pb), pb, w) == "/" + w + ("/" + w)
  {
    hide Replace, Placeholder;
    var pa, pb := Placeholder(a), Placeholder(b);
    SlashThenLast(a, b, pb);
    SlashThenLast(b, b, w);
    ReplaceSplit("/", a, "/" + pb, a, pb);
    ReplaceSplit("/", b, "/" + pb, b, w);
  }

  lemma SlashThenLast(k: string, b: string, t: string)
    requires BraceFree(k) && BraceFree(b)
    ensures Replace("/", Placeholder(k), t) == "/"
    ensures Replace("/" + Placeholder(b), Placeholder(k), t) == "/" + (if b == k then t else Placeholder(b))
  {
    hide Replace, Placeholder;
    EmptyText(k, t);
    ReplaceSkip("/", [], k, t);
    ReplaceSplit("/", b, [], k, t);
    assert "/" + [] == "/" && "/" + Placeholder(b) + [] == "/" + Placeholder(b);
  }

  lemma ContainsMiddle(a: string, b: string, c: string)
    ensures Contains(a + b + c, b)
  {
    assert At(a + b + c, |a|, b);
    ContainsIff(a + b + c, b);
  }

  /**
   * The route /{a}/{b}, for all names: a request for "/{b}/w" matches with the texts "{b}" and
   * "w", and the URL of these parameters is "/w/w".
   */
  lemma BraceIsReplaced(a: string, b: string, w: string, sc: Scope)
    requires BraceFree(a) && BraceFree(b) && a != b && '/' !in b && Accepts(StrConv, w) && '{' !in w
    requires sc.kind.Http? && sc.params == map[] && RoutePath(sc.path, sc.rootPath) == "/" + Placeholder(b) + ("/" + w)
    ensures var r, v := MakeRoute("two", None, Two(a, b)), Placeholder(b);
            && Matches(r, sc) == Full(map[a := StrVal(v), b := StrVal(w)])
            && UrlPathFor(r, "two", [(a, StrVal(v)), (b, StrVal(w))]) == Ok("/" + w + ("/" + w))
  {
    hide *;
    TwoMatched(a, b, w, sc);
    TwoGenerated(a, b, w);
  }

  lemma TwoMatched(a: string, b: string, w: string, sc: Scope)
    requires a != b && '/' !in b && Accepts(StrConv, w)
    requires sc.kind.Http? && sc.params == map[] && RoutePath(sc.path, sc.rootPath) == "/" + Placeholder(b) + ("/" + w)
    ensures Matches(MakeRoute("two", None, Two(a, b)), sc) == Full(map[a := StrVal(Placeholder(b)), b := StrVal(w)])
  {
    var ps, v := Two(a, b), Placeholder(b);
    assert Accepts(StrConv, v);
    TwoNames(a, b);
    hide Two, Match, Fill, Names, AllAccept, ConvertAll, Separated, Distinct, Accepts, Format, Convertors, RoutePath;
    hide Placeholder;
    TwoFilled(a, b, v, w);
    TwoConverted(a, b, v, w);
    MatchFilled(ps, [v, w]);
    var m: map<string, Value> := map[a := StrVal(v), b := StrVal(w)];
    assert map[] + m == m;
  }

  lemma TwoGenerated(a: string, b: string, w: string)
    requires BraceFree(a) && BraceFree(b) && a != b && '/' !in b && Accepts(StrConv, w) && '{' !in w
    ensures UrlPathFor(MakeRoute("two", None, Two(a, b)), "two", [(a, StrVal(Placeholder(b))), (b, StrVal(w))])
            == Ok("/" + w + ("/" + w))
  {
    var ps, v, items := Two(a, b), Placeholder(b), [(a, StrVal(Placeholder(b))), (b, StrVal(w))];
    assert ToText(StrConv, StrVal(v)) == Ok(v) && ToText(StrConv, StrVal(w)) == Ok(w);
    assert Param(a, StrConv) == ps[1] && Param(b, StrConv) == ps[3];
    hide Two, ToText, Accepts, Placeholder;
    TwoNames(a, b);
    ConvertorsKeys(ps);
    ConvertorsLookup(ps, Param(a, StrConv));
    ConvertorsLookup(ps, Param(b, StrConv));
    assert Keys(items) == {a, b} == Convertors(ps).Keys;
    hide Names, Format, Convertors, ReplaceAll, Contains, Replace, Distinct, Separated;
    TwoFormat(a, b);
    TwoReplaced(a, b, w);
    ContainsMiddle("/", Placeholder(a), "/" + v);
    ContainsMiddle("/", v, "/" + v);
    TwoSteps("/" + Placeholder(a) + ("/" + v), Convertors(ps), (a, StrVal(v)), (b, StrVal(w)),
             "/" + v + ("/" + v), "/" + w + ("/" + w));
  }

  /** The template /{n} with an int. */
  function OneInt(n: string): seq<Piece> {
    [Lit("/"), Param(n, IntConv), Lit("")]
  }

  lemma OneIntFilled(n: string, digits: string)
    requires Accepts(IntConv, digits)
    ensures Names(OneInt(n)) == [n] && AllAccept(OneInt(n), [digits]) && Fill(OneInt(n), [digits]) == "/" + digits
    ensures Separated(OneInt(n))
  {
    hide Accepts;
    var ps, back, end := OneInt(n), [Param(n, IntConv), Lit("")], [Lit("")];
    assert ps[1..] == back && back[1..] == end && end[1..] == [] && [digits][1..] == [];
    assert Names(end) == [] + [] && Names(back) == [n] + Names(end) == [n] && Names(ps) == [] + Names(back) == [n];
    assert AllAccept(end, []) && AllAccept(back, [digits]);
    assert Fill(end, []) == "" + [] == [] && Fill(back, [digits]) == [digits][0] + Fill(end, []) == digits;
    assert |end| == 1 && Bounded(IntConv, end) && Separated([]) && Separated(end) && Separated(back);
  }

  lemma OneIntConverted(n: string, digits: string, number: nat)
    requires Accepts(IntConv, digits) && Convert(IntConv, digits) == Ok(IntVal(number))
    requires Names(OneInt(n)) == [n] && AllAccept(OneInt(n), [digits])
    ensures ConvertAll(OneInt(n), [digits]) == Ok(map[n := IntVal(number)])
    ensures CanonicalAll(OneInt(n), [digits]) == [Canonical(IntConv, digits)]
  {
    hide Accepts, Convert, Canonical;
    var ps, back, end := OneInt(n), [Param(n, IntConv), Lit("")], [Lit("")];
    var none: map<string, Value>, m: map<string, Value> := map[], map[n := IntVal(number)];
    assert ps[1..] == back && back[1..] == end && end[1..] == [] && [digits][1..] == [];
    assert Names(end) == [] + [] && Names(back) == [n] + Names(end) == [n];
    assert AllAccept(back, [digits]) && AllAccept(end, []);
    assert ConvertAll(end, []) == Ok(none) && m + none == m && ConvertAll(back, [digits]) == Ok(m);
    assert CanonicalAll(end, []) == [] && CanonicalAll(back, [digits]) == [Canonical(IntConv, digits)] + [];
  }

  /**
   * The route /{n:int}, for every name and every number with a superfluous zero in front,
   * such as "/007": it matches, and the URL of its parameter is shorter.
   */
  lemma LeadingZeroIsLost(n: string, digits: string, sc: Scope)
    requires IsIdentifier(n) && Accepts(IntConv, digits) && |digits| <= MAX_DIGITS && !NoLeadingZero(digits)
    requires sc.kind.Http? && sc.params == map[] && RoutePath(sc.path, sc.rootPath) == "/" + digits
    ensures var r, value := MakeRoute("one", None, OneInt(n)), IntVal(ParseDecimal(digits));
            && Matches(r, sc) == Full(map[n := value])
            && UrlPathFor(r, "one", [(n, value)]) == Ok("/" + Decimal(ParseDecimal(digits)))
            && |Decimal(ParseDecimal(digits))| < |digits|
  {
    DigitsText(digits);
    DecimalOfDigits(digits);
    var number, short := ParseDecimal(digits), Decimal(ParseDecimal(digits));
    assert Convert(IntConv, digits) == Ok(IntVal(number));
    hide *;
    OneIntMatched(n, digits, number, sc);
    OneIntUrl(n, digits, number, short);
  }

  lemma OneIntMatched(n: string, digits: string, number: nat, sc: Scope)
    requires Accepts(IntConv, digits) && Convert(IntConv, digits) == Ok(IntVal(number))
    requires sc.kind.Http? && sc.params == map[] && RoutePath(sc.path, sc.rootPath) == "/" + digits
    ensures Matches(MakeRoute("one", None, OneInt(n)), sc) == Full(map[n := IntVal(number)])
  {
    hide OneInt, Fill, ConvertAll, AllAccept, CanonicalAll, Names, Separated, Match, RoutePath, Format, Convertors;
    hide Accepts, Convert, Canonical;
    OneIntFilled(n, digits);
    OneIntConverted(n, digits, number);
    MatchFilled(OneInt(n), [digits]);
    var m: map<string, Value> := map[n := IntVal(number)];
    assert map[] + m == m;
  }

  lemma OneIntUrl(n: string, digits: string, number: nat, short: string)
    requires IsIdentifier(n) && Accepts(IntConv, digits) && Convert(IntConv, digits) == Ok(IntVal(number))
    requires Canonical(IntConv, digits) == short && Accepts(IntConv, short) && '{' !in digits
    ensures UrlPathFor(MakeRoute("one", None, OneInt(n)), "one", [(n, IntVal(number))]) == Ok("/" + short)
  {
    hide *;
    var r, items := MakeRoute("one", None, OneInt(n)), [(n, IntVal(number))];
    OneIntFilled(n, digits);
    OneIntConverted(n, digits, number);
    OneIntFilled(n, short);
    OneIsDistinct(n);
    OneIntShape(n, IntVal(number));
    PlainUrl(r, [digits], items);
  }

  lemma DigitsText(digits: string)
    requires Accepts(IntConv, digits)
    ensures AllDigits(digits) && Canonical(IntConv, digits) == Decimal(ParseDecimal(digits))
    ensures Accepts(IntConv, Decimal(ParseDecimal(digits))) && '{' !in digits
  {
  }

  lemma OneIntShape(n: string, value: Value)
    requires IsIdentifier(n)
    ensures var r, items := MakeRoute("one", None, OneInt(n)), [(n, value)];
            && r == MakeRoute(r.name, r.methods, r.pieces) && r.name == "one" && r.pieces == OneInt(n)
            && WellFormed(r.pieces) && IsDict(items) && ItemsMap(items) == map[n := value]
  {
    hide IsIdentifier, Format, Convertors;
    assert Keys([(n, value)]) == {n};
  }

  lemma OneIsDistinct(n: string)
    ensures Distinct([n])
  {
  }

  /** The route /a: a request for "/a" with a newline behind matches, and its URL has none. */
  lemma NewlineIsLost()
    ensures var r, sc := MakeRoute("a", None, [Lit("/a")]), Scope(Http, "GET", "/a\n", "", map[], None);
            Matches(r, sc) == Full(map[]) && UrlPathFor(r, "a", []) == Ok("/a")
  {
    var ps := [Lit("/a")];
    assert ps[1..] == [] && ps[..0] == [] && "/a\n"[|"/a"|..] == "\n" && "/a" + [] == "/a";
    assert "/a" <= "/a\n" by {
      assert "/a\n"[..2] == "/a";
    }
    assert Match([], "\n") == Some([]) && Match(ps, "/a\n") == Match([], "\n");
    assert Names(ps) == [] && ConvertAll(ps, []) == Ok(map[]);
    var none: map<string, Value> := map[];
    assert none + none == none;
    assert Format(ps) == "/a" + Format([]) && Convertors(ps) == map[];
  }
}
