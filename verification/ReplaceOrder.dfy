/**
 * When the order of the parameters matters to `replace_params`: the exact condition for
 * values that may contain braces themselves.
 */
module ReplaceOrder {
  import opened Common
  import opened Text
  import opened Templates
  import opened PathCompiler
  import opened ReplaceParams

  // ----- Counting -----

  /** `s.count(pat)`. */
  function Occurrences(s: string, pat: string): nat
    requires pat != []
    decreases |s|
  {
    if |s| < |pat| then 0
    else if s[..|pat|] == pat then 1 + Occurrences(s[|pat|..], pat)
    else Occurrences(s[1..], pat)
  }

  function Braces(s: string): nat {
    if s == [] then 0 else (if s[0] == '{' then 1 else 0) + Braces(s[1..])
  }

  /** How often the template names the parameter. */
  function TimesNamed(ps: seq<Piece>, k: string): nat {
    if ps == [] then 0 else (if ps[0].Param? && ps[0].name == k then 1 else 0) + TimesNamed(ps[1..], k)
  }

  lemma {:induction false} BracesAppend(a: string, b: string)
    ensures Braces(a + b) == Braces(a) + Braces(b)
  {
    if a == [] {
      assert a + b == b;
    } else {
      assert (a + b)[1..] == a[1..] + b && (a + b)[0] == a[0];
      BracesAppend(a[1..], b);
    }
  }

  lemma {:induction false} NoBraces(s: string)
    requires '{' !in s
    ensures Braces(s) == 0
  {
    if s != [] {
      NoBraces(s[1..]);
    }
  }

  lemma BracesOfPlaceholder(k: string)
    requires BraceFree(k)
    ensures Braces(Placeholder(k)) == 1
  {
    var rest := k + "}";
    assert Placeholder(k)[1..] == rest && Placeholder(k)[0] == '{';
    NoBraces(rest);
  }

  /** Each replacement takes one '{' away. */
  lemma {:induction false} BracesLost(s: string, k: string, t: string)
    requires BraceFree(k) && '{' !in t
    ensures Braces(Replace(s, Placeholder(k), t)) + Occurrences(s, Placeholder(k)) == Braces(s)
    decreases |s|
  {
    var pat := Placeholder(k);
    hide Placeholder;
    if |s| >= |pat| {
      if s[..|pat|] == pat {
        var rest := s[|pat|..];
        BracesLost(rest, k, t);
        BracesAppend(t, Replace(rest, pat, t));
        NoBraces(t);
        BracesAppend(pat, rest);
        BracesOfPlaceholder(k);
        assert s == pat + rest;
      } else {
        BracesLost(s[1..], k, t);
        BracesAppend([s[0]], Replace(s[1..], pat, t));
        BracesAppend([s[0]], s[1..]);
        assert s == [s[0]] + s[1..];
      }
    }
  }

  /** What does not occur is not replaced. */
  lemma {:induction false} NothingReplaced(s: string, pat: string, t: string)
    requires pat != [] && Occurrences(s, pat) == 0
    ensures Replace(s, pat, t) == s
    decreases |s|
  {
    if |s| >= |pat| {
      NothingReplaced(s[1..], pat, t);
    }
  }

  lemma {:induction false} OccursIffContained(s: string, k: string)
    ensures Contains(s, Placeholder(k)) <==> Occurrences(s, Placeholder(k)) > 0
    decreases |s|
  {
    var pat := Placeholder(k);
    ContainsIff(s, pat);
    if |s| >= |pat| {
      if s[..|pat|] == pat {
        assert At(s, 0, pat);
      } else {
        assert s == [s[0]] + s[1..];
        ContainsTail(s[0], s[1..], pat);
        OccursIffContained(s[1..], k);
      }
    }
  }

  lemma EmptyText(k: string, t: string)
    ensures Occurrences([], Placeholder(k)) == 0 && Replace([], Placeholder(k), t) == []
  {
  }

  // ----- Occurrences and concatenation -----

  /** A placeholder inside a text is a border that no other occurrence crosses. */
  lemma {:induction false} ReplaceSplit(p: string, n: string, q: string, k: string, t: string)
    requires BraceFree(n) && BraceFree(k)
    ensures Replace(p + Placeholder(n) + q, Placeholder(k), t)
            == Replace(p, Placeholder(k), t) + (if n == k then t else Placeholder(n)) + Replace(q, Placeholder(k), t)
    decreases |p|
  {
    hide Replace, Placeholder, At;
    var pat, s := Placeholder(k), p + Placeholder(n) + q;
    var mid, end := if n == k then t else Placeholder(n), Replace(q, pat, t);
    if p == [] {
      assert s == Placeholder(n) + q;
      SplitAtStart(n, q, k, t);
    } else if At(p, 0, pat) {
      MatchStays(p, Placeholder(n) + q, pat);
      assert s == p + (Placeholder(n) + q);
      var rest := p[|pat|..];
      assert rest + (Placeholder(n) + q) == rest + Placeholder(n) + q;
      ReplaceSplit(rest, n, q, k, t);
      ReplaceStart(s, pat, t);
      ReplaceStart(p, pat, t);
      JoinThree(t, Replace(rest, pat, t), mid);
      JoinThree(t, Replace(rest, pat, t) + mid, end);
    } else {
      NoMatchHere(p, n, q, k);
      assert s[0] == p[0] && s[1..] == p[1..] + Placeholder(n) + q;
      ReplaceSplit(p[1..], n, q, k, t);
      ReplaceStart(s, pat, t);
      ReplaceStart(p, pat, t);
      JoinThree([p[0]], Replace(p[1..], pat, t), mid);
      JoinThree([p[0]], Replace(p[1..], pat, t) + mid, end);
    }
  }

  lemma MatchStays(p: string, q: string, pat: string)
    requires At(p, 0, pat)
    ensures At(p + q, 0, pat) && |p| >= |pat| && (p + q)[|pat|..] == p[|pat|..] + q
  {
    assert (p + q)[0..|pat|] == p[0..|pat|];
  }

  lemma ReplaceStart(s: string, pat: string, t: string)
    requires s != [] && pat != []
    ensures At(s, 0, pat) ==> Replace(s, pat, t) == t + Replace(s[|pat|..], pat, t)
    ensures !At(s, 0, pat) ==> Replace(s, pat, t) == [s[0]] + Replace(s[1..], pat, t)
  {
    assert |s| >= |pat| ==> s[..|pat|] == s[0..|pat|];
    assert s == [s[0]] + s[1..];
  }

  lemma SplitAtStart(n: string, q: string, k: string, t: string)
    requires BraceFree(n) && BraceFree(k)
    ensures Replace(Placeholder(n) + q, Placeholder(k), t)
            == [] + (if n == k then t else Placeholder(n)) + Replace(q, Placeholder(k), t)
    ensures Replace([], Placeholder(k), t) == []
  {
    assert Replace([], Placeholder(k), t) == [];
    hide Replace;
    if n == k {
      ReplaceHit(k, q, t);
    } else {
      ReplaceOther(n, k, q, t);
    }
  }

  /** Neither in `p` nor across its end. */
  lemma NoMatchHere(p: string, n: string, q: string, k: string)
    requires BraceFree(k) && p != [] && !At(p, 0, Placeholder(k))
    ensures !At(p + Placeholder(n) + q, 0, Placeholder(k))
  {
    var pat, s := Placeholder(k), p + Placeholder(n) + q;
    if |p| >= |pat| {
      assert s[0..|pat|] == p[0..|pat|];
    } else if |s| >= |pat| {
      assert s[0..|pat|][|p|] == '{';
      assert pat[|p|] == (k + "}")[|p| - 1];
      assert (k + "}")[|p| - 1] != '{' by {
        assert forall c <- k + "}" :: c != '{';
      }
    }
  }

  lemma OccurrencesSplit(p: string, n: string, q: string, k: string)
    requires BraceFree(n) && BraceFree(k)
    ensures Occurrences(p + Placeholder(n) + q, Placeholder(k))
            == Occurrences(p, Placeholder(k)) + (if n == k then 1 else 0) + Occurrences(q, Placeholder(k))
  {
    hide Replace, Occurrences, Placeholder, Braces;
    var pat, mid := Placeholder(k), if n == k then "" else Placeholder(n);
    ReplaceSplit(p, n, q, k, "");
    BracesLost(p + Placeholder(n) + q, k, "");
    BracesLost(p, k, "");
    BracesLost(q, k, "");
    BracesOfPlaceholder(n);
    BracesAppend(p + Placeholder(n), q);
    BracesAppend(p, Placeholder(n));
    BracesAppend(Replace(p, pat, "") + mid, Replace(q, pat, ""));
    BracesAppend(Replace(p, pat, ""), mid);
    NoBraces("");
  }

  lemma {:induction false} OccurrencesSkip(a: string, b: string, k: string)
    requires '{' !in a
    ensures Occurrences(a + b, Placeholder(k)) == Occurrences(b, Placeholder(k))
    decreases |a|
  {
    var pat := Placeholder(k);
    if a == [] {
      assert a + b == b;
    } else {
      assert (a + b)[0] == a[0] && pat[0] == '{' && (a + b)[1..] == a[1..] + b;
      OccurrencesSkip(a[1..], b, k);
      assert |a + b| >= |pat| ==> (a + b)[..|pat|] != pat;
    }
  }

  /** Joining two texts loses no occurrence. */
  lemma {:induction false} OccurrencesJoin(p: string, q: string, k: string)
    requires BraceFree(k)
    ensures Occurrences(p + q, Placeholder(k)) >= Occurrences(p, Placeholder(k)) + Occurrences(q, Placeholder(k))
    decreases |p|
  {
    var pat, s := Placeholder(k), p + q;
    if p == [] {
      assert s == q;
    } else if |p| >= |pat| && p[..|pat|] == pat {
      assert s[..|pat|] == pat && s[|pat|..] == p[|pat|..] + q;
      OccurrencesJoin(p[|pat|..], q, k);
    } else if |p| < |pat| <= |s| && s[..|pat|] == pat {
      var cut := |pat| - |p|;
      assert q[..cut] == pat[|p|..] && pat[|p|..] == (k + "}")[|p| - 1..];
      assert forall c <- k + "}" :: c != '{';
      assert q == q[..cut] + q[cut..] && s[|pat|..] == q[cut..];
      OccurrencesSkip(q[..cut], q[cut..], k);
    } else {
      assert |p| >= |pat| ==> s[..|pat|] == p[..|pat|];
      assert s[1..] == p[1..] + q;
      OccurrencesJoin(p[1..], q, k);
    }
  }

  // ----- Templates with arbitrary texts -----

  /** Every named place holds the placeholder while its parameter is not replaced. */
  lemma {:induction false} NamedPlacesOccur(p: string, ps: seq<Piece>, sub: map<string, string>, k: string, t: string)
    requires Plain(ps) && BraceFree(k) && k !in sub
    ensures var s := p + Subst(ps, sub);
            && Occurrences(s, Placeholder(k)) >= TimesNamed(ps, k)
            && (Occurrences(s, Placeholder(k)) == TimesNamed(ps, k) ==>
                  Replace(s, Placeholder(k), t) == p + Subst(ps, sub[k := t]))
    decreases |ps|
  {
    hide Replace, Occurrences, Placeholder;
    var pat := Placeholder(k);
    if ps == [] {
      assert p + [] == p;
      if Occurrences(p, pat) == 0 {
        NothingReplaced(p, pat, t);
      }
    } else {
      var rest := ps[1..];
      assert ps[0] in ps && forall x <- rest :: x in ps;
      if ps[0].Lit? || ps[0].name in sub {
        var text := if ps[0].Lit? then ps[0].text else sub[ps[0].name];
        NamedPlacesOccur(p + text, rest, sub, k, t);
        JoinThree(p, text, Subst(rest, sub));
        JoinThree(p, text, Subst(rest, sub[k := t]));
      } else {
        NamedPlaceStep(p, ps, sub, k, t);
        NamedPlacesOccur([], rest, sub, k, t);
        assert [] + Subst(rest, sub) == Subst(rest, sub);
      }
    }
  }

  /** One parameter that is still a placeholder. */
  lemma NamedPlaceStep(p: string, ps: seq<Piece>, sub: map<string, string>, k: string, t: string)
    requires Plain(ps) && BraceFree(k) && k !in sub && ps != [] && ps[0].Param? && ps[0].name !in sub
    ensures var rest, s, pat := Subst(ps[1..], sub), p + Subst(ps, sub), Placeholder(k);
            && Occurrences(s, pat) == Occurrences(p, pat) + (if ps[0].name == k then 1 else 0) + Occurrences(rest, pat)
            && (Occurrences(p, pat) == 0 && Replace(rest, pat, t) == Subst(ps[1..], sub[k := t]) ==>
                  Replace(s, pat, t) == p + Subst(ps, sub[k := t]))
  {
    hide Replace, Occurrences, Placeholder;
    var n, rest, pat := ps[0].name, Subst(ps[1..], sub), Placeholder(k);
    assert ps[0] in ps;
    JoinThree(p, Placeholder(n), rest);
    OccurrencesSplit(p, n, rest, k);
    ReplaceSplit(p, n, rest, k, t);
    if Occurrences(p, pat) == 0 {
      NothingReplaced(p, pat, t);
      JoinThree(p, if n == k then t else Placeholder(n), Subst(ps[1..], sub[k := t]));
    }
  }

  predicate Within(small: map<string, string>, large: map<string, string>) {
    forall n <- small :: n in large && large[n] == small[n]
  }

  /** Putting in further texts loses no occurrence of other placeholders. */
  lemma {:induction false} OccurrencesGrow(p: string, ps: seq<Piece>, small: map<string, string>,
                                           large: map<string, string>, k: string)
    requires Plain(ps) && BraceFree(k) && k !in large && Within(small, large)
    ensures Occurrences(p + Subst(ps, small), Placeholder(k)) <= Occurrences(p + Subst(ps, large), Placeholder(k))
    decreases |ps|
  {
    hide Occurrences, Placeholder, Replace;
    if ps != [] {
      var rest, pat := ps[1..], Placeholder(k);
      assert ps[0] in ps && forall x <- rest :: x in ps;
      var low, high := Subst(rest, small), Subst(rest, large);
      if ps[0].Lit? || ps[0].name in small {
        var text := if ps[0].Lit? then ps[0].text else small[ps[0].name];
        OccurrencesGrow(p + text, rest, small, large, k);
        JoinThree(p, text, low);
        JoinThree(p, text, high);
      } else {
        NamedPlaceStep(p, ps, small, k, "");
        OccurrencesGrow([], rest, small, large, k);
        assert [] + low == low && [] + high == high;
        if ps[0].name in large {
          OccurrencesJoin(large[ps[0].name], high, k);
          OccurrencesJoin(p, large[ps[0].name] + high, k);
        } else {
          NamedPlaceStep(p, ps, large, k, "");
        }
      }
    }
  }

  lemma {:induction false} NamedIff(ps: seq<Piece>, k: string)
    ensures TimesNamed(ps, k) > 0 <==> k in Names(ps)
  {
    if ps != [] {
      NamedIff(ps[1..], k);
    }
  }

  lemma {:induction false} BracesOfSubst(ps: seq<Piece>, sub: map<string, string>, k: string, t: string)
    requires BraceFree(k) && k !in sub && '{' !in t
    ensures Braces(Subst(ps, sub[k := t])) + TimesNamed(ps, k) == Braces(Subst(ps, sub))
  {
    hide Placeholder, Braces;
    if ps != [] {
      var rest := ps[1..];
      BracesOfSubst(rest, sub, k, t);
      var text := match ps[0] case Lit(x) => x case Param(n, _) => if n in sub then sub[n] else Placeholder(n);
      BracesAppend(text, Subst(rest, sub));
      BracesAppend(text, Subst(rest, sub[k := t]));
      if ps[0].Param? && ps[0].name == k {
        BracesAppend(t, Subst(rest, sub[k := t]));
        BracesOfPlaceholder(k);
        NoBraces(t);
      }
    }
  }

  /** Texts without '{' add no occurrence to those of the template. */
  lemma PlainTextsAddNothing(ps: seq<Piece>, sub: map<string, string>, k: string)
    requires Plain(ps) && BraceFree(k) && k !in sub && forall n <- sub :: '{' !in sub[n]
    ensures Occurrences(Subst(ps, sub), Placeholder(k)) == TimesNamed(ps, k)
  {
    hide Replace, Occurrences, Placeholder, Braces, Subst;
    ReplaceSubst(ps, sub, k, "");
    BracesLost(Subst(ps, sub), k, "");
    BracesOfSubst(ps, sub, k, "");
  }

  // ----- Every order gives the simultaneous substitution -----

  /**
   * With the texts of the others in place, the placeholder of each parameter occurs only
   * where the template names it: no text, alone or with its surroundings, spells one.
   */
  predicate Undisturbed(ps: seq<Piece>, convs: map<string, Conv>, items: Items)
    requires Convertible(ps, convs, items)
  {
    forall it <- items ::
      Occurrences(Subst(ps, Texts(ps, convs, items) - {it.0}), Placeholder(it.0)) == TimesNamed(ps, it.0)
  }

  lemma {:induction false} ReplaceAllUndisturbed(ps: seq<Piece>, convs: map<string, Conv>, items: Items,
                                                 sub: map<string, string>, all: map<string, string>)
    requires Plain(ps) && IsDict(items) && Convertible(ps, convs, items)
    requires all == sub + Texts(ps, convs, items) && forall it <- items :: it.0 !in sub
    requires forall it <- items ::
               Occurrences(Subst(ps, all - {it.0}), Placeholder(it.0)) == TimesNamed(ps, it.0)
    ensures ReplaceAll(Subst(ps, sub), convs, items) == Ok((Subst(ps, all), Unused(ps, items)))
    decreases |items|
  {
    hide Subst, ToText, Replace, Contains, Names, Occurrences, Placeholder, TimesNamed, Plain, ReplaceAll, Texts;
    if items == [] {
      ReplaceNothing(ps, convs, Subst(ps, sub));
      assert all == sub;
    } else {
      var (k, v) := items[0];
      var rest := items[1..];
      assert items[0] in items && forall it <- rest :: it in items && it.0 != k;
      var t := if k in Names(ps) then ToText(convs[k], v).value else "";
      TextsSplit(ps, convs, items, sub);
      TextsKeys(ps, convs, items);
      assert Within(sub, all);
      StepUndisturbed(ps, sub, all, k, t);
      ReplaceFirst(ps, convs, items, Subst(ps, sub));
      if k in Names(ps) {
        ReplaceAllUndisturbed(ps, convs, rest, sub[k := t], all);
      } else {
        ReplaceAllUndisturbed(ps, convs, rest, sub, all);
      }
    }
  }

  lemma ReplaceNothing(ps: seq<Piece>, convs: map<string, Conv>, path: string)
    ensures ReplaceAll(path, convs, []) == Ok((path, [])) && Unused(ps, []) == [] && Texts(ps, convs, []) == map[]
  {
  }

  /** The texts of a dict: that of its first item, if named, and those of the others. */
  lemma TextsSplit(ps: seq<Piece>, convs: map<string, Conv>, items: Items, sub: map<string, string>)
    requires items != [] && IsDict(items) && Convertible(ps, convs, items)
    ensures Convertible(ps, convs, items[1..])
    ensures var (k, v) := items[0];
            sub + Texts(ps, convs, items) ==
              if k in Names(ps) then sub[k := ToText(convs[k], v).value] + Texts(ps, convs, items[1..])
              else sub + Texts(ps, convs, items[1..])
  {
    hide ToText, Names;
    assert items[0] in items && forall it <- items[1..] :: it in items && it.0 != items[0].0;
    TextsKeys(ps, convs, items[1..]);
    assert items[0].0 !in Texts(ps, convs, items[1..]);
  }

  /** The first item of a dict when its placeholder stands where the template says. */
  lemma ReplaceFirst(ps: seq<Piece>, convs: map<string, Conv>, items: Items, path: string)
    requires items != [] && Convertible(ps, convs, items)
    requires Contains(path, Placeholder(items[0].0)) <==> items[0].0 in Names(ps)
    ensures var (k, v) := items[0];
            if k in Names(ps) then
              && ReplaceAll(path, convs, items)
                 == ReplaceAll(Replace(path, Placeholder(k), ToText(convs[k], v).value), convs, items[1..])
              && Unused(ps, items) == Unused(ps, items[1..])
            else
              && ReplaceAll(path, convs, items) == Keeping([items[0]], ReplaceAll(path, convs, items[1..]))
              && Unused(ps, items) == [items[0]] + Unused(ps, items[1..])
  {
    hide ToText, Names, Contains, Replace, Placeholder;
    assert items[0] in items;
  }

  lemma StepUndisturbed(ps: seq<Piece>, sub: map<string, string>, all: map<string, string>, k: string, t: string)
    requires Plain(ps) && BraceFree(k) && k !in sub && Within(sub, all)
    requires Occurrences(Subst(ps, all - {k}), Placeholder(k)) == TimesNamed(ps, k)
    ensures Contains(Subst(ps, sub), Placeholder(k)) <==> k in Names(ps)
    ensures Replace(Subst(ps, sub), Placeholder(k), t) == Subst(ps, sub[k := t])
  {
    hide Subst, Replace, Contains, Names, Occurrences, Placeholder, TimesNamed, Plain;
    var s := Subst(ps, sub);
    assert [] + s == s && [] + Subst(ps, all - {k}) == Subst(ps, all - {k});
    assert [] + Subst(ps, sub[k := t]) == Subst(ps, sub[k := t]);
    OccurrencesGrow([], ps, sub, all - {k}, k);
    NamedPlacesOccur([], ps, sub, k, t);
    OccursIffContained(s, k);
    NamedIff(ps, k);
  }

  /** Two dicts with the same items, possibly in another order. */
  ghost predicate Reordered(items: Items, others: Items) {
    IsDict(items) && IsDict(others) && forall it :: it in items <==> it in others
  }

  /** The same path and the same parameters left over, or the same error. */
  ghost predicate SameOutcome(r: Result<(string, Items), UrlError>, q: Result<(string, Items), UrlError>) {
    match (r, q)
    case (Ok((path, rest)), Ok((path', rest'))) => path == path' && forall it :: it in rest <==> it in rest'
    case _ => r == q
  }

  lemma ReorderedTexts(ps: seq<Piece>, convs: map<string, Conv>, items: Items, others: Items)
    requires Convertible(ps, convs, items) && Reordered(items, others)
    ensures Convertible(ps, convs, others) && Texts(ps, convs, others) == Texts(ps, convs, items)
  {
    hide ToText, Names;
    TextsKeys(ps, convs, items);
    TextsKeys(ps, convs, others);
  }

  /**
   * Whatever the values contain: if no placeholder is disturbed, every order gives the
   * simultaneous substitution and leaves the parameters that the template does not name.
   */
  lemma UndisturbedIsSimultaneous(ps: seq<Piece>, convs: map<string, Conv>, items: Items, others: Items)
    requires Plain(ps) && Convertible(ps, convs, items) && Reordered(items, others) && Undisturbed(ps, convs, items)
    ensures ReplaceAll(Format(ps), convs, others) == Ok((Subst(ps, Texts(ps, convs, items)), Unused(ps, others)))
    ensures forall it :: it in Unused(ps, others) <==> it in items && it.0 !in Names(ps)
  {
    hide Subst, Names, Occurrences, Placeholder, TimesNamed, Plain, ReplaceAll, Texts, Unused, Format;
    ReorderedTexts(ps, convs, items, others);
    UnusedIs(ps, others);
    SubstNothing(ps);
    var all := Texts(ps, convs, items);
    assert map[] + all == all;
    ReplaceAllUndisturbed(ps, convs, others, map[], all);
  }

  /** Texts without '{' disturb nothing. */
  lemma RenderableIsUndisturbed(ps: seq<Piece>, convs: map<string, Conv>, items: Items)
    requires Plain(ps) && IsDict(items) && Renderable(ps, convs, items)
    ensures Undisturbed(ps, convs, items)
  {
    hide Subst, Names, Occurrences, Placeholder, TimesNamed, Plain, ToText, Texts;
    TextsKeys(ps, convs, items);
    var all := Texts(ps, convs, items);
    forall it <- items
      ensures Occurrences(Subst(ps, all - {it.0}), Placeholder(it.0)) == TimesNamed(ps, it.0)
    {
      PlainTextsAddNothing(ps, all - {it.0}, it.0);
    }
  }

  /** Without '{' in the texts the order of the dict does not matter, neither for the path nor for what is left over. */
  lemma OrderDoesNotMatter(ps: seq<Piece>, convs: map<string, Conv>, items: Items, items': Items)
    requires Plain(ps) && Renderable(ps, convs, items) && Reordered(items, items')
    ensures Renderable(ps, convs, items')
    ensures ReplaceAll(Format(ps), convs, items).Ok? && ReplaceAll(Format(ps), convs, items').Ok?
    ensures SameOutcome(ReplaceAll(Format(ps), convs, items), ReplaceAll(Format(ps), convs, items'))
  {
    hide Subst, Names, Plain, ReplaceAll, Texts, Unused, Format, ToText, Undisturbed;
    RenderableIsUndisturbed(ps, convs, items);
    assert Reordered(items, items);
    UndisturbedIsSimultaneous(ps, convs, items, items);
    UndisturbedIsSimultaneous(ps, convs, items, items');
  }

  // ----- One value with braces: the condition is exact -----

  /** Only the text of `a` may contain '{'. */
  predicate OneWithBraces(ps: seq<Piece>, convs: map<string, Conv>, items: Items, a: string)
    requires Convertible(ps, convs, items)
  {
    forall it <- items :: it.0 != a && it.0 in Names(ps) ==> '{' !in ToText(convs[it.0], it.1).value
  }

  function WithoutKey(items: Items, k: string): Items {
    if items == [] then [] else (if items[0].0 == k then [] else [items[0]]) + WithoutKey(items[1..], k)
  }

  lemma {:induction false} WithoutIs(items: Items, k: string)
    requires IsDict(items)
    ensures IsDict(WithoutKey(items, k))
    ensures forall it :: it in WithoutKey(items, k) <==> it in items && it.0 != k
  {
    if items != [] {
      var head, rest := items[0], WithoutKey(items[1..], k);
      assert items == [head] + items[1..];
      assert forall it <- items[1..] :: it.0 != head.0;
      WithoutIs(items[1..], k);
      if head.0 == k {
        assert WithoutKey(items, k) == rest;
      } else {
        ConsIsDict(head, rest);
      }
    }
  }

  lemma AppendToDict(items: Items, it: (string, Value))
    requires IsDict(items) && forall x <- items :: x.0 != it.0
    ensures IsDict(items + [it])
  {
  }

  /** The path after one parameter whose placeholder occurs in it. */
  function Replaced(path: string, convs: map<string, Conv>, k: string, v: Value): Result<string, UrlError> {
    if k !in convs then Err(NoConvertor(k))
    else
      match ToText(convs[k], v)
      case Err(e) => Err(e)
      case Ok(t) => Ok(Replace(path, Placeholder(k), t))
  }

  lemma ReplaceHead(path: string, convs: map<string, Conv>, items: Items)
    requires items != []
    ensures var (k, v) := items[0];
            var r := Replaced(path, convs, k, v);
            ReplaceAll(path, convs, items) ==
              if !Contains(path, Placeholder(k)) then Keeping([items[0]], ReplaceAll(path, convs, items[1..]))
              else if r.Err? then Err(r.error)
              else ReplaceAll(r.value, convs, items[1..])
  {
    hide ToText, Contains, Replace, Placeholder;
  }

  lemma KeepingTwice(a: Items, b: Items, r: Result<(string, Items), UrlError>)
    ensures Keeping(a, Keeping(b, r)) == Keeping(a + b, r) && Keeping([], r) == r
  {
    if r.Ok? {
      assert a + (b + r.value.1) == a + b + r.value.1 && [] + r.value.1 == r.value.1;
    }
  }

  /** A dict is processed one part after the other. */
  lemma {:induction false} ReplaceAllThen(path: string, convs: map<string, Conv>, items: Items, more: Items)
    requires ReplaceAll(path, convs, items).Ok?
    ensures var (p, rest) := ReplaceAll(path, convs, items).value;
            ReplaceAll(path, convs, items + more) == Keeping(rest, ReplaceAll(p, convs, more))
    decreases |items|
  {
    if items == [] {
      assert items + more == more;
      KeepingTwice([], [], ReplaceAll(path, convs, more));
    } else {
      ReplaceHead(path, convs, items);
      ReplaceHead(path, convs, items + more);
      hide ReplaceAll, Replaced, Contains, Placeholder;
      assert (items + more)[1..] == items[1..] + more && (items + more)[0] == items[0];
      var k := items[0].0;
      if Contains(path, Placeholder(k)) {
        ReplaceAllThen(Replaced(path, convs, k, items[0].1).value, convs, items[1..], more);
      } else {
        ReplaceAllThen(path, convs, items[1..], more);
        var (p, rest) := ReplaceAll(path, convs, items[1..]).value;
        KeepingTwice([items[0]], rest, ReplaceAll(p, convs, more));
      }
    }
  }

  lemma ReplaceOne(path: string, convs: map<string, Conv>, k: string, v: Value)
    ensures var r := Replaced(path, convs, k, v);
            ReplaceAll(path, convs, [(k, v)]) ==
              if !Contains(path, Placeholder(k)) then Ok((path, [(k, v)]))
              else if r.Err? then Err(r.error)
              else Ok((r.value, []))
  {
    ReplaceHead(path, convs, [(k, v)]);
    hide Replaced, Contains, Placeholder;
    assert [(k, v)][1..] == [] && [(k, v)] + [] == [(k, v)];
  }

  /** Others first, the one with braces last: the simultaneous substitution. */
  lemma BracesLast(ps: seq<Piece>, convs: map<string, Conv>, items: Items, a: string, v: Value)
    requires Plain(ps) && IsDict(items) && Renderable(ps, convs, items) && BraceFree(a) && a in Names(ps)
    requires a in convs && ToText(convs[a], v).Ok? && forall it <- items :: it.0 != a
    ensures var texts := Texts(ps, convs, items)[a := ToText(convs[a], v).value];
            ReplaceAll(Format(ps), convs, items + [(a, v)]) == Ok((Subst(ps, texts), Unused(ps, items)))
  {
    hide Subst, Names, ReplaceAll, Texts, Unused, Format, ToText, Contains, Replace, Placeholder, Plain, IsDict;
    var texts := Texts(ps, convs, items);
    ReplaceIsSimultaneous(ps, convs, items);
    ReplaceAllThen(Format(ps), convs, items, [(a, v)]);
    TextsKeys(ps, convs, items);
    ContainsSubst(ps, texts, a);
    ReplaceSubst(ps, texts, a, ToText(convs[a], v).value);
    ReplaceOne(Subst(ps, texts), convs, a, v);
    assert Unused(ps, items) + [] == Unused(ps, items);
  }

  /** The two orders that tell a disturbed placeholder apart. */
  function BracesAtEnd(items: Items, a: string, v: Value): Items {
    WithoutKey(items, a) + [(a, v)]
  }

  function OtherAtEnd(items: Items, a: string, v: Value, b: string, w: Value): Items {
    WithoutKey(WithoutKey(items, a), b) + [(a, v)] + [(b, w)]
  }

  lemma EndsAreReorderings(items: Items, a: string, v: Value, b: string, w: Value)
    requires IsDict(items) && (a, v) in items && (b, w) in items && a != b
    ensures Reordered(items, BracesAtEnd(items, a, v)) && Reordered(items, OtherAtEnd(items, a, v, b, w))
  {
    var rest := WithoutKey(items, a);
    WithoutIs(items, a);
    WithoutIs(rest, b);
    hide WithoutKey;
    OneValue(items, a, v);
    OneValue(items, b, w);
    AppendToDict(rest, (a, v));
    AppendToDict(WithoutKey(rest, b), (a, v));
    AppendToDict(WithoutKey(rest, b) + [(a, v)], (b, w));
    hide IsDict;
  }

  lemma OneValue(items: Items, k: string, v: Value)
    requires IsDict(items) && (k, v) in items
    ensures forall it <- items :: it.0 == k ==> it == (k, v)
  {
    var i :| 0 <= i < |items| && items[i] == (k, v);
  }

  lemma WithoutTexts(ps: seq<Piece>, convs: map<string, Conv>, items: Items, k: string)
    requires IsDict(items) && Convertible(ps, convs, items)
    ensures IsDict(WithoutKey(items, k)) && Convertible(ps, convs, WithoutKey(items, k))
    ensures Texts(ps, convs, WithoutKey(items, k)) == Texts(ps, convs, items) - {k}
  {
    hide WithoutKey, ToText, Names, Texts, IsDict;
    WithoutIs(items, k);
    var rest := WithoutKey(items, k);
    TextsKeys(ps, convs, items);
    TextsKeys(ps, convs, rest);
    var all, fewer := Texts(ps, convs, items), Texts(ps, convs, rest);
    forall n | n in fewer ensures n in all && n != k && fewer[n] == all[n] {
      var it :| it in rest && it.0 == n && fewer[n] == ToText(convs[n], it.1).value;
      assert it in items;
    }
    forall n | n in all && n != k ensures n in fewer {
      var it :| it in items && it.0 == n;
      assert it in rest;
    }
  }

  /** One value with braces and one disturbed placeholder `b`: the two orders have different outcomes. */
  lemma DisturbedOrdersDiffer(ps: seq<Piece>, convs: map<string, Conv>, items: Items,
                              a: string, v: Value, b: string, w: Value)
    requires Plain(ps) && IsDict(items) && Convertible(ps, convs, items) && OneWithBraces(ps, convs, items, a)
    requires (a, v) in items && a in Names(ps) && (b, w) in items && a != b
    requires Occurrences(Subst(ps, Texts(ps, convs, items) - {b}), Placeholder(b)) > TimesNamed(ps, b)
    ensures !SameOutcome(ReplaceAll(Format(ps), convs, BracesAtEnd(items, a, v)),
                         ReplaceAll(Format(ps), convs, OtherAtEnd(items, a, v, b, w)))
  {
    hide Subst, Names, ReplaceAll, Unused, Format, Contains, Replace, Placeholder, Plain, IsDict;
    hide Occurrences, TimesNamed, WithoutKey, Replaced, ToText, Texts;
    var all, x := Texts(ps, convs, items), ToText(convs[a], v).value;
    var rest := WithoutKey(items, a);
    var fewer := WithoutKey(rest, b);
    WithoutIs(items, a);
    WithoutTexts(ps, convs, items, a);
    WithoutIs(rest, b);
    WithoutTexts(ps, convs, rest, b);
    TextsKeys(ps, convs, items);
    assert (all - {a})[a := x] == all;
    assert (all - {a} - {b})[a := x] == all - {b};
    BracesLast(ps, convs, rest, a, v);
    BracesLast(ps, convs, fewer, a, v);
    var disturbed := Subst(ps, all - {b});
    ReplaceAllThen(Format(ps), convs, fewer + [(a, v)], [(b, w)]);
    ReplaceOne(disturbed, convs, b, w);
    OccursIffContained(disturbed, b);
    UnusedIs(ps, rest);
    UnusedIs(ps, fewer);
    assert Unused(ps, fewer) + [] == Unused(ps, fewer);
    if b in Names(ps) {
      PathsDiffer(ps, all, b);
      ReplacedNamed(ps, convs, items, disturbed, b, w);
    } else {
      assert (b, w) in Unused(ps, rest) && (b, w) !in Unused(ps, fewer);
    }
  }

  lemma ReplacedNamed(ps: seq<Piece>, convs: map<string, Conv>, items: Items, path: string, b: string, w: Value)
    requires IsDict(items) && Convertible(ps, convs, items) && (b, w) in items && b in Names(ps)
    ensures b in Texts(ps, convs, items)
    ensures Replaced(path, convs, b, w) == Ok(Replace(path, Placeholder(b), Texts(ps, convs, items)[b]))
  {
    hide ToText, Names, Replace, Placeholder, Texts;
    TextsKeys(ps, convs, items);
  }

  /** The last replacement takes more braces away than the template has places. */
  lemma PathsDiffer(ps: seq<Piece>, all: map<string, string>, b: string)
    requires BraceFree(b) && b in all && '{' !in all[b]
    requires Occurrences(Subst(ps, all - {b}), Placeholder(b)) > TimesNamed(ps, b)
    ensures Subst(ps, all) != Replace(Subst(ps, all - {b}), Placeholder(b), all[b])
  {
    hide Subst, Occurrences, Placeholder, TimesNamed, Replace, Braces;
    BracesLost(Subst(ps, all - {b}), b, all[b]);
    BracesOfSubst(ps, all - {b}, b, all[b]);
    assert (all - {b})[b := all[b]] == all;
  }

  /**
   * The exact condition, for any template and any dict in which one value may contain
   * braces: all orders of the parameters have the same outcome exactly when no
   * placeholder is disturbed.
   */
  lemma OrderIrrelevantIff(ps: seq<Piece>, convs: map<string, Conv>, items: Items, a: string)
    requires Plain(ps) && IsDict(items) && Convertible(ps, convs, items) && OneWithBraces(ps, convs, items, a)
    ensures (forall others :: Reordered(items, others) ==>
               SameOutcome(ReplaceAll(Format(ps), convs, items), ReplaceAll(Format(ps), convs, others)))
            <==> Undisturbed(ps, convs, items)
  {
    hide Subst, Names, ReplaceAll, Texts, Unused, Format, ToText, Plain, IsDict;
    hide Occurrences, Placeholder, TimesNamed, Reordered, BracesAtEnd, OtherAtEnd;
    if Undisturbed(ps, convs, items) {
      hide Undisturbed;
      ReorderedSelf(items);
      UndisturbedIsSimultaneous(ps, convs, items, items);
      forall others | Reordered(items, others)
        ensures SameOutcome(ReplaceAll(Format(ps), convs, items), ReplaceAll(Format(ps), convs, others))
      {
        UndisturbedIsSimultaneous(ps, convs, items, others);
      }
    } else {
      var v, b, w := FindDisturbed(ps, convs, items, a);
      EndsAreReorderings(items, a, v, b, w);
      DisturbedOrdersDiffer(ps, convs, items, a, v, b, w);
      var r := ReplaceAll(Format(ps), convs, items);
      var one, two := BracesAtEnd(items, a, v), OtherAtEnd(items, a, v, b, w);
      assert !SameOutcome(r, ReplaceAll(Format(ps), convs, one)) || !SameOutcome(r, ReplaceAll(Format(ps), convs, two));
    }
  }

  lemma ReorderedSelf(items: Items)
    requires IsDict(items)
    ensures Reordered(items, items)
  {
  }

  /** Only the value with braces can disturb a placeholder, and only another one's. */
  lemma FindDisturbed(ps: seq<Piece>, convs: map<string, Conv>, items: Items, a: string)
    returns (v: Value, b: string, w: Value)
    requires Plain(ps) && IsDict(items) && Convertible(ps, convs, items) && OneWithBraces(ps, convs, items, a)
    requires !Undisturbed(ps, convs, items)
    ensures (a, v) in items && a in Names(ps) && (b, w) in items && a != b
    ensures Occurrences(Subst(ps, Texts(ps, convs, items) - {b}), Placeholder(b)) > TimesNamed(ps, b)
  {
    hide Subst, Names, Texts, ToText, Plain, IsDict, Occurrences, Placeholder, TimesNamed;
    var all := Texts(ps, convs, items);
    TextsKeys(ps, convs, items);
    var it :| it in items &&
      Occurrences(Subst(ps, all - {it.0}), Placeholder(it.0)) != TimesNamed(ps, it.0);
    b, w := it.0, it.1;
    var s := Subst(ps, all - {b});
    NamedPlacesOccur([], ps, all - {b}, b, "");
    assert [] + s == s;
    if b == a || a !in all {
      PlainTextsAddNothing(ps, all - {b}, b);
    }
    var x :| x in items && x.0 == a;
    v := x.1;
  }

  // ----- One given order -----

  /**
   * Each placeholder occurs exactly where the template names it at the moment its turn
   * comes, with the texts of the items before it in place.
   */
  predicate InTurn(ps: seq<Piece>, convs: map<string, Conv>, items: Items, sub: map<string, string>)
    requires Convertible(ps, convs, items)
    decreases |items|
  {
    items != [] ==>
      assert items[0] in items;
      var (k, v) := items[0];
      && Occurrences(Subst(ps, sub), Placeholder(k)) == TimesNamed(ps, k)
      && InTurn(ps, convs, items[1..], if k in Names(ps) then sub[k := ToText(convs[k], v).value] else sub)
  }

  /** Whatever the values contain, such an order gives the simultaneous substitution. */
  lemma {:induction false} InTurnIsSimultaneous(ps: seq<Piece>, convs: map<string, Conv>, items: Items,
                                                sub: map<string, string>)
    requires Plain(ps) && IsDict(items) && Convertible(ps, convs, items) && InTurn(ps, convs, items, sub)
    requires forall it <- items :: it.0 !in sub
    ensures ReplaceAll(Subst(ps, sub), convs, items)
            == Ok((Subst(ps, sub + Texts(ps, convs, items)), Unused(ps, items)))
    decreases |items|
  {
    hide Subst, ToText, Replace, Contains, Names, Occurrences, Placeholder, TimesNamed, Plain, ReplaceAll, Texts;
    if items == [] {
      ReplaceNothing(ps, convs, Subst(ps, sub));
      assert sub + map[] == sub;
    } else {
      var (k, v) := items[0];
      assert items[0] in items && forall it <- items[1..] :: it in items && it.0 != k;
      var t := if k in Names(ps) then ToText(convs[k], v).value else "";
      TextsSplit(ps, convs, items, sub);
      PlaceInTurn(ps, sub, k, t);
      ReplaceFirst(ps, convs, items, Subst(ps, sub));
      InTurnIsSimultaneous(ps, convs, items[1..], if k in Names(ps) then sub[k := t] else sub);
    }
  }

  lemma PlaceInTurn(ps: seq<Piece>, sub: map<string, string>, k: string, t: string)
    requires Plain(ps) && BraceFree(k) && k !in sub
    ensures Occurrences(Subst(ps, sub), Placeholder(k)) >= TimesNamed(ps, k)
    ensures Occurrences(Subst(ps, sub), Placeholder(k)) == TimesNamed(ps, k) ==>
              && (Contains(Subst(ps, sub), Placeholder(k)) <==> k in Names(ps))
              && Replace(Subst(ps, sub), Placeholder(k), t) == Subst(ps, sub[k := t])
  {
    hide Subst, Replace, Contains, Names, Occurrences, Placeholder, TimesNamed, Plain;
    var s := Subst(ps, sub);
    assert [] + s == s && [] + Subst(ps, sub[k := t]) == Subst(ps, sub[k := t]);
    NamedPlacesOccur([], ps, sub, k, t);
    OccursIffContained(s, k);
    NamedIff(ps, k);
  }

  /** Texts with placeholders between them. */
  function Weave(cs: seq<string>, ns: seq<string>): string
    requires |cs| == |ns| + 1
  {
    if ns == [] then cs[0] else cs[0] + Placeholder(ns[0]) + Weave(cs[1..], ns[1..])
  }

  function CountName(ns: seq<string>, k: string): nat {
    if ns == [] then 0 else (if ns[0] == k then 1 else 0) + CountName(ns[1..], k)
  }

  lemma WeaveFront(a: string, cs: seq<string>, ns: seq<string>)
    requires |cs| == |ns| + 1
    ensures a + Weave(cs, ns) == Weave([a + cs[0]] + cs[1..], ns)
  {
    hide Placeholder;
    var ds := [a + cs[0]] + cs[1..];
    assert ds[1..] == cs[1..];
    if ns != [] {
      var p, rest := Placeholder(ns[0]), Weave(cs[1..], ns[1..]);
      JoinThree(a, cs[0] + p, rest);
      JoinThree(a, cs[0], p);
    }
  }

  lemma WeaveCons(c: string, n: string, cs: seq<string>, ns: seq<string>)
    requires |cs| == |ns| + 1
    ensures Weave([c] + cs, [n] + ns) == c + Placeholder(n) + Weave(cs, ns)
    ensures forall k :: CountName([n] + ns, k) == (if n == k then 1 else 0) + CountName(ns, k)
  {
    assert ([c] + cs)[1..] == cs && ([n] + ns)[1..] == ns;
  }

  /** The names still to be replaced are those of the template without those in `sub`. */
  ghost predicate Outstanding(ns: seq<string>, ps: seq<Piece>, sub: map<string, string>) {
    && (forall n <- ns :: BraceFree(n))
    && forall k :: CountName(ns, k) == if k in sub then 0 else TimesNamed(ps, k)
  }

  lemma {:induction false} SubstIsWoven(ps: seq<Piece>, sub: map<string, string>)
    returns (cs: seq<string>, ns: seq<string>)
    requires Plain(ps)
    ensures |cs| == |ns| + 1 && Weave(cs, ns) == Subst(ps, sub) && Outstanding(ns, ps, sub)
  {
    hide Placeholder;
    if ps == [] {
      cs, ns := [""], [];
    } else {
      assert ps[0] in ps && forall x <- ps[1..] :: x in ps;
      cs, ns := SubstIsWoven(ps[1..], sub);
      if ps[0].Param? && ps[0].name !in sub {
        WeaveCons("", ps[0].name, cs, ns);
        assert "" + Placeholder(ps[0].name) == Placeholder(ps[0].name);
        cs, ns := [""] + cs, [ps[0].name] + ns;
      } else {
        var text := if ps[0].Lit? then ps[0].text else sub[ps[0].name];
        WeaveFront(text, cs, ns);
        cs := [text + cs[0]] + cs[1..];
      }
    }
  }

  /** A replacement takes all places of one name, and perhaps more, and leaves the others. */
  lemma {:induction false} WeaveReplaced(cs: seq<string>, ns: seq<string>, k: string, t: string)
    returns (cs': seq<string>, ns': seq<string>)
    requires |cs| == |ns| + 1 && BraceFree(k) && forall n <- ns :: BraceFree(n)
    ensures |cs'| == |ns'| + 1 && Weave(cs', ns') == Replace(Weave(cs, ns), Placeholder(k), t)
    ensures Occurrences(Weave(cs, ns), Placeholder(k)) >= CountName(ns, k)
    ensures forall m :: CountName(ns', m) == if m == k then 0 else CountName(ns, m)
    ensures forall n <- ns' :: BraceFree(n)
    decreases |ns|
  {
    hide Placeholder, Replace, Occurrences;
    var pat := Placeholder(k);
    if ns == [] {
      cs', ns' := [Replace(cs[0], pat, t)], [];
    } else {
      var n, rest := ns[0], Weave(cs[1..], ns[1..]);
      var c := Replace(cs[0], pat, t);
      cs', ns' := WeaveReplaced(cs[1..], ns[1..], k, t);
      ReplaceSplit(cs[0], n, rest, k, t);
      OccurrencesSplit(cs[0], n, rest, k);
      if n == k {
        WeaveFront(c + t, cs', ns');
        cs' := [c + t + cs'[0]] + cs'[1..];
      } else {
        WeaveCons(c, n, cs', ns');
        cs', ns' := [c] + cs', [n] + ns';
      }
    }
  }

  /** The outcome has fewer braces than the simultaneous substitution, or other parameters left over. */
  predicate Behind(r: Result<(string, Items), UrlError>, full: string, unused: Items) {
    r.Ok? && r.value.1 == unused ==> Braces(r.value.0) < Braces(full)
  }

  lemma {:induction false} LeftoversWithin(path: string, convs: map<string, Conv>, items: Items)
    requires ReplaceAll(path, convs, items).Ok?
    ensures forall it <- ReplaceAll(path, convs, items).value.1 :: it in items
    decreases |items|
  {
    if items != [] {
      ReplaceHead(path, convs, items);
      hide ReplaceAll, Replaced, Contains, Placeholder;
      var k := items[0].0;
      assert forall it <- items[1..] :: it in items;
      LeftoversWithin(if Contains(path, Placeholder(k)) then Replaced(path, convs, k, items[0].1).value else path,
                      convs, items[1..]);
    }
  }

  /** An item that the template does not name is used up: the leftovers are not the expected ones. */
  lemma UnnamedUsed(ps: seq<Piece>, path: string, convs: map<string, Conv>, items: Items, full: string)
    requires items != [] && IsDict(items) && items[0].0 !in Names(ps) && Contains(path, Placeholder(items[0].0))
    ensures Behind(ReplaceAll(path, convs, items), full, Unused(ps, items))
  {
    hide ReplaceAll, Replaced, Contains, Placeholder, Names, Braces;
    ReplaceHead(path, convs, items);
    var r := Replaced(path, convs, items[0].0, items[0].1);
    if r.Ok? && ReplaceAll(r.value, convs, items[1..]).Ok? {
      LeftoversWithin(r.value, convs, items[1..]);
      assert items[0] !in items[1..] && Unused(ps, items)[0] == items[0];
      assert items[0] in Unused(ps, items);
    }
  }

  /** Once behind, always behind: the later items take the braces of their places, and perhaps more. */
  lemma {:induction false} StaysBehind(ps: seq<Piece>, convs: map<string, Conv>, items: Items, sub: map<string, string>,
                                       cs: seq<string>, ns: seq<string>)
    requires IsDict(items) && Renderable(ps, convs, items) && forall it <- items :: it.0 !in sub
    requires |cs| == |ns| + 1 && Outstanding(ns, ps, sub) && Braces(Weave(cs, ns)) < Braces(Subst(ps, sub))
    ensures Behind(ReplaceAll(Weave(cs, ns), convs, items), Subst(ps, sub + Texts(ps, convs, items)), Unused(ps, items))
    decreases |items|
  {
    hide Subst, ToText, Replace, Contains, Names, Occurrences, Placeholder, TimesNamed, ReplaceAll, Texts, Weave;
    hide CountName, Braces;
    var path := Weave(cs, ns);
    if items == [] {
      ReplaceNothing(ps, convs, path);
      assert sub + map[] == sub;
    } else {
      var (k, v) := items[0];
      var rest := items[1..];
      assert items[0] in items && forall it <- rest :: it in items && it.0 != k;
      TextsSplit(ps, convs, items, sub);
      NamedIff(ps, k);
      OccursIffContained(path, k);
      var cs', ns' := WeaveReplaced(cs, ns, k, if k in Names(ps) then ToText(convs[k], v).value else "");
      if k in Names(ps) {
        var t := ToText(convs[k], v).value;
        BracesLost(path, k, t);
        BracesOfSubst(ps, sub, k, t);
        ReplaceFirst(ps, convs, items, path);
        StaysBehind(ps, convs, rest, sub[k := t], cs', ns');
      } else if Contains(path, Placeholder(k)) {
        UnnamedUsed(ps, path, convs, items, Subst(ps, sub + Texts(ps, convs, items)));
      } else {
        ReplaceFirst(ps, convs, items, path);
        StaysBehind(ps, convs, rest, sub, cs, ns);
        KeptBehind(items[0], ReplaceAll(path, convs, rest), Subst(ps, sub + Texts(ps, convs, items)), Unused(ps, rest));
      }
    }
  }

  lemma KeptBehind(it: (string, Value), r: Result<(string, Items), UrlError>, full: string, unused: Items)
    requires Behind(r, full, unused)
    ensures Behind(Keeping([it], r), full, [it] + unused)
  {
    if r.Ok? && [it] + r.value.1 == [it] + unused {
      assert ([it] + r.value.1)[1..] == r.value.1 && ([it] + unused)[1..] == unused;
    }
  }

  /** The first placeholder that is out of turn puts the outcome behind, if one value has braces. */
  lemma {:induction false} OutOfTurnIsBehind(ps: seq<Piece>, convs: map<string, Conv>, items: Items,
                                             sub: map<string, string>, a: string)
    requires Plain(ps) && IsDict(items) && Convertible(ps, convs, items) && !InTurn(ps, convs, items, sub)
    requires OneWithBraces(ps, convs, items, a) && forall it <- items :: it.0 !in sub
    requires forall n <- sub :: n != a ==> '{' !in sub[n]
    ensures Behind(ReplaceAll(Subst(ps, sub), convs, items),
                   Subst(ps, sub + Texts(ps, convs, items)), Unused(ps, items))
    decreases |items|
  {
    hide Subst, ToText, Replace, Contains, Names, Occurrences, Placeholder, TimesNamed, ReplaceAll, Texts, Plain;
    hide Braces;
    var (k, v) := items[0];
    var path, rest := Subst(ps, sub), items[1..];
    assert items[0] in items && forall it <- rest :: it in items && it.0 != k;
    var t := if k in Names(ps) then ToText(convs[k], v).value else "";
    TextsSplit(ps, convs, items, sub);
    PlaceInTurn(ps, sub, k, t);
    if Occurrences(path, Placeholder(k)) == TimesNamed(ps, k) {
      ReplaceFirst(ps, convs, items, path);
      OutOfTurnIsBehind(ps, convs, rest, if k in Names(ps) then sub[k := t] else sub, a);
      if k !in Names(ps) {
        KeptBehind(items[0], ReplaceAll(path, convs, rest), Subst(ps, sub + Texts(ps, convs, items)), Unused(ps, rest));
      }
    } else {
      if a !in sub {
        PlainTextsAddNothing(ps, sub, k);
      }
      OccursIffContained(path, k);
      if k in Names(ps) {
        NamedOutOfTurn(ps, convs, items, sub);
      } else {
        UnnamedUsed(ps, path, convs, items, Subst(ps, sub + Texts(ps, convs, items)));
      }
    }
  }

  lemma NamedOutOfTurn(ps: seq<Piece>, convs: map<string, Conv>, items: Items, sub: map<string, string>)
    requires Plain(ps) && items != [] && IsDict(items) && Renderable(ps, convs, items)
    requires items[0].0 in Names(ps) && forall it <- items :: it.0 !in sub
    requires Occurrences(Subst(ps, sub), Placeholder(items[0].0)) > TimesNamed(ps, items[0].0)
    requires Contains(Subst(ps, sub), Placeholder(items[0].0))
    ensures Behind(ReplaceAll(Subst(ps, sub), convs, items),
                   Subst(ps, sub + Texts(ps, convs, items)), Unused(ps, items))
  {
    hide Subst, ToText, Replace, Contains, Names, Occurrences, Placeholder, TimesNamed, ReplaceAll, Texts, Plain;
    hide Braces, Weave, CountName;
    var (k, v) := items[0];
    assert items[0] in items && forall it <- items[1..] :: it in items && it.0 != k;
    var t := ToText(convs[k], v).value;
    TextsSplit(ps, convs, items, sub);
    var cs, ns := SubstIsWoven(ps, sub);
    var cs', ns' := WeaveReplaced(cs, ns, k, t);
    BracesLost(Subst(ps, sub), k, t);
    BracesOfSubst(ps, sub, k, t);
    ReplaceFirst(ps, convs, items, Subst(ps, sub));
    StaysBehind(ps, convs, items[1..], sub[k := t], cs', ns');
  }

  /**
   * The exact condition for one given order, with one value that may contain braces: the
   * outcome is the simultaneous substitution, with the unnamed parameters left over, exactly
   * when every placeholder is in turn; otherwise it is behind it.
   */
  lemma GivenOrderIff(ps: seq<Piece>, convs: map<string, Conv>, items: Items, a: string)
    requires Plain(ps) && IsDict(items) && Convertible(ps, convs, items) && OneWithBraces(ps, convs, items, a)
    ensures var r, full := ReplaceAll(Format(ps), convs, items), Subst(ps, Texts(ps, convs, items));
            && (r == Ok((full, Unused(ps, items))) <==> InTurn(ps, convs, items, map[]))
            && (!InTurn(ps, convs, items, map[]) ==> Behind(r, full, Unused(ps, items)))
  {
    hide Subst, Names, ReplaceAll, Texts, Format, ToText, Plain, Convertible, OneWithBraces, InTurn, Unused, IsDict;
    hide Braces;
    SubstNothing(ps);
    assert map[] + Texts(ps, convs, items) == Texts(ps, convs, items);
    if InTurn(ps, convs, items, map[]) {
      InTurnIsSimultaneous(ps, convs, items, map[]);
    } else {
      OutOfTurnIsBehind(ps, convs, items, map[], a);
    }
  }

  // ----- The condition on the value alone -----

  lemma {:induction false} NoClosingBrace(p: string, v: string, k: string)
    requires Occurrences(p, Placeholder(k)) == 0 && '}' !in v
    ensures Occurrences(p + v, Placeholder(k)) == 0
    decreases |p| + |v|
  {
    var pat, s := Placeholder(k), p + v;
    if |s| >= |pat| {
      if |p| >= |pat| {
        assert s[..|pat|] == p[..|pat|];
      } else {
        assert s[..|pat|][|pat| - 1] == v[|pat| - 1 - |p|] && pat[|pat| - 1] == '}';
      }
      assert s[..|pat|] != pat;
      if p == [] {
        assert s[1..] == [] + v[1..];
        NoClosingBrace([], v[1..], k);
      } else {
        assert s[1..] == p[1..] + v;
        NoClosingBrace(p[1..], v, k);
      }
    }
  }

  /** Literals and all texts but that of `a` have no closing brace either. */
  predicate NoneCloses(ps: seq<Piece>, sub: map<string, string>, a: string) {
    && (forall p <- ps :: p.Lit? ==> '}' !in p.text)
    && (forall n <- sub :: n != a ==> BraceFree(sub[n]))
  }

  /** A value without the placeholder adds no occurrence, wherever it stands. */
  lemma {:induction false} HarmlessValue(p: string, ps: seq<Piece>, sub: map<string, string>, a: string, k: string)
    requires Plain(ps) && BraceFree(k) && k !in sub && NoneCloses(ps, sub, a) && Distinct(Names(ps))
    requires a in sub && Occurrences(sub[a], Placeholder(k)) == 0
    requires Occurrences(p, Placeholder(k)) == 0 && (a in Names(ps) ==> '{' !in p)
    ensures Occurrences(p + Subst(ps, sub), Placeholder(k)) <= TimesNamed(ps, k)
    decreases |ps|
  {
    hide Occurrences, Placeholder, Names, Distinct, Replace;
    if ps == [] {
      assert p + [] == p;
    } else {
      var rest := ps[1..];
      assert ps[0] in ps && forall x <- rest :: x in ps;
      DistinctRest(ps);
      if ps[0].Lit? || (ps[0].name in sub && ps[0].name != a) {
        var text := if ps[0].Lit? then ps[0].text else sub[ps[0].name];
        NoClosingBrace(p, text, k);
        JoinThree(p, text, Subst(rest, sub));
        HarmlessValue(p + text, rest, sub, a, k);
      } else if ps[0].name == a {
        OccurrencesSkip(p, sub[a], k);
        JoinThree(p, sub[a], Subst(rest, sub));
        HarmlessValue(p + sub[a], rest, sub, a, k);
      } else {
        NamedPlaceStep(p, ps, sub, k, "");
        EmptyText(k, "");
        HarmlessValue([], rest, sub, a, k);
        assert [] + Subst(rest, sub) == Subst(rest, sub);
      }
    }
  }

  lemma DistinctRest(ps: seq<Piece>)
    requires ps != [] && Distinct(Names(ps))
    ensures Distinct(Names(ps[1..])) && (ps[0].Param? ==> ps[0].name !in Names(ps[1..]))
    ensures ps[0].Param? ==> ps[0].name in Names(ps)
    ensures forall n <- Names(ps[1..]) :: n in Names(ps)
  {
    var head := if ps[0].Param? then [ps[0].name] else [];
    assert Names(ps) == head + Names(ps[1..]);
    hide Names;
    DistinctParts(head, Names(ps[1..]));
  }

  /** A value with the placeholder adds an occurrence, wherever it stands. */
  lemma {:induction false} HarmfulValue(p: string, ps: seq<Piece>, sub: map<string, string>, a: string, k: string)
    requires Plain(ps) && BraceFree(k) && k !in sub && a in sub && a in Names(ps)
    ensures Occurrences(p + Subst(ps, sub), Placeholder(k))
            >= TimesNamed(ps, k) + Occurrences(sub[a], Placeholder(k))
    decreases |ps|
  {
    hide Occurrences, Placeholder, Replace;
    var rest := ps[1..];
    assert ps[0] in ps && forall x <- rest :: x in ps;
    if ps[0].Param? && ps[0].name == a {
      NamedPlacesOccur([], rest, sub, k, "");
      assert [] + Subst(rest, sub) == Subst(rest, sub);
      OccurrencesJoin(sub[a], Subst(rest, sub), k);
      OccurrencesJoin(p, Subst(ps, sub), k);
    } else if ps[0].Lit? || ps[0].name in sub {
      var text := if ps[0].Lit? then ps[0].text else sub[ps[0].name];
      JoinThree(p, text, Subst(rest, sub));
      HarmfulValue(p + text, rest, sub, a, k);
    } else {
      NamedPlaceStep(p, ps, sub, k, "");
      HarmfulValue([], rest, sub, a, k);
      assert [] + Subst(rest, sub) == Subst(rest, sub);
    }
  }

  /**
   * If braces occur in one value only, the condition is about that value alone: the
   * order matters exactly when it contains the placeholder of another parameter.
   */
  lemma OrderIrrelevantIffNotSpelled(ps: seq<Piece>, convs: map<string, Conv>, items: Items, a: string)
    requires Plain(ps) && Distinct(Names(ps)) && IsDict(items) && Convertible(ps, convs, items)
    requires OneWithBraces(ps, convs, items, a) && NoneCloses(ps, Texts(ps, convs, items), a)
    requires a in Texts(ps, convs, items)
    ensures (forall others :: Reordered(items, others) ==>
               SameOutcome(ReplaceAll(Format(ps), convs, items), ReplaceAll(Format(ps), convs, others)))
            <==> forall it <- items :: it.0 != a ==> !Contains(Texts(ps, convs, items)[a], Placeholder(it.0))
  {
    OrderIrrelevantIff(ps, convs, items, a);
    hide Subst, Names, ReplaceAll, Texts, Format, ToText, Plain, IsDict, Distinct, OneWithBraces;
    hide Occurrences, Placeholder, TimesNamed, Reordered, Contains, SameOutcome;
    TextsKeys(ps, convs, items);
    var all := Texts(ps, convs, items);
    forall it <- items
      ensures Occurrences(Subst(ps, all - {it.0}), Placeholder(it.0)) == TimesNamed(ps, it.0)
              <==> it.0 != a ==> !Contains(all[a], Placeholder(it.0))
    {
      SpelledIff(ps, all, a, it.0);
    }
  }

  lemma SpelledIff(ps: seq<Piece>, all: map<string, string>, a: string, k: string)
    requires Plain(ps) && Distinct(Names(ps)) && NoneCloses(ps, all, a) && BraceFree(k)
    requires a in all && a in Names(ps)
    ensures Occurrences(Subst(ps, all - {k}), Placeholder(k)) == TimesNamed(ps, k)
            <==> k != a ==> !Contains(all[a], Placeholder(k))
  {
    hide Subst, Names, Plain, Distinct, Occurrences, Placeholder, TimesNamed, Contains;
    var sub := all - {k};
    var s := Subst(ps, sub);
    assert [] + s == s;
    if k == a {
      PlainTextsAddNothing(ps, sub, k);
    } else {
      OccursIffContained(all[a], k);
      HarmfulValue([], ps, sub, a, k);
      EmptyText(k, "");
      if Occurrences(all[a], Placeholder(k)) == 0 {
        HarmlessValue([], ps, sub, a, k);
      }
    }
  }

  // ----- Two parameters side by side -----

  /**
   * The format {a}{b}: putting `a` first replaces the placeholders of `b` inside its text
   * too, so the two orders agree exactly when there are none.
   */
  lemma TwoOrdersAgreeIff(a: string, b: string, convs: map<string, Conv>, v: Value, w: Value)
    requires BraceFree(a) && BraceFree(b) && a != b && a in convs && b in convs
    requires ToText(convs[a], v).Ok? && ToText(convs[b], w).Ok? && '{' !in ToText(convs[b], w).value
    ensures var format, x, t := Placeholder(a) + Placeholder(b), ToText(convs[a], v).value, ToText(convs[b], w).value;
            && ReplaceAll(format, convs, [(a, v), (b, w)]) == Ok((Replace(x, Placeholder(b), t) + t, []))
            && ReplaceAll(format, convs, [(b, w), (a, v)]) == Ok((x + t, []))
            && (Replace(x, Placeholder(b), t) + t == x + t <==> !Contains(x, Placeholder(b)))
  {
    hide ReplaceAll, Replace, Contains, Placeholder, ToText, Occurrences;
    var pa, pb, x, t := Placeholder(a), Placeholder(b), ToText(convs[a], v).value, ToText(convs[b], w).value;
    TwoPlaceholders(a, b, x, t);
    TwoSteps(pa + pb, convs, (a, v), (b, w), x + pb, Replace(x, pb, t) + t);
    TwoSteps(pa + pb, convs, (b, w), (a, v), pa + t, x + t);
    SameIffNotContained(x, b, t);
  }

  lemma SameIffNotContained(x: string, b: string, t: string)
    requires BraceFree(b) && '{' !in t
    ensures Replace(x, Placeholder(b), t) + t == x + t <==> !Contains(x, Placeholder(b))
  {
    hide Replace, Contains, Placeholder, Occurrences, Braces;
    var r := Replace(x, Placeholder(b), t);
    OccursIffContained(x, b);
    BracesLost(x, b, t);
    if Occurrences(x, Placeholder(b)) == 0 {
      NothingReplaced(x, Placeholder(b), t);
    } else {
      BracesAppend(r, t);
      BracesAppend(x, t);
    }
  }

  lemma TwoPlaceholders(a: string, b: string, x: string, t: string)
    requires BraceFree(a) && BraceFree(b) && a != b && '{' !in t
    ensures var pa, pb := Placeholder(a), Placeholder(b);
            && Contains(pa + pb, pa) && Contains(pa + pb, pb) && Contains(x + pb, pb) && Contains(pa + t, pa)
            && Replace(pa + pb, pa, x) == x + pb && Replace(x + pb, pb, t) == Replace(x, pb, t) + t
            && Replace(pa + pb, pb, t) == pa + t && Replace(pa + t, pa, x) == x + t
  {
    hide Replace, Contains, Placeholder;
    var pa, pb := Placeholder(a), Placeholder(b);
    ContainsBoth(pa, pb);
    ContainsBoth(x, pb);
    ContainsBoth(pa, t);
    EmptyText(a, x);
    EmptyText(b, t);
    assert pa + pb + [] == pa + pb && x + pb + [] == x + pb && [] + pb + [] == pb && [] + pa + [] == pa;
    ReplaceHit(a, pb, x);
    ReplaceSplit([], b, [], a, x);
    ReplaceSplit(x, b, [], b, t);
    ReplaceSplit(pa, b, [], b, t);
    ReplaceSplit([], a, [], b, t);
    ReplaceHit(a, t, x);
    ReplaceSkip(t, [], a, x);
    assert t + [] == t && pa + t + [] == pa + t && Replace(x, pb, t) + t + [] == Replace(x, pb, t) + t;
  }

  lemma ContainsBoth(x: string, y: string)
    ensures Contains(x + y, x) && Contains(x + y, y)
  {
    assert At(x + y, 0, x) && At(x + y, |x|, y);
    ContainsIff(x + y, x);
    ContainsIff(x + y, y);
  }

  lemma TwoSteps(path: string, convs: map<string, Conv>, x: (string, Value), y: (string, Value),
                 mid: string, end: string)
    requires x.0 in convs && y.0 in convs && ToText(convs[x.0], x.1).Ok? && ToText(convs[y.0], y.1).Ok?
    requires Contains(path, Placeholder(x.0)) && Replace(path, Placeholder(x.0), ToText(convs[x.0], x.1).value) == mid
    requires Contains(mid, Placeholder(y.0)) && Replace(mid, Placeholder(y.0), ToText(convs[y.0], y.1).value) == end
    ensures ReplaceAll(path, convs, [x, y]) == Ok((end, []))
  {
    hide ToText, Contains, Replace, ReplaceAll;
    ReplaceHead(path, convs, [x, y]);
    ReplaceOne(mid, convs, y.0, y.1);
    assert [x, y][1..] == [y];
  }

  /** The instance of a value that is the other placeholder, for all names. */
  lemma BracesMakeOrderMatter(a: string, b: string, t: string)
    requires BraceFree(a) && BraceFree(b) && a != b && '{' !in t
    requires ToText(StrConv, StrVal(t)).Ok? && '/' !in b
    ensures var convs := map[a := StrConv, b := StrConv];
            var format, va, vb := Placeholder(a) + Placeholder(b), (a, StrVal(Placeholder(b))), (b, StrVal(t));
            && ReplaceAll(format, convs, [va, vb]) == Ok((t + t, []))
            && ReplaceAll(format, convs, [vb, va]) == Ok((Placeholder(b) + t, []))
            && t + t != Placeholder(b) + t
  {
    var convs, pb := map[a := StrConv, b := StrConv], Placeholder(b);
    assert '/' !in pb;
    hide ReplaceAll, Contains, Placeholder;
    TwoOrdersAgreeIff(a, b, convs, StrVal(pb), StrVal(t));
    ReplaceHit(b, [], t);
    EmptyText(b, t);
    assert pb + [] == pb && t + [] == t && pb + [] == pb;
    ContainsBoth(pb, []);
  }
}
