/**
 * `replace_params`: the parameters of a path format are replaced one after the other
 * in the whole string; the specification is simultaneous substitution.
 */
module ReplaceParams {
  import opened Common
  import opened Text
  import opened Templates
  import opened PathCompiler

  /** Values of path parameters: Python's `str` and `int`. */
  datatype Value = StrVal(text: string) | IntVal(number: int)

  datatype UrlError = NoMatchFound | NoConvertor(name: string) | BadValue

  /** CPython refuses to convert longer integers to or from text. */
  const MAX_DIGITS := 4300

  function IntText(n: int): Result<string, UrlError> {
    var digits := Decimal(if n < 0 then -n else n);
    if |digits| > MAX_DIGITS then Err(BadValue) else Ok(if n < 0 then "-" + digits else digits)
  }

  /** `Convertor.to_string` with its assertions. */
  function ToText(c: Conv, v: Value): Result<string, UrlError> {
    match (c, v)
    case (PathConv, StrVal(s)) => Ok(s)
    case (PathConv, IntVal(n)) => IntText(n)
    case (StrConv, StrVal(s)) => if '/' in s || s == [] then Err(BadValue) else Ok(s)
    case (StrConv, IntVal(n)) => IntText(n)
    case (IntConv, IntVal(n)) => if n < 0 then Err(BadValue) else IntText(n)
    case (IntConv, StrVal(_)) => Err(BadValue)
  }

  /** The text of an integer: its sign and decimal digits, at most 4300 of them. */
  lemma IntTextSpec(n: int)
    ensures var digits := Decimal(if n < 0 then -n else n);
            && (IntText(n).Ok? <==> |digits| <= 4300)
            && (IntText(n).Ok? ==> IntText(n).value == if n < 0 then "-" + digits else digits)
            && ParseDecimal(digits) == if n < 0 then -n else n
  {
    DecimalRoundTrip(if n < 0 then -n else n);
  }

  /** Which values each convertor writes, and how; integers as their decimal text. */
  lemma ToTextIff(v: Value)
    ensures v.StrVal? ==>
              && ToText(PathConv, v) == Ok(v.text)
              && ToText(StrConv, v) == (if v.text != [] && '/' !in v.text then Ok(v.text) else Err(BadValue))
              && ToText(IntConv, v) == Err(BadValue)
    ensures v.IntVal? ==>
              && ToText(PathConv, v) == ToText(StrConv, v) == IntText(v.number)
              && ToText(IntConv, v) == (if v.number >= 0 then IntText(v.number) else Err(BadValue))
  {
    hide IntText;
  }

  /** A dict in insertion order. */
  type Items = seq<(string, Value)>

  predicate IsDict(items: Items) {
    forall i, j :: 0 <= i < j < |items| ==> items[i].0 != items[j].0
  }

  // ----- The sequential replacement -----

  function ReplaceAll(path: string, convs: map<string, Conv>, items: Items): Result<(string, Items), UrlError>
    decreases |items|
  {
    if items == [] then Ok((path, []))
    else
      var k := items[0].0;
      if !Contains(path, Placeholder(k)) then
        match ReplaceAll(path, convs, items[1..])
        case Ok((p, rest)) => Ok((p, [items[0]] + rest))
        case Err(e) => Err(e)
      else if k !in convs then Err(NoConvertor(k))
      else
        match ToText(convs[k], items[0].1)
        case Err(e) => Err(e)
        case Ok(t) => ReplaceAll(Replace(path, Placeholder(k), t), convs, items[1..])
  }

  function Keeping(kept: Items, r: Result<(string, Items), UrlError>): Result<(string, Items), UrlError> {
    match r case Ok((p, rest)) => Ok((p, kept + rest)) case Err(e) => Err(e)
  }

  method ReplaceParamsLoop(format: string, convs: map<string, Conv>, items: Items)
    returns (r: Result<(string, Items), UrlError>)
    ensures r == ReplaceAll(format, convs, items)
  {
    hide ToText;
    var path, kept: Items := format, [];
    assert items[0..] == items;
    assert Keeping([], ReplaceAll(format, convs, items)) == ReplaceAll(format, convs, items) by {
      var a := ReplaceAll(format, convs, items);
      if a.Ok? { assert [] + a.value.1 == a.value.1; }
    }
    for i := 0 to |items|
      invariant ReplaceAll(format, convs, items) == Keeping(kept, ReplaceAll(path, convs, items[i..]))
    {
      var (key, value) := items[i];
      assert items[i..][0] == items[i] && items[i..][1..] == items[i + 1..];
      if Contains(path, Placeholder(key)) {
        if key !in convs {
          return Err(NoConvertor(key));
        }
        var t := ToText(convs[key], value);
        if t.Err? {
          return Err(t.error);
        }
        path := Replace(path, Placeholder(key), t.value);
      } else {
        var rest := ReplaceAll(path, convs, items[i + 1..]);
        if rest.Ok? {
          assert kept + ([items[i]] + rest.value.1) == kept + [items[i]] + rest.value.1;
        }
        kept := kept + [items[i]];
      }
    }
    assert items[|items|..] == [] && kept + [] == kept;
    return Ok((path, kept));
  }

  // ----- Simultaneous substitution -----

  /** The format with the parameters in `sub` replaced and the others left as placeholders. */
  function Subst(ps: seq<Piece>, sub: map<string, string>): string {
    if ps == [] then []
    else
      (match ps[0] case Lit(t) => t case Param(n, _) => if n in sub then sub[n] else Placeholder(n))
      + Subst(ps[1..], sub)
  }

  predicate BraceFree(s: string) { '{' !in s && '}' !in s }

  /** Literals without '{', parameter names without braces. */
  predicate Plain(ps: seq<Piece>) {
    forall p <- ps :: match p case Lit(t) => '{' !in t case Param(n, _) => BraceFree(n)
  }

  lemma {:induction false} SubstNothing(ps: seq<Piece>)
    ensures Subst(ps, map[]) == Format(ps)
  {
    if ps != [] {
      SubstNothing(ps[1..]);
    }
  }

  lemma {:induction false} ReplaceSkip(a: string, b: string, k: string, rep: string)
    requires '{' !in a
    ensures Replace(a + b, Placeholder(k), rep) == a + Replace(b, Placeholder(k), rep)
    decreases |a|
  {
    var pat := Placeholder(k);
    if a == [] {
      assert a + b == b;
    } else {
      assert (a + b)[0] == a[0] && pat[0] == '{';
      assert (a + b)[1..] == a[1..] + b;
      ReplaceSkip(a[1..], b, k, rep);
      if |a + b| < |pat| {
        assert Replace(b, pat, rep) == b;
      } else {
        assert (a + b)[..|pat|] != pat;
        assert [a[0]] + (a[1..] + Replace(b, pat, rep)) == a + Replace(b, pat, rep);
      }
    }
  }

  /** Different brace-free names: neither placeholder starts with the other. */
  lemma OtherName(n: string, k: string, b: string)
    requires BraceFree(n) && BraceFree(k) && n != k
    ensures !At(Placeholder(n) + b, 0, Placeholder(k))
  {
    var s, pat := Placeholder(n) + b, Placeholder(k);
    if |s| >= |pat| {
      if |k| > |n| {
        assert k[|n|] in k;
        assert s[..|pat|][1 + |n|] == '}' && pat[1 + |n|] == k[|n|];
      } else if |k| < |n| {
        assert n[|k|] in n;
        assert s[..|pat|][1 + |k|] == n[|k|] && pat[1 + |k|] == '}';
      } else {
        var i :| 0 <= i < |n| && n[i] != k[i];
        assert s[..|pat|][1 + i] == n[i] && pat[1 + i] == k[i];
      }
    }
  }

  lemma ReplaceOther(n: string, k: string, b: string, rep: string)
    requires BraceFree(n) && BraceFree(k) && n != k
    ensures Replace(Placeholder(n) + b, Placeholder(k), rep) == Placeholder(n) + Replace(b, Placeholder(k), rep)
  {
    var s, pat, a := Placeholder(n) + b, Placeholder(k), n + "}";
    OtherName(n, k, b);
    assert s[1..] == a + b && s[0] == '{';
    ReplaceSkip(a, b, k, rep);
    if |s| < |pat| {
      assert Replace(b, pat, rep) == b;
    } else {
      assert ['{'] + (a + Replace(b, pat, rep)) == Placeholder(n) + Replace(b, pat, rep);
    }
  }

  lemma ReplaceHit(k: string, b: string, rep: string)
    ensures Replace(Placeholder(k) + b, Placeholder(k), rep) == rep + Replace(b, Placeholder(k), rep)
  {
    var s := Placeholder(k) + b;
    assert s[..|Placeholder(k)|] == Placeholder(k) && s[|Placeholder(k)|..] == b;
  }

  /** One textual replacement is one more entry in the substitution. */
  lemma {:induction false} ReplaceSubst(ps: seq<Piece>, sub: map<string, string>, k: string, rep: string)
    requires Plain(ps) && BraceFree(k) && k !in sub && forall n <- sub :: '{' !in sub[n]
    ensures Replace(Subst(ps, sub), Placeholder(k), rep) == Subst(ps, sub[k := rep])
  {
    if ps != [] {
      var rest := Subst(ps[1..], sub);
      assert ps[0] in ps && forall p <- ps[1..] :: p in ps;
      ReplaceSubst(ps[1..], sub, k, rep);
      hide Replace;
      match ps[0]
      case Lit(t) => ReplaceSkip(t, rest, k, rep);
      case Param(n, _) =>
        if n in sub {
          ReplaceSkip(sub[n], rest, k, rep);
        } else if n == k {
          ReplaceHit(k, rest, rep);
        } else {
          ReplaceOther(n, k, rest, rep);
        }
    }
  }

  // ----- When a placeholder occurs -----

  lemma ContainsSkip(a: string, b: string, k: string)
    requires '{' !in a
    ensures Contains(a + b, Placeholder(k)) <==> Contains(b, Placeholder(k))
  {
    var s, pat := a + b, Placeholder(k);
    forall j | 0 <= j < |a|
      ensures s[j] != '{'
    {
      assert a[j] in a;
    }
    ContainsIff(s, pat);
    ContainsIff(b, pat);
    if i :| At(s, i, pat) {
      assert s[i] == s[i..i + |pat|][0] == '{';
      assert b[i - |a|..i - |a| + |pat|] == s[i..i + |pat|];
      assert At(b, i - |a|, pat);
    }
    if i :| At(b, i, pat) {
      assert s[|a| + i..|a| + i + |pat|] == b[i..i + |pat|];
      assert At(s, |a| + i, pat);
    }
  }

  lemma ContainsOther(n: string, k: string, b: string)
    requires BraceFree(n) && BraceFree(k) && n != k
    ensures Contains(Placeholder(n) + b, Placeholder(k)) <==> Contains(b, Placeholder(k))
  {
    var s, pat, t := Placeholder(n) + b, Placeholder(k), n + "}" + b;
    OtherName(n, k, b);
    ContainsSkip(n + "}", b, k);
    assert s == ['{'] + t;
    ContainsTail('{', t, pat);
  }

  lemma ContainsTail(c: char, t: string, pat: string)
    requires !At([c] + t, 0, pat)
    ensures Contains([c] + t, pat) <==> Contains(t, pat)
  {
    var s := [c] + t;
    ContainsIff(s, pat);
    ContainsIff(t, pat);
    if i :| At(s, i, pat) {
      assert t[i - 1..i - 1 + |pat|] == s[i..i + |pat|];
      assert At(t, i - 1, pat);
    }
    if i :| At(t, i, pat) {
      assert s[i + 1..i + 1 + |pat|] == t[i..i + |pat|];
      assert At(s, i + 1, pat);
    }
  }

  lemma {:induction false} ContainsSubst(ps: seq<Piece>, sub: map<string, string>, k: string)
    requires Plain(ps) && BraceFree(k) && forall n <- sub :: '{' !in sub[n]
    ensures Contains(Subst(ps, sub), Placeholder(k)) <==> k in Names(ps) && k !in sub
  {
    if ps == [] {
      assert |Placeholder(k)| > 0;
    } else {
      var rest := Subst(ps[1..], sub);
      assert ps[0] in ps && forall p <- ps[1..] :: p in ps;
      ContainsSubst(ps[1..], sub, k);
      match ps[0]
      case Lit(t) => ContainsSkip(t, rest, k);
      case Param(n, _) =>
        if n in sub {
          ContainsSkip(sub[n], rest, k);
        } else if n == k {
          assert At(Placeholder(k) + rest, 0, Placeholder(k));
          ContainsIff(Placeholder(k) + rest, Placeholder(k));
        } else {
          ContainsOther(n, k, rest);
        }
    }
  }

  // ----- Main results -----

  /** Every item that the template names has a convertor and a text. */
  predicate Convertible(ps: seq<Piece>, convs: map<string, Conv>, items: Items) {
    forall it <- items ::
      BraceFree(it.0) && (it.0 in Names(ps) ==> it.0 in convs && ToText(convs[it.0], it.1).Ok?)
  }

  /** And the texts have no '{'. */
  predicate Renderable(ps: seq<Piece>, convs: map<string, Conv>, items: Items) {
    Convertible(ps, convs, items)
    && forall it <- items :: it.0 in Names(ps) ==> '{' !in ToText(convs[it.0], it.1).value
  }

  /** The texts of the items that the template names. */
  function Texts(ps: seq<Piece>, convs: map<string, Conv>, items: Items): map<string, string>
    requires Convertible(ps, convs, items)
  {
    if items == [] then map[]
    else
      assert items[0] in items;
      var (k, v) := items[0];
      var rest := Texts(ps, convs, items[1..]);
      if k in Names(ps) then rest[k := ToText(convs[k], v).value] else rest
  }

  function Unused(ps: seq<Piece>, items: Items): Items {
    if items == [] then []
    else (if items[0].0 in Names(ps) then [] else [items[0]]) + Unused(ps, items[1..])
  }

  lemma {:induction false} ReplaceAllFrom(ps: seq<Piece>, convs: map<string, Conv>, items: Items,
                                          sub: map<string, string>)
    requires Plain(ps) && IsDict(items) && Renderable(ps, convs, items)
    requires forall n <- sub :: '{' !in sub[n]
    requires forall it <- items :: it.0 !in sub
    ensures ReplaceAll(Subst(ps, sub), convs, items)
            == Ok((Subst(ps, sub + Texts(ps, convs, items)), Unused(ps, items)))
    decreases |items|
  {
    hide Subst;
    hide ToText;
    hide Replace;
    hide Contains;
    hide Names;
    if items == [] {
      assert sub + map[] == sub;
    } else {
      assert items[0] in items;
      var (k, v) := items[0];
      ContainsSubst(ps, sub, k);
      if k in Names(ps) {
        var t := ToText(convs[k], v).value;
        ReplaceSubst(ps, sub, k, t);
        assert ReplaceAll(Subst(ps, sub), convs, items) == ReplaceAll(Subst(ps, sub[k := t]), convs, items[1..]);
        assert forall it <- items[1..] :: it.0 != k;
        ReplaceAllFrom(ps, convs, items[1..], sub[k := t]);
        TextsKeys(ps, convs, items[1..]);
        assert k !in Texts(ps, convs, items[1..]);
        assert sub[k := t] + Texts(ps, convs, items[1..]) == sub + Texts(ps, convs, items);
        assert Unused(ps, items) == [] + Unused(ps, items[1..]) == Unused(ps, items[1..]);
      } else {
        ReplaceAllFrom(ps, convs, items[1..], sub);
        assert Unused(ps, items) == [items[0]] + Unused(ps, items[1..]);
        assert Texts(ps, convs, items) == Texts(ps, convs, items[1..]);
      }
    }
  }

  lemma {:induction false} TextsKeys(ps: seq<Piece>, convs: map<string, Conv>, items: Items)
    requires Convertible(ps, convs, items) && IsDict(items)
    ensures forall k <- Texts(ps, convs, items) ::
              && k in Names(ps)
              && exists it <- items :: it.0 == k && Texts(ps, convs, items)[k] == ToText(convs[k], it.1).value
    ensures forall it <- items ::
              it.0 in Names(ps) ==>
                && it.0 in Texts(ps, convs, items)
                && Texts(ps, convs, items)[it.0] == ToText(convs[it.0], it.1).value
  {
    hide ToText;
    hide Names;
    if items != [] {
      assert items[0] in items;
      TextsKeys(ps, convs, items[1..]);
      assert forall it <- items[1..] :: it in items && it.0 != items[0].0;
      assert forall it <- items :: it == items[0] || it in items[1..];
    }
  }

  /**
   * Replacing one parameter at a time equals substituting all at once, and uses up
   * exactly the parameters that the template names.
   */
  lemma ReplaceIsSimultaneous(ps: seq<Piece>, convs: map<string, Conv>, items: Items)
    requires Plain(ps) && IsDict(items) && Renderable(ps, convs, items)
    ensures ReplaceAll(Format(ps), convs, items) == Ok((Subst(ps, Texts(ps, convs, items)), Unused(ps, items)))
  {
    SubstNothing(ps);
    ReplaceAllFrom(ps, convs, items, map[]);
    assert map[] + Texts(ps, convs, items) == Texts(ps, convs, items);
  }

  // ----- Dicts -----

  /** The first item of a dict and the others. */
  lemma HeadAndTail(items: Items)
    requires IsDict(items) && items != []
    ensures IsDict(items[1..]) && forall it <- items[1..] :: it.0 != items[0].0
    ensures forall it :: it in items <==> it == items[0] || it in items[1..]
  {
    assert items == [items[0]] + items[1..];
  }

  lemma ConsIsDict(it: (string, Value), items: Items)
    requires IsDict(items) && forall x <- items :: x.0 != it.0
    ensures IsDict([it] + items)
  {
  }

  lemma {:induction false} UnusedIs(ps: seq<Piece>, items: Items)
    requires IsDict(items)
    ensures IsDict(Unused(ps, items))
    ensures forall it :: it in Unused(ps, items) <==> it in items && it.0 !in Names(ps)
  {
    hide Names;
    if items != [] {
      HeadAndTail(items);
      UnusedIs(ps, items[1..]);
      hide IsDict;
      var rest := Unused(ps, items[1..]);
      if items[0].0 in Names(ps) {
        assert Unused(ps, items) == rest;
      } else {
        ConsIsDict(items[0], rest);
      }
    }
  }
}
