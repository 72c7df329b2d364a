/**
 * Compiled route paths. The regular expression that `compile_path` builds is a list of
 * literal and parameter pieces; matching it is backtracking over that list.
 */
module Templates {
  import opened Common
  import opened Text

  datatype Conv = StrConv | IntConv | PathConv

  datatype Piece = Lit(text: string) | Param(name: string, conv: Conv)

  // ----- What a convertor's expression accepts: [^/]+, [0-9]+ and .* -----

  predicate InClass(c: Conv, ch: char) {
    match c
    case StrConv => ch != '/'
    case IntConv => IsDigit(ch)
    case PathConv => ch != '\n'
  }

  function MinLength(c: Conv): nat {
    if c.PathConv? then 0 else 1
  }

  predicate Accepts(c: Conv, v: string) {
    |v| >= MinLength(c) && forall ch <- v :: InClass(c, ch)
  }

  /** What each convertor takes, with the characters written out. */
  lemma AcceptsIff(v: string)
    ensures Accepts(StrConv, v) <==> v != [] && '/' !in v
    ensures Accepts(IntConv, v) <==> v != [] && forall ch <- v :: 48 <= ch as int <= 57
    ensures Accepts(PathConv, v) <==> '\n' !in v
  {
  }

  /** The longest prefix of `s` inside the character class. */
  function ClassRun(c: Conv, s: string): (n: nat)
    ensures n <= |s|
    ensures forall i :: 0 <= i < n ==> InClass(c, s[i])
    ensures n < |s| ==> !InClass(c, s[n])
  {
    if s == [] || !InClass(c, s[0]) then 0 else 1 + ClassRun(c, s[1..])
  }

  // ----- The matcher: greedy, longest capture first, with backtracking -----

  /**
   * The captures of `^pieces$` on `s`. As in Python, `$` also matches in front of a
   * newline that ends the string.
   */
  function Match(ps: seq<Piece>, s: string): Option<seq<string>>
    decreases |ps|, |s| + 1
  {
    if ps == [] then
      if s == [] || s == "\n" then Some([]) else None
    else
      match ps[0]
      case Lit(t) => if t <= s then Match(ps[1..], s[|t|..]) else None
      case Param(_, c) => MatchParam(ps, s, ClassRun(c, s))
  }

  function MatchParam(ps: seq<Piece>, s: string, n: nat): Option<seq<string>>
    requires ps != [] && ps[0].Param? && n <= |s|
    decreases |ps|, n
  {
    if n < MinLength(ps[0].conv) then None
    else
      match Match(ps[1..], s[n..])
      case Some(caps) => Some([s[..n]] + caps)
      case None => if n == 0 then None else MatchParam(ps, s, n - 1)
  }

  // ----- Declarative meaning -----

  function Names(ps: seq<Piece>): seq<string> {
    if ps == [] then []
    else (if ps[0].Param? then [ps[0].name] else []) + Names(ps[1..])
  }

  /** The path obtained by putting one value in the place of each parameter. */
  function Fill(ps: seq<Piece>, vs: seq<string>): string
    requires |vs| == |Names(ps)|
  {
    if ps == [] then []
    else
      match ps[0]
      case Lit(t) => t + Fill(ps[1..], vs)
      case Param(_, _) => vs[0] + Fill(ps[1..], vs[1..])
  }

  predicate AllAccept(ps: seq<Piece>, vs: seq<string>)
    requires |vs| == |Names(ps)|
  {
    ps != [] ==>
      match ps[0]
      case Lit(_) => AllAccept(ps[1..], vs)
      case Param(_, c) => Accepts(c, vs[0]) && AllAccept(ps[1..], vs[1..])
  }

  /** `s` is the filled template, possibly with one newline behind it. */
  predicate Fits(ps: seq<Piece>, vs: seq<string>, s: string) {
    && |vs| == |Names(ps)|
    && AllAccept(ps, vs)
    && (s == Fill(ps, vs) || s == Fill(ps, vs) + "\n")
  }

  /** What the matcher captures is a way to read the path as the template. */
  lemma {:induction false} MatchSound(ps: seq<Piece>, s: string)
    ensures Match(ps, s).Some? ==> Fits(ps, Match(ps, s).value, s)
    decreases |ps|, |s| + 1
  {
    if ps == [] {
      assert s == "\n" ==> s == [] + "\n";
    } else {
      match ps[0]
      case Lit(t) =>
        if t <= s {
          MatchSound(ps[1..], s[|t|..]);
          assert s == t + s[|t|..];
        }
      case Param(_, c) => MatchParamSound(ps, s, ClassRun(c, s));
    }
  }

  lemma {:induction false} MatchParamSound(ps: seq<Piece>, s: string, n: nat)
    requires ps != [] && ps[0].Param? && n <= ClassRun(ps[0].conv, s)
    ensures MatchParam(ps, s, n).Some? ==> Fits(ps, MatchParam(ps, s, n).value, s)
    decreases |ps|, n
  {
    if n >= MinLength(ps[0].conv) {
      MatchSound(ps[1..], s[n..]);
      match Match(ps[1..], s[n..])
      case Some(caps) =>
        assert ([s[..n]] + caps)[1..] == caps;
        assert s == s[..n] + s[n..];
      case None => if n > 0 { MatchParamSound(ps, s, n - 1); }
    }
  }

  lemma {:induction false} RunCovers(c: Conv, v: string, rest: string)
    requires forall ch <- v :: InClass(c, ch)
    ensures ClassRun(c, v + rest) >= |v|
    ensures (rest == [] || !InClass(c, rest[0])) ==> ClassRun(c, v + rest) == |v|
  {
    if v != [] {
      assert (v + rest)[1..] == v[1..] + rest;
      RunCovers(c, v[1..], rest);
    } else {
      assert v + rest == rest;
    }
  }

  /** The matcher misses nothing: if the path can be read as the template, it matches. */
  lemma {:induction false} MatchComplete(ps: seq<Piece>, vs: seq<string>, s: string)
    requires Fits(ps, vs, s)
    ensures Match(ps, s).Some?
    decreases |ps|, |s| + 1
  {
    if ps != [] {
      match ps[0]
      case Lit(t) =>
        assert s == t + s[|t|..];
        MatchComplete(ps[1..], vs, s[|t|..]);
      case Param(_, c) =>
        var v := vs[0];
        assert s == v + s[|v|..];
        RunCovers(c, v, s[|v|..]);
        MatchComplete(ps[1..], vs[1..], s[|v|..]);
        TryDown(ps, s, |v|, ClassRun(c, s));
    }
  }

  /** Longest first: a capture is at least as long as any from which the rest can match. */
  lemma {:induction false} TryDown(ps: seq<Piece>, s: string, k: nat, n: nat)
    requires ps != [] && ps[0].Param? && MinLength(ps[0].conv) <= k <= n <= |s|
    requires Match(ps[1..], s[k..]).Some?
    ensures MatchParam(ps, s, n).Some? && MatchParam(ps, s, n).value != []
    ensures |MatchParam(ps, s, n).value[0]| >= k
    decreases n
  {
    if n > k {
      TryDown(ps, s, k, n - 1);
    }
  }

  /** A path matches exactly when some values fill the template to it. */
  lemma MatchIff(ps: seq<Piece>, s: string)
    ensures Match(ps, s).Some? <==> exists vs :: Fits(ps, vs, s)
  {
    MatchSound(ps, s);
    if vs :| Fits(ps, vs, s) {
      MatchComplete(ps, vs, s);
    }
  }

  // ----- Templates that can be read in one way only -----

  /** What follows a parameter ends it: a slash, or the end of the template. */
  predicate Bounded(c: Conv, rest: seq<Piece>) {
    rest == []
    || (rest[0].Lit?
        && if rest[0].text == [] then |rest| == 1 else rest[0].text[0] == '/' && !c.PathConv?)
  }

  predicate Separated(ps: seq<Piece>) {
    ps != [] ==> (ps[0].Param? ==> Bounded(ps[0].conv, ps[1..])) && Separated(ps[1..])
  }

  /** On a separated template matching recovers the values that were filled in. */
  lemma {:induction false} MatchFilled(ps: seq<Piece>, vs: seq<string>)
    requires |vs| == |Names(ps)| && AllAccept(ps, vs) && Separated(ps)
    ensures Match(ps, Fill(ps, vs)) == Some(vs)
    decreases |ps|
  {
    if ps != [] {
      var s, rest := Fill(ps, vs), ps[1..];
      match ps[0]
      case Lit(t) =>
        assert s[|t|..] == Fill(rest, vs);
        MatchFilled(rest, vs);
      case Param(_, c) =>
        var v, tail := vs[0], Fill(rest, vs[1..]);
        assert s[..|v|] == v && s[|v|..] == tail;
        if rest != [] && rest[0].text != [] {
          assert tail[0] == rest[0].text[0] == '/';
        } else if rest != [] {
          assert rest[1..] == [] && Fill(rest[1..], vs[1..]) == [];
          assert tail == [];
        }
        RunCovers(c, v, tail);
        MatchFilled(rest, vs[1..]);
        assert [v] + vs[1..] == vs;
    }
  }

  /**
   * Without a slash between two parameters the first capture takes all it can: the
   * values are recovered exactly when the second has one character.
   */
  lemma AdjacentRecoveredIff(a: string, b: string, v: string, w: string)
    requires Accepts(StrConv, v) && Accepts(StrConv, w)
    ensures var ps := [Param(a, StrConv), Param(b, StrConv)];
            Match(ps, v + w) == Some([v, w]) <==> |w| == 1
  {
    var ps, s := [Param(a, StrConv), Param(b, StrConv)], v + w;
    AdjacentIsGreedy(a, b, s);
    hide Match;
    if |w| == 1 {
      assert s[..|s| - 1] == v && s[|s| - 1..] == w;
    }
  }

  lemma AdjacentIsGreedy(a: string, b: string, s: string)
    requires |s| >= 2 && Accepts(StrConv, s)
    ensures Match([Param(a, StrConv), Param(b, StrConv)], s) == Some([s[..|s| - 1], s[|s| - 1..]])
  {
    var ps, k := [Param(a, StrConv), Param(b, StrConv)], |s| - 1;
    assert ps[1..] == [Param(b, StrConv)];
    LastParam(b, s[k..]);
    RunCovers(StrConv, s, []);
    assert s + [] == s;
    LastParam(b, []);
    assert s[|s|..] == [];
    assert MatchParam(ps, s, |s|) == MatchParam(ps, s, k);
    assert Match(ps, s) == MatchParam(ps, s, |s|);
    assert [s[..k]] + [s[k..]] == [s[..k], s[k..]];
  }

  lemma LastParam(b: string, s: string)
    requires |s| <= 1 && (s != [] ==> Accepts(StrConv, s))
    ensures Match([Param(b, StrConv)], s) == if s == [] then None else Some([s])
  {
    var ps := [Param(b, StrConv)];
    if s != [] {
      assert s + [] == s;
      RunCovers(StrConv, s, []);
      assert s[1..] == [] && s[..1] == s && ps[1..] == [];
      assert [s] + [] == [s];
      assert MatchParam(ps, s, 1) == Some([s]);
    }
  }
}
