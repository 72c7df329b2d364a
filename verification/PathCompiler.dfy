/** `compile_path`: from the path of a route declaration to its pieces. */
module PathCompiler {
  import opened Common
  import opened Text
  import opened Templates

  datatype CompileError = UnknownConvertor(convertor: string) | DuplicatedParams(names: set<string>)

  /** The convertors of the model; the name is what a declaration writes after the colon. */
  function Convertor(name: string): Option<Conv> {
    if name == "str" then Some(StrConv)
    else if name == "int" then Some(IntConv)
    else if name == "path" then Some(PathConv)
    else None
  }

  function ConvName(c: Conv): string {
    match c case StrConv => "str" case IntConv => "int" case PathConv => "path"
  }

  // ----- The expression {name} or {name:convertor} -----

  predicate IsLetter(c: char) { 'a' <= c <= 'z' || 'A' <= c <= 'Z' || c == '_' }

  predicate IsWord(c: char) { IsLetter(c) || IsDigit(c) }

  function WordRun(s: string): (n: nat)
    ensures n <= |s|
    ensures forall i :: 0 <= i < n ==> IsWord(s[i])
    ensures n < |s| ==> !IsWord(s[n])
  {
    if s == [] || !IsWord(s[0]) then 0 else 1 + WordRun(s[1..])
  }

  predicate IsIdentifier(s: string) {
    s != [] && IsLetter(s[0]) && forall c <- s :: IsWord(c)
  }

  /** The length of the identifier at the front of `s`, 0 when there is none. */
  function IdentifierRun(s: string): (n: nat)
    ensures n <= |s|
    ensures n > 0 ==> IsIdentifier(s[..n])
  {
    if s != [] && IsLetter(s[0]) then WordRun(s) else 0
  }

  datatype Found = Found(name: string, convertor: string, length: nat)

  /** The parameter expression at the front of `s`. Neither ':' nor '}' is a word character, so no backtracking. */
  function ParamAt(s: string): (r: Option<Found>)
    ensures r.Some? ==> 0 < r.value.length <= |s|
  {
    if s == [] || s[0] != '{' then None
    else
      var u := s[1..];
      var n := IdentifierRun(u);
      if n == 0 then None else AfterName(u[..n], u[n..])
  }

  function AfterName(name: string, rest: string): (r: Option<Found>)
    ensures r.Some? ==> 0 < r.value.length <= 1 + |name| + |rest|
  {
    if rest == [] then None
    else if rest[0] == '}' then Some(Found(name, "str", |name| + 2))
    else if rest[0] != ':' then None
    else
      var u := rest[1..];
      var m := IdentifierRun(u);
      if 0 < m < |u| && u[m] == '}' then Some(Found(name, u[..m], |name| + m + 3)) else None
  }

  // ----- Specification -----

  /** The pieces of `s` when `lit` is the literal text read since the last parameter. */
  function Scan(lit: string, s: string): Result<seq<Piece>, string>
    decreases |s|
  {
    if s == [] then Ok([Lit(lit)])
    else
      match ParamAt(s)
      case None => Scan(lit + [s[0]], s[1..])
      case Some(f) =>
        match Convertor(f.convertor)
        case None => Err(f.convertor)
        case Some(c) => Prepend([Lit(lit), Param(f.name, c)], Scan([], s[f.length..]))
  }

  function Prepend(ps: seq<Piece>, r: Result<seq<Piece>, string>): Result<seq<Piece>, string> {
    match r case Ok(qs) => Ok(ps + qs) case Err(e) => Err(e)
  }

  /** The names that occur again later. */
  function Repeated(names: seq<string>): set<string> {
    if names == [] then {}
    else (if names[0] in names[1..] then {names[0]} else {}) + Repeated(names[1..])
  }

  function Compile(path: string): Result<seq<Piece>, CompileError> {
    match Scan([], path)
    case Err(c) => Err(UnknownConvertor(c))
    case Ok(ps) => if Repeated(Names(ps)) == {} then Ok(ps) else Err(DuplicatedParams(Repeated(Names(ps))))
  }

  /** `path_format`: the template with the convertors left out. */
  function Format(ps: seq<Piece>): string {
    if ps == [] then []
    else (match ps[0] case Lit(t) => t case Param(n, _) => Placeholder(n)) + Format(ps[1..])
  }

  function Placeholder(name: string): (s: string)
    ensures |s| == |name| + 2 && s[0] == '{'
  {
    "{" + name + "}"
  }

  function Convertors(ps: seq<Piece>): map<string, Conv> {
    if ps == [] then map[]
    else
      var before := Convertors(ps[..|ps| - 1]);
      match ps[|ps| - 1] case Lit(_) => before case Param(n, c) => before[n := c]
  }

  // ----- The compiler -----

  datatype Compiled = Compiled(pieces: seq<Piece>, format: string, convertors: map<string, Conv>)

  lemma {:induction false} FormatAppend(ps: seq<Piece>, qs: seq<Piece>)
    ensures Format(ps + qs) == Format(ps) + Format(qs)
  {
    if ps == [] {
      assert ps + qs == qs;
    } else {
      assert (ps + qs)[1..] == ps[1..] + qs;
      FormatAppend(ps[1..], qs);
    }
  }

  lemma {:induction false} NamesAppend(ps: seq<Piece>, qs: seq<Piece>)
    ensures Names(ps + qs) == Names(ps) + Names(qs)
  {
    if ps == [] {
      assert ps + qs == qs;
    } else {
      assert (ps + qs)[1..] == ps[1..] + qs;
      NamesAppend(ps[1..], qs);
    }
  }

  lemma {:induction false} RepeatedSnoc(names: seq<string>, n: string)
    ensures Repeated(names + [n]) == Repeated(names) + (if n in names then {n} else {})
  {
    if names != [] {
      assert (names + [n])[1..] == names[1..] + [n];
      RepeatedSnoc(names[1..], n);
    } else {
      assert names + [n] == [n];
    }
  }

  lemma {:induction false} ConvertorsKeys(ps: seq<Piece>)
    ensures forall n :: n in Convertors(ps) <==> n in Names(ps)
  {
    if ps != [] {
      var front, p := ps[..|ps| - 1], ps[|ps| - 1];
      ConvertorsKeys(front);
      assert ps == front + [p];
      NamesAppend(front, [p]);
      assert Names([p]) == if p.Param? then [p.name] else [];
    }
  }

  lemma AddLiteral(ps: seq<Piece>, t: string)
    ensures var qs := ps + [Lit(t)];
            Format(qs) == Format(ps) + t && Names(qs) == Names(ps) && Convertors(qs) == Convertors(ps)
  {
    FormatAppend(ps, [Lit(t)]);
    NamesAppend(ps, [Lit(t)]);
    assert Format([Lit(t)]) == t + [] == t;
    assert (ps + [Lit(t)])[..|ps|] == ps;
    assert Names([Lit(t)]) == [] && Names(ps) + [] == Names(ps);
  }

  lemma AddParam(ps: seq<Piece>, n: string, c: Conv)
    ensures var qs := ps + [Param(n, c)];
            && Format(qs) == Format(ps) + Placeholder(n)
            && Names(qs) == Names(ps) + [n] && Convertors(qs) == Convertors(ps)[n := c]
  {
    FormatAppend(ps, [Param(n, c)]);
    NamesAppend(ps, [Param(n, c)]);
    assert Format([Param(n, c)]) == Placeholder(n) + [] == Placeholder(n);
    assert (ps + [Param(n, c)])[..|ps|] == ps;
    assert Names([Param(n, c)]) == [n] + [] == [n];
  }

  /** Adding one match: the text since the last one, and the parameter. */
  lemma ExtendCompiled(ps: seq<Piece>, lit: string, n: string, c: Conv)
    ensures var qs := ps + [Lit(lit), Param(n, c)];
            && Format(qs) == Format(ps) + lit + Placeholder(n)
            && Convertors(qs) == Convertors(ps)[n := c]
            && Repeated(Names(qs)) == Repeated(Names(ps)) + (if n in Convertors(ps) then {n} else {})
  {
    hide Format;
    hide Names;
    hide Convertors;
    hide Repeated;
    AddLiteral(ps, lit);
    AddParam(ps + [Lit(lit)], n, c);
    assert ps + [Lit(lit)] + [Param(n, c)] == ps + [Lit(lit), Param(n, c)];
    RepeatedSnoc(Names(ps), n);
    ConvertorsKeys(ps);
  }

  /** The loop invariant of `compile_path`: what is read, and what is left to read from `pos`. */
  ghost predicate Progress(path: string, idx: nat, pos: nat, c: Compiled, duplicated: set<string>) {
    && idx <= pos <= |path|
    && Scan([], path) == Prepend(c.pieces, Scan(path[idx..pos], path[pos..]))
    && c.format == Format(c.pieces) && c.convertors == Convertors(c.pieces)
    && duplicated == Repeated(Names(c.pieces))
  }

  lemma ProgressStart(path: string)
    ensures Progress(path, 0, 0, Compiled([], [], map[]), {})
  {
    assert path[0..0] == [] && path[0..] == path;
    if Scan([], path).Ok? {
      assert [] + Scan([], path).value == Scan([], path).value;
    }
  }

  function Extend(c: Compiled, lit: string, n: string, conv: Conv): Compiled {
    Compiled(c.pieces + [Lit(lit), Param(n, conv)], c.format + lit + Placeholder(n), c.convertors[n := conv])
  }

  lemma ProgressParam(path: string, idx: nat, pos: nat, c: Compiled, duplicated: set<string>, f: Found, conv: Conv)
    requires Progress(path, idx, pos, c, duplicated) && pos < |path|
    requires ParamAt(path[pos..]) == Some(f) && Convertor(f.convertor) == Some(conv)
    ensures var end := pos + f.length;
            Progress(path, end, end, Extend(c, path[idx..pos], f.name, conv),
                     if f.name in c.convertors then duplicated + {f.name} else duplicated)
  {
    hide ParamAt;
    hide Convertor;
    ScanStep(path, idx, pos);
    ExtendCompiled(c.pieces, path[idx..pos], f.name, conv);
    hide Scan;
    hide Format;
    hide Names;
    hide Convertors;
    hide Repeated;
    PrependTwice(c.pieces, [Lit(path[idx..pos]), Param(f.name, conv)], Scan([], path[pos + f.length..]));
    assert path[pos + f.length..pos + f.length] == [];
  }

  /** The loop of `compile_path` over the matches of the parameter expression. */
  method CompilePath(path: string) returns (r: Result<Compiled, CompileError>)
    ensures match Compile(path)
            case Ok(ps) => r == Ok(Compiled(ps, Format(ps), Convertors(ps)))
            case Err(e) => r == Err(e)
  {
    hide ParamAt;
    hide Convertor;
    hide Scan;
    hide Format;
    hide Names;
    hide Convertors;
    hide Repeated;
    var idx: nat, pos: nat := 0, 0;
    var c := Compiled([], [], map[]);
    var duplicated: set<string> := {};
    ProgressStart(path);
    while pos < |path|
      invariant Progress(path, idx, pos, c, duplicated)
    {
      ScanStep(path, idx, pos);
      var found := ParamAt(path[pos..]);
      if found.None? {
        pos := pos + 1;
      } else {
        var f := found.value;
        var conv := Convertor(f.convertor);
        if conv.None? {
          return Err(UnknownConvertor(f.convertor));
        }
        ProgressParam(path, idx, pos, c, duplicated, f, conv.value);
        if f.name in c.convertors {
          duplicated := duplicated + {f.name};
        }
        c := Extend(c, path[idx..pos], f.name, conv.value);
        pos := pos + f.length;
        idx := pos;
      }
    }
    assert path[idx..pos] == path[idx..] && path[pos..] == [];
    ScanStart(path[idx..], []);
    AddLiteral(c.pieces, path[idx..]);
    if duplicated != {} {
      return Err(DuplicatedParams(duplicated));
    }
    return Ok(Compiled(c.pieces + [Lit(path[idx..])], c.format + path[idx..], c.convertors));
  }

  lemma ScanStep(path: string, idx: nat, pos: nat)
    requires idx <= pos < |path|
    ensures match ParamAt(path[pos..])
            case None => Scan(path[idx..pos], path[pos..]) == Scan(path[idx..pos + 1], path[pos + 1..])
            case Some(f) =>
              match Convertor(f.convertor)
              case None => Scan(path[idx..pos], path[pos..]) == Err(f.convertor)
              case Some(c) => Scan(path[idx..pos], path[pos..])
                              == Prepend([Lit(path[idx..pos]), Param(f.name, c)], Scan([], path[pos + f.length..]))
  {
    hide ParamAt;
    var s := path[pos..];
    match ParamAt(s)
    case None => assert path[idx..pos] + [s[0]] == path[idx..pos + 1] && s[1..] == path[pos + 1..];
    case Some(f) => assert s[f.length..] == path[pos + f.length..];
  }

  lemma PrependTwice(ps: seq<Piece>, qs: seq<Piece>, r: Result<seq<Piece>, string>)
    ensures Prepend(ps, Prepend(qs, r)) == Prepend(ps + qs, r)
  {
    if r.Ok? {
      assert ps + (qs + r.value) == ps + qs + r.value;
    }
  }

  // ----- Round trip with the declaration syntax -----

  /** Literals and parameters in turn, a literal at both ends; literals free of '{'. */
  predicate WellFormed(ps: seq<Piece>) {
    && |ps| % 2 == 1
    && (forall i :: 0 <= i < |ps| ==>
          if i % 2 == 0 then ps[i].Lit? && '{' !in ps[i].text else ps[i].Param? && IsIdentifier(ps[i].name))
  }

  /** A declaration of the template; a str convertor may be left out for the names in `bare`. */
  function Source(ps: seq<Piece>, bare: set<string>): string {
    if ps == [] then []
    else
      (match ps[0] case Lit(t) => t case Param(n, c) => SourceParam(n, c, bare)) + Source(ps[1..], bare)
  }

  function SourceParam(n: string, c: Conv, bare: set<string>): string {
    if c.StrConv? && n in bare then "{" + n + "}" else "{" + n + ":" + ConvName(c) + "}"
  }

  lemma {:induction false} WordRunExact(w: string, rest: string)
    requires (forall c <- w :: IsWord(c)) && rest != [] && !IsWord(rest[0])
    ensures WordRun(w + rest) == |w|
  {
    if w != [] {
      assert (w + rest)[1..] == w[1..] + rest;
      WordRunExact(w[1..], rest);
    } else {
      assert w + rest == rest;
    }
  }

  lemma IdentifierExact(w: string, rest: string)
    requires IsIdentifier(w) && rest != [] && !IsWord(rest[0])
    ensures IdentifierRun(w + rest) == |w| && (w + rest)[..|w|] == w && (w + rest)[|w|..] == rest
  {
    WordRunExact(w, rest);
  }

  lemma ParamAtBare(n: string, rest: string)
    requires IsIdentifier(n)
    ensures ParamAt("{" + n + "}" + rest) == Some(Found(n, "str", |n| + 2))
  {
    var t := "}" + rest;
    IdentifierExact(n, t);
    assert ("{" + n + "}" + rest)[1..] == n + t;
  }

  lemma ParamAtConv(n: string, c: string, rest: string)
    requires IsIdentifier(n) && IsIdentifier(c)
    ensures ParamAt("{" + n + ":" + c + "}" + rest) == Some(Found(n, c, |n| + |c| + 3))
  {
    var t := "}" + rest;
    var u := ":" + (c + t);
    AfterNameConv(n, c, rest);
    IdentifierExact(n, u);
    hide AfterName, IdentifierRun, IsIdentifier;
    ParamText(n, c, rest);
    assert (n + u)[..|n|] == n && (n + u)[|n|..] == u;
  }

  lemma ParamText(n: string, c: string, rest: string)
    ensures var s := "{" + n + ":" + c + "}" + rest;
            s[0] == '{' && s[1..] == n + (":" + (c + ("}" + rest)))
  {
  }

  lemma AfterNameConv(n: string, c: string, rest: string)
    requires IsIdentifier(c)
    ensures AfterName(n, ":" + (c + ("}" + rest))) == Some(Found(n, c, |n| + |c| + 3))
  {
    IdentifierExact(c, "}" + rest);
    assert (":" + (c + ("}" + rest)))[1..] == c + ("}" + rest);
  }

  /** Whatever is read as a parameter is one in the grammar; without a convertor it is a str. */
  lemma ParamAtSound(s: string)
    requires ParamAt(s).Some?
    ensures var Found(name, conv, n) := ParamAt(s).value;
            && IsIdentifier(name) && 0 < n <= |s|
            && ((conv == "str" && s[..n] == "{" + name + "}")
                || (IsIdentifier(conv) && s[..n] == "{" + name + ":" + conv + "}"))
  {
    var u := s[1..];
    var k := IdentifierRun(u);
    var name, rest := u[..k], u[k..];
    AfterNameSound(name, rest);
    hide AfterName, IdentifierRun, IsIdentifier;
    var n := ParamAt(s).value.length;
    assert s[..n] == "{" + name + rest[..n - k - 1];
  }

  lemma AfterNameSound(name: string, rest: string)
    requires AfterName(name, rest).Some?
    ensures var Found(own, conv, n) := AfterName(name, rest).value;
            && own == name && |name| + 1 < n <= 1 + |name| + |rest|
            && ((conv == "str" && rest[..n - |name| - 1] == "}")
                || (IsIdentifier(conv) && rest[..n - |name| - 1] == ":" + conv + "}"))
  {
    var Found(_, conv, n) := AfterName(name, rest).value;
    if rest[0] == '}' {
      assert rest[..1] == "}";
    } else {
      assert rest[..|conv| + 2] == ":" + conv + "}";
    }
  }

  /** An identifier is a letter or underscore followed by letters, digits and underscores, all ASCII. */
  lemma IdentifierIff(s: string)
    ensures IsIdentifier(s) <==>
              && s != [] && !(48 <= s[0] as int <= 57)
              && forall c <- s ::
                   48 <= c as int <= 57 || 65 <= c as int <= 90 || c as int == 95 || 97 <= c as int <= 122
  {
    assert s != [] ==> s[0] in s;
  }

  lemma ScanStart(lit: string, s: string)
    ensures s == [] ==> Scan(lit, s) == Ok([Lit(lit)])
    ensures s != [] && s[0] != '{' ==> Scan(lit, s) == Scan(lit + [s[0]], s[1..])
  {
  }

  lemma {:induction false} ScanLiteral(lit: string, t: string, s: string)
    requires '{' !in t
    ensures Scan(lit, t + s) == Scan(lit + t, s)
    decreases |t|
  {
    hide Scan;
    if t == [] {
      assert t + s == s && lit + t == lit;
    } else {
      assert (t + s)[1..] == t[1..] + s && (t + s)[0] == t[0];
      ScanStart(lit, t + s);
      ScanLiteral(lit + [t[0]], t[1..], s);
      assert lit + [t[0]] + t[1..] == lit + t;
    }
  }

  /** A declared parameter is read as such, with its convertor. */
  lemma ParamAtSource(n: string, c: Conv, bare: set<string>, rest: string)
    requires IsIdentifier(n)
    ensures ParamAt(SourceParam(n, c, bare) + rest) == Some(Found(n, ConvName(c), |SourceParam(n, c, bare)|))
    ensures Convertor(ConvName(c)) == Some(c) && SourceParam(n, c, bare) != []
  {
    hide ParamAt;
    if c.StrConv? && n in bare {
      ParamAtBare(n, rest);
    } else {
      ParamAtConv(n, ConvName(c), rest);
    }
  }

  lemma ScanParam(lit: string, n: string, c: Conv, bare: set<string>, rest: string)
    requires IsIdentifier(n)
    ensures Scan(lit, SourceParam(n, c, bare) + rest)
            == Prepend([Lit(lit), Param(n, c)], Scan([], rest))
  {
    hide ParamAt, Convertor, SourceParam, IsIdentifier, ConvName, Prepend;
    ParamAtSource(n, c, bare, rest);
    var s := SourceParam(n, c, bare) + rest;
    assert s[|SourceParam(n, c, bare)|..] == rest;
  }

  lemma {:induction false} ScanSource(ps: seq<Piece>, bare: set<string>)
    requires WellFormed(ps)
    ensures Scan([], Source(ps, bare)) == Ok(ps)
  {
    hide Scan;
    var t := ps[0].text;
    assert [] + t == t;
    ScanLiteral([], t, Source(ps[1..], bare));
    if |ps| == 1 {
      ScanStart(t, []);
      assert Source(ps[1..], bare) == [];
      assert ps == [Lit(t)];
    } else {
      hide SourceParam;
      var Param(n, c) := ps[1];
      assert ps[1..][0] == ps[1] && ps[1..][1..] == ps[2..];
      ScanParam(t, n, c, bare, Source(ps[2..], bare));
      ScanSource(ps[2..], bare);
      assert ps == [Lit(t), Param(n, c)] + ps[2..];
    }
  }

  lemma {:induction false} RepeatedNone(names: seq<string>)
    ensures Repeated(names) == {} <==> Distinct(names)
  {
    if names != [] {
      RepeatedNone(names[1..]);
      if Distinct(names[1..]) && names[0] !in names[1..] {
        assert forall j :: 0 < j < |names| ==> names[j] == names[1..][j - 1];
      }
      if Distinct(names) {
        assert forall i, j :: 0 <= i < j < |names[1..]| ==>
          names[1..][i] == names[i + 1] && names[1..][j] == names[j + 1];
      }
    }
  }

  /** Compiling a declaration gives back the template, or names exactly its duplicated parameters. */
  lemma CompileRoundTrip(ps: seq<Piece>, bare: set<string>)
    requires WellFormed(ps)
    ensures Compile(Source(ps, bare)) ==
            if Distinct(Names(ps)) then Ok(ps) else Err(DuplicatedParams(Repeated(Names(ps))))
  {
    ScanSource(ps, bare);
    RepeatedNone(Names(ps));
  }

  /** One parameter behind a slash, as it is declared: each convertor under its name, str without one. */
  lemma DeclaredConvertors(n: string)
    requires IsIdentifier(n)
    ensures Compile("/{" + n + "}") == Ok([Lit("/"), Param(n, StrConv), Lit("")])
    ensures Compile("/{" + n + ":str}") == Ok([Lit("/"), Param(n, StrConv), Lit("")])
    ensures Compile("/{" + n + ":int}") == Ok([Lit("/"), Param(n, IntConv), Lit("")])
    ensures Compile("/{" + n + ":path}") == Ok([Lit("/"), Param(n, PathConv), Lit("")])
  {
    hide Compile, IsIdentifier;
    assert "/{" + n + "}" == "/" + SourceParam(n, StrConv, {n});
    OneParam(n, StrConv, {n}, "/{" + n + "}");
    WithConvertor(n, "str");
    OneParam(n, StrConv, {}, "/{" + n + ":str}");
    WithConvertor(n, "int");
    OneParam(n, IntConv, {}, "/{" + n + ":int}");
    WithConvertor(n, "path");
    OneParam(n, PathConv, {}, "/{" + n + ":path}");
  }

  lemma WithConvertor(n: string, c: string)
    ensures "/{" + n + (":" + c + "}") == "/" + ("{" + n + ":" + c + "}")
  {
  }

  lemma OneParam(n: string, c: Conv, bare: set<string>, path: string)
    requires IsIdentifier(n) && path == "/" + SourceParam(n, c, bare)
    ensures Compile(path) == Ok([Lit("/"), Param(n, c), Lit("")])
  {
    var ps := [Lit("/"), Param(n, c), Lit("")];
    hide Compile, SourceParam, IsIdentifier;
    assert ps[1..] == [Param(n, c), Lit("")] && ps[1..][1..] == [Lit("")] && [Lit("")][1..] == [];
    assert Source([Lit("")], bare) == [] + [];
    assert Source(ps, bare) == "/" + (SourceParam(n, c, bare) + ([] + []));
    assert path == Source(ps, bare);
    assert Names([Lit("")]) == [] && Names(ps[1..]) == [n] && Names(ps) == [n];
    CompileRoundTrip(ps, bare);
  }

  /** A convertor that is not in the table is refused. */
  lemma OtherConvertorRefused(n: string, c: string)
    requires IsIdentifier(n) && IsIdentifier(c) && c !in {"str", "int", "path", "float", "uuid"}
    ensures Compile("/{" + n + ":" + c + "}") == Err(UnknownConvertor(c))
  {
    var s := "{" + n + ":" + c + "}";
    hide ParamAt, IsIdentifier;
    ParamAtConv(n, c, []);
    assert s + [] == s && "/{" + n + ":" + c + "}" == "/" + s;
    ScanLiteral([], "/", s);
    assert [] + "/" == "/";
  }
}
