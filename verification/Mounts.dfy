/** Sub-applications mounted at a path prefix: what each match hands to its child. */
module Mounts {
  import opened Common
  import opened Text
  import opened Templates
  import opened PathCompiler
  import opened ReplaceParams
  import opened Routes

  const PATH := "path"

  /** The pieces of `<prefix>/{path:path}`, as `Mount` compiles them. */
  predicate IsMount(ps: seq<Piece>) {
    && |ps| >= 3
    && ps[|ps| - 1] == Lit("")
    && ps[|ps| - 2] == Param(PATH, PathConv)
    && ps[|ps| - 3].Lit? && ps[|ps| - 3].text != []
    && ps[|ps| - 3].text[|ps[|ps| - 3].text| - 1] == '/'
    && Distinct(Names(ps))
  }

  /** As the constructor demands, the declared path starts with a slash. */
  predicate Rooted(ps: seq<Piece>) {
    ps != [] && ps[0].Lit? && ps[0].text != [] && ps[0].text[0] == '/'
  }

  /** Everything up to the slash in front of the captured path. */
  function Front(ps: seq<Piece>): seq<Piece>
    requires |ps| >= 2
  {
    ps[..|ps| - 2]
  }

  // ----- Taking templates apart -----

  lemma FillAppend(ps: seq<Piece>, qs: seq<Piece>, vs: seq<string>)
    requires |vs| == |Names(ps + qs)|
    ensures var k := |Names(ps)|;
            && k <= |vs| && |vs| - k == |Names(qs)|
            && Fill(ps + qs, vs) == Fill(ps, vs[..k]) + Fill(qs, vs[k..])
            && (AllAccept(ps + qs, vs) <==> AllAccept(ps, vs[..k]) && AllAccept(qs, vs[k..]))
  {
    hide *;
    NamesAppend(ps, qs);
    var k := |Names(ps)|;
    assert vs == vs[..k] + vs[k..];
    FillBoth(ps, qs, vs[..k], vs[k..]);
    AcceptBoth(ps, qs, vs[..k], vs[k..]);
  }

  lemma FillHead(ps: seq<Piece>, vs: seq<string>)
    requires ps != [] && |vs| == |Names(ps)|
    ensures ps[0].Lit? ==> |vs| == |Names(ps[1..])| && Fill(ps, vs) == ps[0].text + Fill(ps[1..], vs)
    ensures ps[0].Param? ==> |vs| == |Names(ps[1..])| + 1 && Fill(ps, vs) == vs[0] + Fill(ps[1..], vs[1..])
  {
  }

  lemma {:induction false} FillBoth(ps: seq<Piece>, qs: seq<Piece>, vs: seq<string>, ws: seq<string>)
    requires |vs| == |Names(ps)| && |ws| == |Names(qs)| && |Names(ps + qs)| == |vs + ws|
    ensures Fill(ps + qs, vs + ws) == Fill(ps, vs) + Fill(qs, ws)
    decreases |ps|
  {
    if ps == [] {
      assert ps + qs == qs && vs + ws == ws;
    } else {
      hide Fill, Names;
      var rest := ps[1..];
      assert (ps + qs)[1..] == rest + qs && (ps + qs)[0] == ps[0];
      FillHead(ps, vs);
      FillHead(ps + qs, vs + ws);
      if ps[0].Lit? {
        FillBoth(rest, qs, vs, ws);
        JoinThree(ps[0].text, Fill(rest, vs), Fill(qs, ws));
      } else {
        assert (vs + ws)[1..] == vs[1..] + ws && (vs + ws)[0] == vs[0];
        FillBoth(rest, qs, vs[1..], ws);
        JoinThree(vs[0], Fill(rest, vs[1..]), Fill(qs, ws));
      }
    }
  }

  lemma {:induction false} AcceptBoth(ps: seq<Piece>, qs: seq<Piece>, vs: seq<string>, ws: seq<string>)
    requires |vs| == |Names(ps)| && |ws| == |Names(qs)| && |Names(ps + qs)| == |vs + ws|
    ensures AllAccept(ps + qs, vs + ws) <==> AllAccept(ps, vs) && AllAccept(qs, ws)
    decreases |ps|
  {
    hide Accepts;
    if ps == [] {
      assert ps + qs == qs && vs + ws == ws;
    } else {
      assert (ps + qs)[1..] == ps[1..] + qs && (ps + qs)[0] == ps[0];
      if ps[0].Lit? {
        AcceptBoth(ps[1..], qs, vs, ws);
      } else {
        assert (vs + ws)[1..] == vs[1..] + ws && (vs + ws)[0] == vs[0];
        AcceptBoth(ps[1..], qs, vs[1..], ws);
      }
    }
  }

  /** A filled mount template: the filled front, which ends in a slash, and the captured path. */
  lemma MountFill(ps: seq<Piece>, vs: seq<string>)
    requires IsMount(ps) && |vs| == |Names(ps)|
    ensures var k := |Names(Front(ps))|;
            && |vs| == k + 1
            && Fill(ps, vs) == Fill(Front(ps), vs[..k]) + vs[k]
            && (AllAccept(ps, vs) <==> AllAccept(Front(ps), vs[..k]) && Accepts(PathConv, vs[k]))
  {
    var front, back := Front(ps), ps[|ps| - 2..];
    assert ps == front + back && back == [Param(PATH, PathConv), Lit("")];
    FillAppend(front, back, vs);
    var k := |Names(front)|;
    assert Names(back) == [PATH] by { BackFill([]); }
    assert vs[k..] == [vs[k]];
    BackFill(vs[k]);
  }

  lemma BackFill(v: string)
    ensures var back := [Param(PATH, PathConv), Lit("")];
            Names(back) == [PATH] && Fill(back, [v]) == v && (AllAccept(back, [v]) <==> Accepts(PathConv, v))
  {
    var back, lit := [Param(PATH, PathConv), Lit("")], [Lit("")];
    assert back[1..] == lit && lit[1..] == [] && [v][1..] == [];
    assert Names(lit) == [] + [] == [];
    assert Names(back) == [PATH] + [];
    assert Fill(lit, []) == [] + [] == [];
    assert Fill(back, [v]) == v + [] == v;
    assert AllAccept(lit, []);
  }

  lemma FrontEndsInSlash(ps: seq<Piece>, vs: seq<string>)
    requires IsMount(ps) && |vs| == |Names(Front(ps))|
    ensures var f := Fill(Front(ps), vs); f != [] && f[|f| - 1] == '/'
  {
    var front := Front(ps);
    var a, l := front[..|front| - 1], front[|front| - 1];
    assert front == a + [l];
    FillAppend(a, [l], vs);
    assert [l][1..] == [] && Fill([l], vs[|Names(a)|..]) == l.text + [];
  }

  // ----- `Mount.matches` -----

  datatype MountResult = NoMount | MountRaised | Mounted(child: Scope, remaining: string)

  /** The child's scope; Python computes the matched part as `route_path[:-len(remaining_path)]`. */
  function Enter(sc: Scope, s: string, m: map<string, Value>, remaining: string): MountResult
    requires |remaining| <= |s|
  {
    Mounted(sc.(params := sc.params + m,
                appRootPath := if sc.appRootPath.Some? then sc.appRootPath else Some(sc.rootPath),
                rootPath := sc.rootPath + s[..|s| - |remaining|]),
            remaining)
  }

  /** The group "path" is the last one, since no name occurs twice. */
  function MountMatch(ps: seq<Piece>, sc: Scope): MountResult
    requires IsMount(ps)
  {
    if sc.kind.Lifespan? then NoMount
    else
      var s := RoutePath(sc.path, sc.rootPath);
      match Match(ps, s)
      case None => NoMount
      case Some(caps) =>
        MatchSound(ps, s);
        MountFill(ps, caps);
        FrontEndsInSlash(ps, caps[..|caps| - 1]);
        match ConvertAll(Front(ps), caps[..|caps| - 1])
        case Err(_) => MountRaised
        case Ok(m) => Enter(sc, s, m, "/" + caps[|caps| - 1])
  }

  /** `root_path` is empty, or a prefix of the path that ends where a slash or the end follows. */
  predicate RootOk(sc: Scope) {
    sc.rootPath == []
    || (sc.rootPath <= sc.path && (sc.path == sc.rootPath || sc.path[|sc.rootPath|] == '/'))
  }

  predicate EndsInNewline(s: string) {
    s != [] && s[|s| - 1] == '\n'
  }

  lemma RoutePathIsSuffix(sc: Scope)
    requires RootOk(sc)
    ensures sc.path == sc.rootPath + RoutePath(sc.path, sc.rootPath)
  {
  }

  /** The captures behind a match: the route path is the filled front, the captured path, and possibly a newline. */
  lemma MountCaptures(ps: seq<Piece>, sc: Scope) returns (front: string, capture: string, m: map<string, Value>)
    requires IsMount(ps) && MountMatch(ps, sc).Mounted?
    ensures front != [] && front[|front| - 1] == '/' && Accepts(PathConv, capture)
    ensures Rooted(ps) ==> front[0] == '/'
    ensures var s := RoutePath(sc.path, sc.rootPath);
            && (s == front + capture || s == front + capture + "\n")
            && |"/" + capture| <= |s|
            && MountMatch(ps, sc) == Enter(sc, s, m, "/" + capture)
  {
    hide Match, Fill, AllAccept, Accepts, Enter, Names, ConvertAll, RoutePath;
    var s := RoutePath(sc.path, sc.rootPath);
    MatchSound(ps, s);
    var caps := Match(ps, s).value;
    MountFill(ps, caps);
    var vs := caps[..|caps| - 1];
    FrontEndsInSlash(ps, vs);
    FillHead(Front(ps), vs);
    front, capture := Fill(Front(ps), vs), caps[|caps| - 1];
    m := ConvertAll(Front(ps), vs).value;
  }

  /** A mount is for HTTP and WebSocket requests whose route path its template matches, and for no others. */
  lemma NoMountIff(ps: seq<Piece>, sc: Scope)
    requires IsMount(ps)
    ensures MountMatch(ps, sc) == NoMount <==> sc.kind.Lifespan? || Match(ps, RoutePath(sc.path, sc.rootPath)) == None
  {
    hide Match, ConvertAll, RoutePath;
    MatchSound(ps, RoutePath(sc.path, sc.rootPath));
  }

  /** What a match says about the child's scope. */
  lemma MountShape(ps: seq<Piece>, sc: Scope) returns (front: string, capture: string)
    requires IsMount(ps) && MountMatch(ps, sc).Mounted?
    ensures front != [] && front[|front| - 1] == '/' && Accepts(PathConv, capture)
    ensures Rooted(ps) ==> front[0] == '/'
    ensures MountMatch(ps, sc).remaining == "/" + capture
    ensures var s := RoutePath(sc.path, sc.rootPath);
            && (s == front + capture || s == front + capture + "\n")
            && var child := MountMatch(ps, sc).child;
               && child.path == sc.path && child.kind == sc.kind && child.verb == sc.verb
               && child.rootPath == sc.rootPath + (if s == front + capture then front[..|front| - 1] else front)
               && child.appRootPath == (if sc.appRootPath.Some? then sc.appRootPath else Some(sc.rootPath))
  {
    var m;
    front, capture, m := MountCaptures(ps, sc);
    hide MountMatch, IsMount, RoutePath, Accepts;
    var s := RoutePath(sc.path, sc.rootPath);
    assert s[..|front| - 1] == front[..|front| - 1] && s[..|front|] == front;
  }

  /**
   * One mount: the child's route path is the captured rest exactly when the path does not
   * end in a newline and the root path is empty or a prefix of the path at a slash, as it
   * then is for the child again; without such a root path, only when the rest is the
   * whole path.
   */
  lemma MountChildIff(ps: seq<Piece>, sc: Scope)
    requires IsMount(ps) && MountMatch(ps, sc).Mounted?
    ensures var Mounted(child, remaining) := MountMatch(ps, sc);
            && (RootOk(sc) ==> (RoutePath(child.path, child.rootPath) == remaining <==> !EndsInNewline(sc.path)))
            && (RootOk(sc) && !EndsInNewline(sc.path) ==> RootOk(child))
            && (Rooted(ps) ==>
                  (RoutePath(child.path, child.rootPath) == remaining
                   <==> !EndsInNewline(sc.path) && (RootOk(sc) || remaining == sc.path)))
  {
    var front, capture := MountShape(ps, sc);
    var Mounted(child, remaining) := MountMatch(ps, sc);
    hide MountMatch, IsMount, Rooted;
    assert capture != [] ==> capture[|capture| - 1] in capture;
    assert !EndsInNewline(remaining);
    if RootOk(sc) {
      MountBelowRoot(sc, child, front, capture);
    } else {
      assert RoutePath(sc.path, sc.rootPath) == sc.path;
      if front[0] == '/' {
        OutsideRoot(sc, child.rootPath, front);
      }
    }
  }

  lemma MountBelowRoot(sc: Scope, child: Scope, front: string, capture: string)
    requires RootOk(sc) && child.path == sc.path
    requires front != [] && front[|front| - 1] == '/' && !EndsInNewline("/" + capture)
    requires var s := RoutePath(sc.path, sc.rootPath);
             && (s == front + capture || s == front + capture + "\n")
             && child.rootPath == sc.rootPath + (if s == front + capture then front[..|front| - 1] else front)
    ensures RoutePath(child.path, child.rootPath) == "/" + capture <==> !EndsInNewline(sc.path)
    ensures !EndsInNewline(sc.path) ==> RootOk(child)
  {
    RoutePathIsSuffix(sc);
    hide RoutePath, RootOk;
    MoveSlash(sc.rootPath, front, capture);
    if RoutePath(sc.path, sc.rootPath) == front + capture {
      BelowRoot(child.rootPath, "/" + capture);
      ChildRootOk(child, "/" + capture);
    } else {
      KeepsNewline(sc.path, child.rootPath);
    }
  }

  /** A root path that is not in front of the path stays so when a mount's front is added. */
  lemma OutsideRoot(sc: Scope, root: string, front: string)
    requires !RootOk(sc) && front != [] && front[0] == '/'
    requires root == sc.rootPath + front || root == sc.rootPath + front[..|front| - 1]
    ensures RoutePath(sc.path, root) == sc.path
  {
    assert sc.rootPath <= root;
    assert forall i :: 0 <= i < |root| && root <= sc.path ==> sc.path[i] == root[i];
  }

  lemma ChildRootOk(child: Scope, rest: string)
    requires child.path == child.rootPath + rest && rest != [] && rest[0] == '/'
    ensures RootOk(child)
  {
  }

  /** The slash that ends the front belongs to the child's path, unless a newline was dropped. */
  lemma MoveSlash(root: string, front: string, capture: string)
    requires front != [] && front[|front| - 1] == '/'
    ensures root + (front + capture) == (root + front[..|front| - 1]) + ("/" + capture)
    ensures root + (front + capture + "\n") == (root + front) + (capture + "\n")
    ensures EndsInNewline(root + (front + capture + "\n")) && root + front != root + (front + capture + "\n")
  {
    assert |root + front| < |root + (front + capture + "\n")|;
  }

  lemma BelowRoot(root: string, rest: string)
    requires rest != [] && rest[0] == '/'
    ensures RoutePath(root + rest, root) == rest
    ensures (root + rest)[|root|] == '/' && root <= root + rest
    ensures EndsInNewline(root + rest) <==> EndsInNewline(rest)
  {
  }

  lemma KeepsNewline(path: string, root: string)
    requires EndsInNewline(path) && root != path
    ensures EndsInNewline(RoutePath(path, root))
  {
  }

  // ----- Mounts inside mounts -----

  /** The scope and remaining path after a chain of mounts, None when one does not match. */
  function Chain(mounts: seq<seq<Piece>>, sc: Scope): Option<(Scope, string)>
    requires forall ps <- mounts :: IsMount(ps)
    decreases |mounts|
  {
    if mounts == [] then Some((sc, RoutePath(sc.path, sc.rootPath)))
    else
      match MountMatch(mounts[0], sc)
      case Mounted(child, remaining) =>
        if |mounts| == 1 then Some((child, remaining)) else Chain(mounts[1..], child)
      case _ => None
  }

  /**
   * At any depth: the path is never changed, the root path only grows and stays a
   * prefix of it at a slash, the child sees exactly what its parent captured, and the
   * application's root path is the one outside the outermost mount.
   */
  lemma {:induction false} ChainComposes(mounts: seq<seq<Piece>>, sc: Scope)
    requires (forall ps <- mounts :: IsMount(ps)) && RootOk(sc) && !EndsInNewline(sc.path)
    requires Chain(mounts, sc).Some?
    ensures var (child, remaining) := Chain(mounts, sc).value;
            && child.path == sc.path
            && RootOk(child) && sc.rootPath <= child.rootPath
            && RoutePath(child.path, child.rootPath) == remaining
            && child.path == child.rootPath + remaining
            && (mounts != [] ==>
                  child.appRootPath == if sc.appRootPath.Some? then sc.appRootPath else Some(sc.rootPath))
    decreases |mounts|
  {
    if mounts == [] {
      RoutePathIsSuffix(sc);
    } else {
      var front, capture := MountShape(mounts[0], sc);
      MountChildIff(mounts[0], sc);
      var child := MountMatch(mounts[0], sc).child;
      hide MountMatch;
      RoutePathIsSuffix(child);
      if |mounts| > 1 {
        ChainComposes(mounts[1..], child);
      }
    }
  }

  // ----- Two inputs -----

  /** The mount /a. */
  const MOUNT_A: seq<Piece> := [Lit("/a/"), Param(PATH, PathConv), Lit("")]

  lemma MountA(end: string)
    requires end == "" || end == "\n"
    ensures IsMount(MOUNT_A) && Names(Front(MOUNT_A)) == [] && ConvertAll(Front(MOUNT_A), []) == Ok(map[])
    ensures Match(MOUNT_A, "/a/b" + end) == Some(["b"])
  {
    var ps, t := MOUNT_A, "b" + end;
    var back, last := [Param(PATH, PathConv), Lit("")], [Lit("")];
    assert ps[1..] == back && back[1..] == last && last[1..] == [];
    assert Front(ps) == [Lit("/a/")] && [Lit("/a/")][1..] == [];
    assert Distinct(Names(ps)) by {
      assert Names(ps) == [] + Names(ps[1..]);
      BackFill([]);
    }
    assert "/a/b" + end == "/a/" + t && ("/a/" + t)[3..] == t && t[1..] == end && t[..1] == "b";
    assert ClassRun(PathConv, end) == 0 && ClassRun(PathConv, t) == 1;
    var none: string := "";
    assert Match([], end) == Some([]) && none <= end && end[|none|..] == end && last[0].text == none;
    assert ["b"] + [] == ["b"] && MatchParam(back, t, 1) == Some(["b"]);
    assert Match(back, t) == Some(["b"]);
  }

  /**
   * A request for "/a/b" with a newline behind: the application is to get "/b", but its
   * route path is the whole path again.
   */
  lemma NewlineReachesChild()
    ensures var sc := Scope(Http, "GET", "/a/b\n", "", map[], None);
            && IsMount(MOUNT_A) && RootOk(sc) && MountMatch(MOUNT_A, sc).Mounted?
            && var Mounted(child, remaining) := MountMatch(MOUNT_A, sc);
               remaining == "/b" && RoutePath(child.path, child.rootPath) == "/a/b\n"
  {
    MountA("\n");
    assert "/a/b" + "\n" == "/a/b\n";
    assert ["b"][..|["b"]| - 1] == [] && "/a/b\n"[..|"/a/b\n"| - |"/b"|] == "/a/";
    assert "" + "/a/" == "/a/";
  }

  /**
   * Behind a proxy that strips "/api", with root path "/api": a request for "/a/b" reaches the
   * mount, but the route path of the application is "/a/b" again and not "/b".
   */
  lemma StrippedRootReachesChild()
    ensures var sc := Scope(Http, "GET", "/a/b", "/api", map[], None);
            && IsMount(MOUNT_A) && !RootOk(sc) && MountMatch(MOUNT_A, sc).Mounted?
            && var Mounted(child, remaining) := MountMatch(MOUNT_A, sc);
               remaining == "/b" && child.rootPath == "/api/a" && RoutePath(child.path, child.rootPath) == "/a/b"
  {
    MountA("");
    assert "/a/b" + "" == "/a/b";
    var path, root := "/a/b", "/api";
    assert |root| <= |path| && root[3] != path[3];
    assert ["b"][..|["b"]| - 1] == [] && path[..|path| - |"/b"|] == "/a" && root + "/a" == "/api/a";
    assert |"/api/a"| > |path|;
  }
}
