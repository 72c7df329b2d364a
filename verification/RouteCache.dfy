/** The cached route lookup against the linear scan of the route table. */
module RouteCache {
  import opened Common
  import opened Text
  import opened Templates
  import opened Routes
  import opened Mounts
  import LruCache

  /** What a route table holds: HTTP routes, mounts and WebSocket routes. */
  datatype Entry = HttpEntry(route: Route) | MountEntry(pieces: seq<Piece>) | SocketEntry(path: string)

  predicate ValidTable(table: seq<Entry>) {
    forall e <- table :: e.MountEntry? ==> IsMount(e.pieces)
  }

  /** Whether an entry matches fully, not fully, or raises. */
  datatype Answer = Fully | NotFully | Failed

  /** A mount matches fully whatever the method; a WebSocket route never matches an HTTP scope. */
  function Ask(e: Entry, sc: Scope): Answer
    requires e.MountEntry? ==> IsMount(e.pieces)
  {
    match e
    case HttpEntry(r) =>
      (match Matches(r, sc) case Full(_) => Fully case Raised => Failed case _ => NotFully)
    case MountEntry(ps) =>
      (match MountMatch(ps, sc) case Mounted(_, _) => Fully case MountRaised => Failed case NoMount => NotFully)
    case SocketEntry(_) => NotFully
  }

  /** The scope that the lookup builds to ask each entry. */
  function LookupScope(verb: string, path: string): Scope {
    Scope(Http, verb, path, [], map[], None)
  }

  /** The first entry that matches fully. An exception on the way ends the search without result. */
  function Scan(table: seq<Entry>, verb: string, path: string): Option<Entry>
    requires ValidTable(table)
  {
    if table == [] then None
    else
      match Ask(table[0], LookupScope(verb, path))
      case Fully => Some(table[0])
      case Failed => None
      case NotFully => Scan(table[1..], verb, path)
  }

  function CacheKey(verb: string, path: string): string { verb + " " + path }

  /** The scan as a function of the cache key, which ends its method at the first space. */
  function ScanKey(table: seq<Entry>, key: string): Option<Entry>
    requires ValidTable(table)
  {
    var sp := Find(key, " ", 0, |key|);
    if sp < 0 then None else Scan(table, key[..sp], key[sp + 1..])
  }

  /** Methods have no space, so a key stands for one method and one path. */
  lemma KeyIsExact(table: seq<Entry>, verb: string, path: string)
    requires ValidTable(table) && ' ' !in verb
    ensures ScanKey(table, CacheKey(verb, path)) == Scan(table, verb, path)
  {
    hide Scan, ValidTable;
    var key := CacheKey(verb, path);
    FindFirst(key, " ", 0, |key|);
    assert key[|verb|..|verb| + 1] == " ";
    assert At(key, |verb|, " ");
    forall i | 0 <= i < |verb| ensures !At(key, i, " ") {
      assert key[i..i + 1][0] == verb[i] && verb[i] in verb;
    }
    assert key[..|verb|] == verb && key[|verb| + 1..] == path;
  }

  /**
   * For a fixed route table, whatever was looked up before and whatever the capacity,
   * a lookup returns the first full match of the scan.
   */
  lemma CachedLookupIsScan(cap: nat, table: seq<Entry>, earlier: seq<string>, verb: string, path: string)
    requires ValidTable(table) && ' ' !in verb
    ensures var f := (key: string) => ScanKey(table, key);
            LruCache.Lookup(LruCache.Serve(cap, f, earlier), f, CacheKey(verb, path)).1 == Scan(table, verb, path)
  {
    KeyIsExact(table, verb, path);
    hide ValidTable, Scan;
    LruCache.LookupIsResolve(cap, (key: string) => ScanKey(table, key), earlier, CacheKey(verb, path));
  }

  /** Entry `i` matches fully, and no entry before it does or raises. */
  predicate FirstFull(table: seq<Entry>, sc: Scope, i: int)
    requires ValidTable(table)
  {
    && 0 <= i < |table| && Ask(table[i], sc).Fully?
    && forall j :: 0 <= j < i ==> Ask(table[j], sc).NotFully?
  }

  lemma {:induction false} ScanIsFirstFull(table: seq<Entry>, verb: string, path: string)
    requires ValidTable(table)
    ensures Scan(table, verb, path).Some? <==> exists i :: FirstFull(table, LookupScope(verb, path), i)
    ensures forall i :: FirstFull(table, LookupScope(verb, path), i) ==> Scan(table, verb, path) == Some(table[i])
  {
    hide Ask, IsMount;
    if table != [] {
      var sc, rest := LookupScope(verb, path), table[1..];
      ScanIsFirstFull(rest, verb, path);
      assert FirstFull(table, sc, 0) <==> Ask(table[0], sc).Fully?;
      forall i | 0 < i < |table|
        ensures FirstFull(table, sc, i) <==> Ask(table[0], sc).NotFully? && FirstFull(rest, sc, i - 1)
      {
        assert forall j :: 0 < j < |table| ==> table[j] == rest[j - 1];
        assert forall j :: 0 <= j < |rest| ==> rest[j] == table[j + 1];
      }
      if i :| FirstFull(rest, sc, i) {
        assert FirstFull(table, sc, i + 1) || !Ask(table[0], sc).NotFully?;
      }
    }
  }

  /** Whether an entry takes the request in full: a route by its own match, a mount by its prefix. */
  predicate Takes(e: Entry, verb: string, path: string)
    requires e.MountEntry? ==> IsMount(e.pieces)
  {
    var sc := Scope(Http, verb, path, "", map[], None);
    && !e.SocketEntry?
    && (e.HttpEntry? ==> Matches(e.route, sc).Full?)
    && (e.MountEntry? ==> MountMatch(e.pieces, sc).Mounted?)
  }

  predicate Raises(e: Entry, verb: string, path: string)
    requires e.MountEntry? ==> IsMount(e.pieces)
  {
    var sc := Scope(Http, verb, path, "", map[], None);
    || (e.HttpEntry? && Matches(e.route, sc).Raised?)
    || (e.MountEntry? && MountMatch(e.pieces, sc).MountRaised?)
  }

  /** The scan in terms of the matches themselves: the first entry that takes the request, unless one raises before. */
  lemma ScanTakesFirst(table: seq<Entry>, verb: string, path: string, i: nat)
    requires ValidTable(table) && i < |table|
    requires forall j :: 0 <= j < i ==> !Takes(table[j], verb, path) && !Raises(table[j], verb, path)
    ensures Takes(table[i], verb, path) ==> Scan(table, verb, path) == Some(table[i])
    ensures Raises(table[i], verb, path) ==> Scan(table, verb, path) == None
    ensures i == |table| - 1 && !Takes(table[i], verb, path) ==> Scan(table, verb, path) == None
  {
    var sc := LookupScope(verb, path);
    forall e <- table
      ensures Takes(e, verb, path) <==> Ask(e, sc).Fully?
      ensures Raises(e, verb, path) <==> Ask(e, sc).Failed?
    {
      AskIff(e, verb, path);
    }
    assert forall j :: 0 <= j < |table| ==> table[j] in table;
    hide Takes, Raises, Ask, LookupScope;
    ScanIsFirstFull(table, verb, path);
    if Takes(table[i], verb, path) {
      assert FirstFull(table, sc, i);
    } else if n :| FirstFull(table, sc, n) {
      assert n > i;
    }
  }

  lemma AskIff(e: Entry, verb: string, path: string)
    requires e.MountEntry? ==> IsMount(e.pieces)
    ensures Takes(e, verb, path) <==> Ask(e, LookupScope(verb, path)).Fully?
    ensures Raises(e, verb, path) <==> Ask(e, LookupScope(verb, path)).Failed?
  {
    hide Matches, MountMatch, IsMount;
  }
}
