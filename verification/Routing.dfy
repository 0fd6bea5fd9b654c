/**
 * Longest-prefix routing, written three times: Config::getLocation, RequestResolver::resolvePath
 * and PipelineRouterMiddleware. A map is the sequence of its entries, keys distinct, in any order.
 */
module Routing {
  import opened StringOps

  datatype Entry<V> = Entry(key: string, value: V)

  function KeyOf<V>(entry: Option<Entry<V>>): Option<string> {
    if entry.Some? then Some(entry.value.key) else None
  }

  predicate HasKey<V>(entries: seq<Entry<V>>, key: string) {
    exists i | 0 <= i < |entries| :: entries[i].key == key
  }

  /** `best` is the longest key that starts `path`, or "" when no non-empty key does. */
  ghost predicate Longest<V>(entries: seq<Entry<V>>, path: string, best: string) {
    && best <= path && (best == "" || HasKey(entries, best))
    && forall i | 0 <= i < |entries| && entries[i].key <= path :: |entries[i].key| <= |best|
  }

  lemma {:induction false} LongestIsUnique<V, W>(a: seq<Entry<V>>, b: seq<Entry<W>>, path: string, p: string, q: string)
    requires Longest(a, path, p) && Longest(b, path, q)
    requires forall key :: HasKey(a, key) <==> HasKey(b, key)
    ensures p == q
  {
    assert |p| <= |q| by {
      if p != "" {
        assert HasKey(b, p);
        var i :| 0 <= i < |b| && b[i].key == p;
      }
    }
    assert |q| <= |p| by {
      if q != "" {
        assert HasKey(a, q);
        var i :| 0 <= i < |a| && a[i].key == q;
      }
    }
    assert p == path[..|p|] && q == path[..|q|];
  }

  /** What each of the three answers for the longest key: getLocation falls back on "/", */
  ghost predicate LocationKey<V>(entries: seq<Entry<V>>, path: string, key: Option<string>) {
    exists best :: Longest(entries, path, best) &&
                   key == if best != "" then Some(best) else if HasKey(entries, "/") then Some("/") else None
  }

  /** resolvePath on nothing, */
  ghost predicate RootKey<V>(entries: seq<Entry<V>>, path: string, key: Option<string>) {
    exists best :: Longest(entries, path, best) && key == if best != "" then Some(best) else None
  }

  /** and the pipeline router takes an empty key. */
  ghost predicate RouteKey<V>(entries: seq<Entry<V>>, path: string, key: Option<string>) {
    exists best :: Longest(entries, path, best) &&
                   key == if best != "" || HasKey(entries, "") then Some(best) else None
  }

  /** std::map::find. */
  method Lookup<V>(entries: seq<Entry<V>>, key: string) returns (found: Option<Entry<V>>)
    ensures found.Some? <==> HasKey(entries, key)
    ensures found.Some? ==> found.value.key == key && found.value in entries
  {
    for i := 0 to |entries|
      invariant forall k | 0 <= k < i :: entries[k].key != key
    {
      if entries[i].key == key {
        return Some(entries[i]);
      }
    }
    return None;
  }

  /** Config::getLocation; None when it throws. */
  method GetLocation<V>(locations: seq<Entry<V>>, path: string) returns (location: Option<Entry<V>>)
    ensures LocationKey(locations, path, KeyOf(location))
    ensures location.Some? ==> location.value in locations
  {
    var bestMatchKey := "";
    for i := 0 to |locations|
      invariant Longest(locations[..i], path, bestMatchKey)
    {
      var locPath := locations[i].key;
      ghost var before := bestMatchKey;
      if locPath <= path {
        if |locPath| > |bestMatchKey| {
          bestMatchKey := locPath;
        }
      }
      LongestGrows(locations, i, path, before, bestMatchKey);
    }
    assert locations[..|locations|] == locations;
    if bestMatchKey != "" {
      location := Lookup(locations, bestMatchKey);
      return;
    }
    location := Lookup(locations, "/");
  }

  lemma {:induction false} LongestGrows<V>(entries: seq<Entry<V>>, i: nat, path: string, before: string, best: string)
    requires i < |entries| && Longest(entries[..i], path, before)
    requires best == if entries[i].key <= path && |entries[i].key| > |before| then entries[i].key else before
    ensures Longest(entries[..i + 1], path, best)
  {
    var more := entries[..i + 1];
    assert more[i].key == entries[i].key;
    if before != "" {
      var k :| 0 <= k < i && entries[..i][k].key == before;
      assert more[k].key == before;
    }
    forall k | 0 <= k < |more| && more[k].key <= path ensures |more[k].key| <= |best| {
      assert k < i ==> more[k] == entries[..i][k];
    }
  }

  /** The loop at the start of resolvePath: the best key and, with it, the root of that location. */
  method BestRoot<V>(locations: seq<Entry<V>>, requestPath: string, noRoot: V) returns (bestMatchPath: string, root: V)
    ensures RootKey(locations, requestPath, if bestMatchPath == "" then None else Some(bestMatchPath))
    ensures if bestMatchPath == "" then root == noRoot else Entry(bestMatchPath, root) in locations
  {
    bestMatchPath, root := "", noRoot;
    for i := 0 to |locations|
      invariant Longest(locations[..i], requestPath, bestMatchPath)
      invariant if bestMatchPath == "" then root == noRoot else Entry(bestMatchPath, root) in locations
    {
      ghost var before := bestMatchPath;
      if locations[i].key <= requestPath {
        if |locations[i].key| > |bestMatchPath| {
          bestMatchPath := locations[i].key;
          root := locations[i].value;
          assert locations[i] == Entry(bestMatchPath, root);
        }
      }
      LongestGrows(locations, i, requestPath, before, bestMatchPath);
    }
    assert locations[..|locations|] == locations;
  }

  ghost predicate LongestFirst<V>(routes: seq<Entry<V>>) {
    forall i, j | 0 <= i < j < |routes| :: |routes[i].key| >= |routes[j].key|
  }

  ghost predicate Reordered<V>(a: seq<Entry<V>>, b: seq<Entry<V>>) {
    multiset(a) == multiset(b)
  }

  lemma {:induction false} ReorderedKeys<V>(a: seq<Entry<V>>, b: seq<Entry<V>>)
    requires Reordered(a, b)
    ensures forall key :: HasKey(a, key) <==> HasKey(b, key)
    ensures forall e :: e in a <==> e in b
  {
    forall e ensures e in a <==> e in b {
      assert e in multiset(a) <==> e in multiset(b);
    }
    forall key ensures HasKey(a, key) <==> HasKey(b, key) {
      if HasKey(a, key) {
        var i :| 0 <= i < |a| && a[i].key == key;
        assert a[i] in b;
      }
      if HasKey(b, key) {
        var i :| 0 <= i < |b| && b[i].key == key;
        assert b[i] in a;
      }
    }
  }

  function Insert<V>(sorted: seq<Entry<V>>, k: nat, x: Entry<V>): seq<Entry<V>>
    requires k <= |sorted|
  {
    sorted[..k] + [x] + sorted[k..]
  }

  lemma {:induction false} InsertedKeepsOrder<V>(sorted: seq<Entry<V>>, k: nat, x: Entry<V>)
    requires LongestFirst(sorted) && k <= |sorted|
    requires forall j | 0 <= j < k :: |sorted[j].key| >= |x.key|
    requires k < |sorted| ==> |sorted[k].key| < |x.key|
    ensures LongestFirst(Insert(sorted, k, x))
  {
    var more := Insert(sorted, k, x);
    forall i, j | 0 <= i < j < |more| ensures |more[i].key| >= |more[j].key| {
      var p, q := if i < k then sorted[i] else if i == k then x else sorted[i - 1],
                  if j < k then sorted[j] else if j == k then x else sorted[j - 1];
      assert more[i] == p && more[j] == q;
    }
  }

  lemma {:induction false} InsertedReorders<V>(routes: seq<Entry<V>>, i: nat, sorted: seq<Entry<V>>, k: nat)
    requires i < |routes| && Reordered(routes[..i], sorted) && k <= |sorted|
    ensures Reordered(routes[..i + 1], Insert(sorted, k, routes[i]))
  {
    assert routes[..i + 1] == routes[..i] + [routes[i]];
    assert sorted == sorted[..k] + sorted[k..];
  }

  /** std::sort with CompareRoutes: some ordering by descending key length, ties in any order. */
  method SortRoutes<V>(routes: seq<Entry<V>>) returns (sorted: seq<Entry<V>>)
    ensures Reordered(routes, sorted) && LongestFirst(sorted)
  {
    hide Reordered, Insert;
    sorted := [];
    NothingReordered(routes);
    for i := 0 to |routes|
      invariant Reordered(routes[..i], sorted) && LongestFirst(sorted)
    {
      var k := 0;
      while k < |sorted| && |sorted[k].key| >= |routes[i].key|
        invariant 0 <= k <= |sorted|
        invariant forall j | 0 <= j < k :: |sorted[j].key| >= |routes[i].key|
      {
        k := k + 1;
      }
      InsertedKeepsOrder(sorted, k, routes[i]);
      InsertedReorders(routes, i, sorted, k);
      sorted := Insert(sorted, k, routes[i]);
    }
    assert routes[..|routes|] == routes;
  }

  lemma {:induction false} NothingReordered<V>(routes: seq<Entry<V>>)
    ensures Reordered(routes[..0], [])
  {
  }

  /** PipelineRouterMiddleware::handle: the first sorted route whose key starts the path. */
  method Route<V>(routes: seq<Entry<V>>, requestPath: string) returns (next: Option<Entry<V>>)
    ensures RouteKey(routes, requestPath, KeyOf(next))
    ensures next.Some? ==> next.value in routes
  {
    var sortedRoutes := SortRoutes(routes);
    for i := 0 to |sortedRoutes|
      invariant forall k | 0 <= k < i :: !(sortedRoutes[k].key <= requestPath)
    {
      if sortedRoutes[i].key <= requestPath {
        FirstIsLongest(routes, sortedRoutes, requestPath, i);
        return Some(sortedRoutes[i]);
      }
    }
    NoneIsLongest(routes, sortedRoutes, requestPath);
    return None;
  }

  lemma {:induction false} FirstIsLongest<V>(routes: seq<Entry<V>>, sorted: seq<Entry<V>>, path: string, i: nat)
    requires Reordered(routes, sorted) && LongestFirst(sorted) && i < |sorted| && sorted[i].key <= path
    requires forall k | 0 <= k < i :: !(sorted[k].key <= path)
    ensures Longest(routes, path, sorted[i].key) && sorted[i] in routes && HasKey(routes, sorted[i].key)
  {
    ReorderedKeys(routes, sorted);
    assert HasKey(sorted, sorted[i].key);
    forall k | 0 <= k < |routes| && routes[k].key <= path ensures |routes[k].key| <= |sorted[i].key| {
      assert routes[k] in sorted;
      var j :| 0 <= j < |sorted| && sorted[j] == routes[k];
    }
  }

  lemma {:induction false} NoneIsLongest<V>(routes: seq<Entry<V>>, sorted: seq<Entry<V>>, path: string)
    requires Reordered(routes, sorted) && forall k | 0 <= k < |sorted| :: !(sorted[k].key <= path)
    ensures Longest(routes, path, "") && !HasKey(routes, "")
  {
    ReorderedKeys(routes, sorted);
    forall k | 0 <= k < |routes| ensures !(routes[k].key <= path) {
      assert routes[k] in sorted;
    }
    assert "" <= path;
  }

  // ---------- agreement ----------

  ghost predicate SomeKeyStarts<V>(entries: seq<Entry<V>>, path: string) {
    exists i | 0 <= i < |entries| :: entries[i].key != "" && entries[i].key <= path
  }

  /**
   * For the same keys and path the three routers choose the same key exactly if a non-empty key
   * starts the path, or there is neither an empty key nor a "/" to fall back on.
   */
  lemma {:induction false} RoutersAgree<V, W>(locations: seq<Entry<V>>, routes: seq<Entry<W>>, path: string,
                                              l: Option<string>, p: Option<string>, r: Option<string>)
    requires forall key :: HasKey(locations, key) <==> HasKey(routes, key)
    requires LocationKey(locations, path, l) && RootKey(locations, path, p) && RouteKey(routes, path, r)
    ensures l == p == r <==> SomeKeyStarts(locations, path) || (!HasKey(locations, "") && !HasKey(locations, "/"))
    ensures SomeKeyStarts(locations, path) ==>
              l.Some? && l.value != "" && l == p == r && Longest(locations, path, l.value)
  {
    var a :| Longest(locations, path, a) &&
             l == if a != "" then Some(a) else if HasKey(locations, "/") then Some("/") else None;
    var b :| Longest(locations, path, b) && p == if b != "" then Some(b) else None;
    var c :| Longest(routes, path, c) && r == if c != "" || HasKey(routes, "") then Some(c) else None;
    LongestIsUnique(locations, locations, path, a, b);
    LongestIsUnique(locations, routes, path, a, c);
    if a != "" {
      var i :| 0 <= i < |locations| && locations[i].key == a;
      assert SomeKeyStarts(locations, path);
    }
  }

  /** For the path "*" and the single key "/", getLocation answers and the other two do not. */
  lemma {:induction false} StarDisagrees()
    ensures var entries := [Entry("/", 0)];
            LocationKey(entries, "*", Some("/")) && RootKey(entries, "*", None) && RouteKey(entries, "*", None)
  {
    var entries := [Entry("/", 0)];
    assert "/"[0] != "*"[0];
    assert !("/" <= "*");
    assert Longest(entries, "*", "");
    assert entries[0].key == "/" && HasKey(entries, "/");
  }
}
