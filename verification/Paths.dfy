/** src/Lib/Path/Path.cpp, normalize: lexical normalisation of paths. */
module Paths {
  import opened StringOps

  /** One component against the stack of components kept so far. */
  function Push(kept: seq<string>, part: string, isAbsolute: bool): seq<string> {
    if part == "" || part == "." then kept
    else if part == ".." then
      if kept != [] && kept[|kept| - 1] != ".." then kept[..|kept| - 1]
      else if !isAbsolute then kept + [".."]
      else kept
    else kept + [part]
  }

  function PushAll(kept: seq<string>, parts: seq<string>, isAbsolute: bool): seq<string>
    decreases |parts|
  {
    if parts == [] then kept else PushAll(Push(kept, parts[0], isAbsolute), parts[1..], isAbsolute)
  }

  predicate IsAbsolute(path: string) {
    path != "" && path[0] == '/'
  }

  function Components(path: string): seq<string> {
    PushAll([], Split(path, '/'), IsAbsolute(path))
  }

  function Print(parts: seq<string>, isAbsolute: bool): string {
    if parts == [] then if isAbsolute then "/" else "."
    else (if isAbsolute then "/" else "") + Join(parts, "/")
  }

  function Normalized(path: string): string {
    Print(Components(path), IsAbsolute(path))
  }

  /** Path::normalize with its two loops. */
  method Normalize(path: string) returns (result: string)
    ensures result == Normalized(path)
  {
    if path == "" {
      assert Split("", '/') == [""] && PushAll([], [""], false) == [];
      return ".";
    }
    var isAbsolute := path[0] == '/';
    var parts := SplitTokens(path, '/');
    var components := [];
    for i := 0 to |parts|
      invariant PushAll(components, parts[i..], isAbsolute) == Components(path)
    {
      var component := parts[i];
      assert parts[i..][1..] == parts[i + 1..];
      if component == "" || component == "." {
        continue;
      }
      if component == ".." {
        if components != [] && components[|components| - 1] != ".." {
          components := components[..|components| - 1];
        } else if !isAbsolute {
          components := components + [".."];
        }
      } else {
        components := components + [component];
      }
    }
    if components == [] {
      return if isAbsolute then "/" else ".";
    }
    result := if isAbsolute then "/" else "";
    ghost var start := result;
    for i := 0 to |components|
      invariant result + Join(components[i..], "/") == start + Join(components, "/")
    {
      assert components[i..][1..] == components[i + 1..];
      ghost var before, rest := result, Join(components[i + 1..], "/");
      result := result + components[i];
      if i < |components| - 1 {
        result := result + "/";
        assert before + (components[i] + "/" + rest) == result + rest;
      }
    }
  }

  // ---------- the normal form ----------

  predicate Name(s: string) {
    s != "" && s != "." && '/' !in s
  }

  /** No empty part and no ".", and ".." only as a leading run and never at the root. */
  predicate Normal(cs: seq<string>, isAbsolute: bool) {
    && (forall i | 0 <= i < |cs| :: Name(cs[i]))
    && (forall i | 0 <= i < |cs| && cs[i] == ".." :: !isAbsolute && (i == 0 || cs[i - 1] == ".."))
  }

  lemma {:induction false} PushNormal(kept: seq<string>, part: string, isAbsolute: bool)
    requires Normal(kept, isAbsolute) && '/' !in part
    ensures Normal(Push(kept, part, isAbsolute), isAbsolute)
  {
  }

  lemma {:induction false} PushAllNormal(kept: seq<string>, parts: seq<string>, isAbsolute: bool)
    requires Normal(kept, isAbsolute) && forall i | 0 <= i < |parts| :: '/' !in parts[i]
    ensures Normal(PushAll(kept, parts, isAbsolute), isAbsolute)
    decreases |parts|
  {
    if parts != [] {
      PushNormal(kept, parts[0], isAbsolute);
      PushAllNormal(Push(kept, parts[0], isAbsolute), parts[1..], isAbsolute);
    }
  }

  lemma {:induction false} ComponentsNormal(path: string)
    ensures Normal(Components(path), IsAbsolute(path))
  {
    SplitPiecesAreFree(path, '/');
    PushAllNormal([], Split(path, '/'), IsAbsolute(path));
  }

  lemma {:induction false} PushAllSplits(kept: seq<string>, a: seq<string>, b: seq<string>, isAbsolute: bool)
    ensures PushAll(kept, a + b, isAbsolute) == PushAll(PushAll(kept, a, isAbsolute), b, isAbsolute)
    decreases |a|
  {
    if a == [] {
      assert a + b == b;
    } else {
      assert (a + b)[1..] == a[1..] + b;
      PushAllSplits(Push(kept, a[0], isAbsolute), a[1..], b, isAbsolute);
    }
  }

  /** Normal components are kept as they are. */
  lemma {:induction false} PushAllKeeps(cs: seq<string>, n: nat, isAbsolute: bool)
    requires Normal(cs, isAbsolute) && n <= |cs|
    ensures PushAll(cs[..n], cs[n..], isAbsolute) == cs
    decreases |cs| - n
  {
    if n < |cs| {
      assert Push(cs[..n], cs[n], isAbsolute) == cs[..n] + [cs[n]] == cs[..n + 1];
      assert cs[n..][1..] == cs[n + 1..];
      PushAllKeeps(cs, n + 1, isAbsolute);
    } else {
      assert cs[..n] == cs;
    }
  }

  lemma {:induction false} JoinStart(cs: seq<string>)
    requires cs != [] && cs[0] != ""
    ensures Join(cs, "/") != "" && Join(cs, "/")[0] == cs[0][0]
  {
  }

  /** Printing normal components and reading them back changes nothing. */
  lemma {:induction false} PrintRead(cs: seq<string>, isAbsolute: bool)
    requires Normal(cs, isAbsolute)
    ensures Print(cs, isAbsolute) != "" && IsAbsolute(Print(cs, isAbsolute)) == isAbsolute
    ensures Components(Print(cs, isAbsolute)) == cs
  {
    var path := Print(cs, isAbsolute);
    if cs == [] {
      if isAbsolute {
        SplitConcat("", "", '/');
        assert "" + ['/'] + "" == "/";
        assert Split("", '/') == [""];
        assert PushAll([], ["", ""], true) == PushAll([], [""], true) == [];
      } else {
        UpToIs(".", '/', ".");
        assert Split(".", '/') == ["."];
        assert PushAll([], ["."], false) == [];
      }
    } else {
      var text := Join(cs, "/");
      JoinStart(cs);
      SplitJoin(cs, '/');
      PushAllKeeps(cs, 0, isAbsolute);
      assert cs[..0] == [] && cs[0..] == cs;
      if isAbsolute {
        SplitConcat("", text, '/');
        assert "" + ['/'] + text == path;
        assert Split("", '/') == [""];
        PushAllSplits([], [""], cs, true);
        assert PushAll([], [""], true) == [];
      } else {
        assert cs[0][0] in cs[0];
        assert "" + text == text;
      }
    }
  }

  /** Normalising yields a normal form, and once is enough. */
  lemma {:induction false} NormalizedIsNormal(path: string)
    ensures Normal(Components(Normalized(path)), IsAbsolute(path))
    ensures IsAbsolute(Normalized(path)) == IsAbsolute(path) && Normalized(path) != ""
    ensures Normalized(path) == Print(Components(Normalized(path)), IsAbsolute(path))
    ensures Normalized(Normalized(path)) == Normalized(path)
  {
    ComponentsNormal(path);
    PrintRead(Components(path), IsAbsolute(path));
  }

  /** Normalising the front of a path first makes no difference. */
  lemma {:induction false} NormalizeFront(a: string, b: string)
    requires a != ""
    ensures Normalized(a + "/" + b) == Normalized(Normalized(a) + "/" + b)
  {
    var n, abs := Normalized(a), IsAbsolute(a);
    NormalizedIsNormal(a);
    ComponentsNormal(a);
    PrintRead(Components(a), abs);
    SplitConcat(a, b, '/');
    SplitConcat(n, b, '/');
    PushAllSplits([], Split(a, '/'), Split(b, '/'), abs);
    PushAllSplits([], Split(n, '/'), Split(b, '/'), abs);
  }

  // ---------- what a path means ----------

  /** A directory is the list of names from the root; the root is its own parent. */
  function Enter(d: seq<string>, part: string): seq<string> {
    if part == "" || part == "." then d
    else if part == ".." then if d == [] then [] else d[..|d| - 1]
    else d + [part]
  }

  function Walk(d: seq<string>, parts: seq<string>): seq<string>
    decreases |parts|
  {
    if parts == [] then d else Walk(Enter(d, parts[0]), parts[1..])
  }

  function Target(path: string, d: seq<string>): seq<string> {
    Walk(if IsAbsolute(path) then [] else d, Split(path, '/'))
  }

  lemma {:induction false} WalkAppend(d: seq<string>, a: seq<string>, part: string)
    ensures Walk(d, a + [part]) == Enter(Walk(d, a), part)
    decreases |a|
  {
    if a == [] {
      assert a + [part] == [part];
    } else {
      assert (a + [part])[1..] == a[1..] + [part];
      WalkAppend(Enter(d, a[0]), a[1..], part);
    }
  }

  lemma {:induction false} WalkPush(d: seq<string>, kept: seq<string>, part: string, isAbsolute: bool)
    requires Normal(kept, isAbsolute) && (isAbsolute ==> d == [])
    ensures Walk(d, Push(kept, part, isAbsolute)) == Enter(Walk(d, kept), part)
  {
    WalkAppend(d, kept, part);
    if part == ".." && kept != [] {
      var n := |kept| - 1;
      assert kept == kept[..n] + [kept[n]];
      WalkAppend(d, kept[..n], kept[n]);
    }
  }

  lemma {:induction false} WalkPushAll(d: seq<string>, kept: seq<string>, parts: seq<string>, isAbsolute: bool)
    requires Normal(kept, isAbsolute) && (isAbsolute ==> d == []) && forall i | 0 <= i < |parts| :: '/' !in parts[i]
    ensures Walk(d, PushAll(kept, parts, isAbsolute)) == Walk(Walk(d, kept), parts)
    decreases |parts|
  {
    if parts != [] {
      PushNormal(kept, parts[0], isAbsolute);
      WalkPush(d, kept, parts[0], isAbsolute);
      WalkPushAll(d, Push(kept, parts[0], isAbsolute), parts[1..], isAbsolute);
    }
  }

  lemma {:induction false} ComponentsWalk(path: string, d: seq<string>)
    ensures Target(path, d) == Walk(if IsAbsolute(path) then [] else d, Components(path))
  {
    SplitPiecesAreFree(path, '/');
    WalkPushAll(if IsAbsolute(path) then [] else d, [], Split(path, '/'), IsAbsolute(path));
  }

  /** From every directory the normal form leads where the path leads. */
  lemma {:induction false} SameTarget(path: string, d: seq<string>)
    ensures Target(Normalized(path), d) == Target(path, d)
  {
    ComponentsWalk(path, d);
    ComponentsWalk(Normalized(path), d);
    ComponentsNormal(path);
    PrintRead(Components(path), IsAbsolute(path));
  }

  // ---------- the normal form is canonical ----------

  function Ups(cs: seq<string>): (u: nat)
    ensures u <= |cs|
    ensures forall i | 0 <= i < u :: cs[i] == ".."
    ensures u < |cs| ==> cs[u] != ".."
  {
    if cs != [] && cs[0] == ".." then 1 + Ups(cs[1..]) else 0
  }

  lemma {:induction false} NamesAfterUps(cs: seq<string>, isAbsolute: bool, i: nat)
    requires Normal(cs, isAbsolute) && Ups(cs) <= i < |cs|
    ensures cs[i] != ".."
    decreases i
  {
    if i > Ups(cs) { NamesAfterUps(cs, isAbsolute, i - 1); }
  }

  lemma {:induction false} WalkUps(d: seq<string>, cs: seq<string>)
    requires Ups(cs) <= |d|
    ensures Walk(d, cs) == Walk(d[..|d| - Ups(cs)], cs[Ups(cs)..])
    decreases |cs|
  {
    if cs == [] || cs[0] != ".." {
      assert d[..|d|] == d && cs[0..] == cs;
    } else {
      var e := Enter(d, "..");
      WalkUps(e, cs[1..]);
      assert e[..|e| - Ups(cs[1..])] == d[..|d| - Ups(cs)];
      assert cs[1..][Ups(cs[1..])..] == cs[Ups(cs)..];
    }
  }

  lemma {:induction false} WalkNames(d: seq<string>, names: seq<string>)
    requires forall i | 0 <= i < |names| :: Name(names[i]) && names[i] != ".."
    ensures Walk(d, names) == d + names
    decreases |names|
  {
    if names == [] {
      assert d + names == d;
    } else {
      WalkNames(d + [names[0]], names[1..]);
      assert d + [names[0]] + names[1..] == d + names;
    }
  }

  lemma {:induction false} WalkNormal(d: seq<string>, cs: seq<string>, isAbsolute: bool)
    requires Normal(cs, isAbsolute) && Ups(cs) <= |d|
    ensures Walk(d, cs) == d[..|d| - Ups(cs)] + cs[Ups(cs)..]
  {
    WalkUps(d, cs);
    forall i | Ups(cs) <= i < |cs| ensures cs[i] != ".." {
      NamesAfterUps(cs, isAbsolute, i);
    }
    WalkNames(d[..|d| - Ups(cs)], cs[Ups(cs)..]);
  }

  function Repeat(z: string, k: nat): (d: seq<string>)
    ensures |d| == k && forall i | 0 <= i < k :: d[i] == z
  {
    if k == 0 then [] else [z] + Repeat(z, k - 1)
  }

  /** A directory name longer than all given ones. */
  function Fresh(cs: seq<string>): (z: string)
    ensures z != "" && forall i | 0 <= i < |z| :: z[i] == 'x'
    ensures forall i | 0 <= i < |cs| :: |cs[i]| < |z|
  {
    if cs == [] then "x"
    else
      var z := Fresh(cs[1..]);
      if |cs[0]| < |z| then z else z + seq(|cs[0]| + 1 - |z|, i => 'x')
  }

  ghost predicate Directory(d: seq<string>) {
    forall i | 0 <= i < |d| :: Name(d[i]) && d[i] != ".."
  }

  ghost predicate SameEverywhere(p: string, q: string) {
    forall d | Directory(d) :: Target(p, d) == Target(q, d)
  }

  lemma {:induction false} FreshIsDirectory(cs: seq<string>, k: nat)
    ensures Directory(Repeat(Fresh(cs), k))
  {
    var z := Fresh(cs);
    assert z[0] == 'x';
    assert Name(z) && z != "..";
  }

  lemma {:induction false} FewerUpsDiffer(cs: seq<string>, ds: seq<string>, z: string, k: nat)
    requires Normal(cs, false) && Normal(ds, false) && Ups(cs) < Ups(ds) <= k
    requires forall i | 0 <= i < |ds| :: ds[i] != z
    ensures Walk(Repeat(z, k), cs) != Walk(Repeat(z, k), ds)
  {
    var d, u, v := Repeat(z, k), Ups(cs), Ups(ds);
    WalkNormal(d, cs, false);
    WalkNormal(d, ds, false);
    var left, right := d[..k - u] + cs[u..], d[..k - v] + ds[v..];
    assert k - v < |left| && left[k - v] == z;
    assert k - v < |right| ==> right[k - v] == ds[v];
  }

  /** Two relative normal forms that agree on a deep directory of fresh names are equal. */
  lemma {:induction false} DeepDirectoryTells(cs: seq<string>, ds: seq<string>, z: string, k: nat)
    requires Normal(cs, false) && Normal(ds, false) && Ups(cs) == Ups(ds) <= k
    requires Walk(Repeat(z, k), cs) == Walk(Repeat(z, k), ds)
    ensures cs == ds
  {
    var d, u := Repeat(z, k), Ups(cs);
    WalkNormal(d, cs, false);
    WalkNormal(d, ds, false);
    var left, right := d[..k - u] + cs[u..], d[..k - u] + ds[u..];
    assert cs[u..] == left[k - u..] == right[k - u..] == ds[u..];
    assert cs == cs[..u] + cs[u..] && ds == ds[..u] + ds[u..] && cs[..u] == ds[..u];
  }

  lemma {:induction false} RootIsNotRelative(cs: seq<string>, ds: seq<string>, z: string)
    requires Normal(ds, false)
    ensures Walk([], cs) != Walk(Repeat(z, Ups(ds)), ds) || Walk([], cs) != Walk(Repeat(z, Ups(ds) + 1), ds)
  {
    WalkNormal(Repeat(z, Ups(ds)), ds, false);
    WalkNormal(Repeat(z, Ups(ds) + 1), ds, false);
  }

  lemma {:induction false} RelativeTold(cs: seq<string>, ds: seq<string>)
    requires Normal(cs, false) && Normal(ds, false)
    requires forall d | Directory(d) :: Walk(d, cs) == Walk(d, ds)
    ensures cs == ds
  {
    var z, k := Fresh(cs + ds), Ups(cs) + Ups(ds);
    FreshIsDirectory(cs + ds, k);
    forall i | 0 <= i < |cs| ensures cs[i] != z {
      assert (cs + ds)[i] == cs[i];
    }
    forall i | 0 <= i < |ds| ensures ds[i] != z {
      assert (cs + ds)[|cs| + i] == ds[i];
    }
    if Ups(cs) < Ups(ds) {
      FewerUpsDiffer(cs, ds, z, k);
    } else if Ups(ds) < Ups(cs) {
      FewerUpsDiffer(ds, cs, z, k);
    } else {
      DeepDirectoryTells(cs, ds, z, k);
    }
  }

  lemma {:induction false} NoUpsAtRoot(cs: seq<string>)
    requires Normal(cs, true)
    ensures Walk([], cs) == cs
  {
    assert Ups(cs) == 0;
    WalkNormal([], cs, true);
  }

  /** A rooted and a relative path part ways at one of two directories. */
  lemma {:induction false} RootedDiffers(p: string, q: string)
    requires IsAbsolute(p) && !IsAbsolute(q)
    ensures !SameEverywhere(p, q)
  {
    var cs, ds := Components(p), Components(q);
    ComponentsNormal(q);
    var k := Ups(ds);
    FreshIsDirectory([], k);
    FreshIsDirectory([], k + 1);
    var d, e := Repeat(Fresh([]), k), Repeat(Fresh([]), k + 1);
    ComponentsWalk(p, d);
    ComponentsWalk(q, d);
    ComponentsWalk(p, e);
    ComponentsWalk(q, e);
    RootIsNotRelative(cs, ds, Fresh([]));
  }

  lemma {:induction false} SameComponents(p: string, q: string)
    requires SameEverywhere(p, q) && IsAbsolute(p) == IsAbsolute(q)
    ensures Components(p) == Components(q)
  {
    ComponentsNormal(p);
    ComponentsNormal(q);
    if IsAbsolute(p) {
      assert Directory([]);
      ComponentsWalk(p, []);
      ComponentsWalk(q, []);
      NoUpsAtRoot(Components(p));
      NoUpsAtRoot(Components(q));
    } else {
      forall d | Directory(d) ensures Walk(d, Components(p)) == Walk(d, Components(q)) {
        ComponentsWalk(p, d);
        ComponentsWalk(q, d);
        assert Target(p, d) == Target(q, d);
      }
      RelativeTold(Components(p), Components(q));
    }
  }

  /** Two paths are normalised alike exactly when they lead to the same place from every directory. */
  lemma {:induction false} Canonical(p: string, q: string)
    ensures Normalized(p) == Normalized(q) <==> SameEverywhere(p, q)
  {
    if Normalized(p) == Normalized(q) {
      forall d | Directory(d) ensures Target(p, d) == Target(q, d) {
        SameTarget(p, d);
        SameTarget(q, d);
      }
    }
    if SameEverywhere(p, q) {
      assert SameEverywhere(q, p);
      if IsAbsolute(p) && !IsAbsolute(q) {
        RootedDiffers(p, q);
      } else if IsAbsolute(q) && !IsAbsolute(p) {
        RootedDiffers(q, p);
      } else {
        SameComponents(p, q);
      }
    }
  }
}
