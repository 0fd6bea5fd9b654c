/**
 * src/Http/Resolver/RequestResolver.cpp, extractCgiScript: splitting a request path into script
 * and PATH_INFO, with the two later looks at the script's extension.
 */
module CgiPath {
  import opened StringOps

  /** cgi extension to interpreter, of one location. */
  type CgiConf = map<string, string>

  datatype Script = Script(scriptVirtual: string, pathInfo: string)

  /** std::string::rfind for one character. */
  function RFind(s: string, c: char): (r: Option<nat>)
    ensures r.Some? ==> r.value < |s| && s[r.value] == c && forall j | r.value < j < |s| :: s[j] != c
    ensures r.None? ==> c !in s
  {
    if s == "" then None else if s[|s| - 1] == c then Some(|s| - 1) else RFind(s[..|s| - 1], c)
  }

  /** The name has an extension that the location maps to an interpreter. */
  predicate HasInterpreter(name: string, conf: CgiConf) {
    RFind(name, '.').Some? && name[RFind(name, '.').value..] in conf
  }

  predicate StartsSlash(s: string) {
    s != "" && s[0] == '/'
  }

  predicate EndsSlash(s: string) {
    s != "" && s[|s| - 1] == '/'
  }

  function FirstScript(segments: seq<string>, conf: CgiConf): (r: Option<nat>)
    ensures r.Some? ==> r.value < |segments| && HasInterpreter(segments[r.value], conf)
                        && forall j | 0 <= j < r.value :: !HasInterpreter(segments[j], conf)
    ensures r.None? ==> forall j | 0 <= j < |segments| :: !HasInterpreter(segments[j], conf)
  {
    if segments == [] then None
    else if HasInterpreter(segments[0], conf) then Some(0)
    else
      var r := FirstScript(segments[1..], conf);
      if r.None? then None else Some(r.value + 1)
  }

  /** What follows the location, without one leading slash. */
  function Rest(requestPath: string, base: string): string
    requires base <= requestPath
  {
    var rest := requestPath[|base|..];
    if StartsSlash(rest) then rest[1..] else rest
  }

  /** Every segment behind a slash. */
  function Slashed(segments: seq<string>): string {
    if segments == [] then "" else "/" + segments[0] + Slashed(segments[1..])
  }

  function WithSlash(base: string): string {
    if base != "" && !EndsSlash(base) then base + "/" else base
  }

  function Pieces(base: string, segments: seq<string>, i: nat): Script
    requires i < |segments|
  {
    Script(WithSlash(base) + Join(segments[..i + 1], "/"), Slashed(segments[i + 1..]))
  }

  function Extract(requestPath: string, base: string, conf: CgiConf): Option<Script> {
    if !(base <= requestPath) || Rest(requestPath, base) == "" then None
    else
      var segments := Split(Rest(requestPath, base), '/');
      var i := FirstScript(segments, conf);
      if i.None? then None else Some(Pieces(base, segments, i.value))
  }

  lemma {:induction false} JoinGrows(segments: seq<string>, i: nat)
    requires i + 1 < |segments|
    ensures Join(segments[..i + 2], "/") == Join(segments[..i + 1], "/") + "/" + segments[i + 1]
    decreases i
  {
    if i == 0 {
      assert segments[..2][1..] == [segments[1]] && segments[..1] == [segments[0]];
    } else {
      JoinGrows(segments[1..], i - 1);
      assert segments[1..][..i + 1] == segments[..i + 2][1..] && segments[1..][..i] == segments[..i + 1][1..];
    }
  }

  lemma {:induction false} JoinNone(segments: seq<string>)
    ensures Join(segments[..0], "/") == ""
  {
  }

  lemma {:induction false} JoinOne(segments: seq<string>)
    requires segments != []
    ensures Join(segments[..1], "/") == segments[0] && Join(segments[..0], "/") == ""
  {
  }

  lemma {:induction false} SlashedNone()
    ensures Slashed([]) == ""
  {
  }

  lemma {:induction false} SlashedGrows(segments: seq<string>, x: string)
    ensures Slashed(segments + [x]) == Slashed(segments) + "/" + x
  {
    if segments == [] {
      assert segments + [x] == [x];
    } else {
      assert (segments + [x])[1..] == segments[1..] + [x];
      SlashedGrows(segments[1..], x);
    }
  }

  /** extractCgiScript with its three loops. */
  method ExtractCgiScript(requestPath: string, base: string, conf: CgiConf)
    returns (found: bool, scriptVirtual: string, pathInfo: string)
    ensures found <==> Extract(requestPath, base, conf).Some?
    ensures found ==> Extract(requestPath, base, conf) == Some(Script(scriptVirtual, pathInfo))
  {
    found, scriptVirtual, pathInfo := false, "", "";
    if !(base <= requestPath) {
      return;
    }
    var requestPathWithoutBase := requestPath[|base|..];
    if requestPathWithoutBase != "" && requestPathWithoutBase[0] == '/' {
      requestPathWithoutBase := requestPathWithoutBase[1..];
    }
    if requestPathWithoutBase == "" {
      return;
    }
    var splitRequest := SplitTokens(requestPathWithoutBase, '/');
    var scriptIndex, flag := FindScript(splitRequest, conf);
    if !flag {
      return;
    }
    scriptVirtual, pathInfo := BuildPieces(base, splitRequest, scriptIndex);
    found := true;
  }

  /** The two loops that put the pieces together. */
  method BuildPieces(base: string, splitRequest: seq<string>, scriptIndex: nat)
    returns (scriptVirtual: string, pathInfo: string)
    requires scriptIndex < |splitRequest|
    ensures Script(scriptVirtual, pathInfo) == Pieces(base, splitRequest, scriptIndex)
  {
    hide Join, Slashed;
    scriptVirtual := base;
    if scriptVirtual != "" && scriptVirtual[|scriptVirtual| - 1] != '/' {
      scriptVirtual := scriptVirtual + "/";
    }
    ghost var start := scriptVirtual;
    JoinNone(splitRequest);
    for i := 0 to scriptIndex + 1
      invariant scriptVirtual == start + Join(splitRequest[..i], "/")
    {
      if i > 0 {
        JoinGrows(splitRequest, i - 1);
        assert start + (Join(splitRequest[..i], "/") + "/" + splitRequest[i])
               == start + Join(splitRequest[..i], "/") + "/" + splitRequest[i];
        scriptVirtual := scriptVirtual + "/";
      } else {
        JoinOne(splitRequest);
      }
      scriptVirtual := scriptVirtual + splitRequest[i];
    }
    pathInfo := "";
    SlashedNone();
    assert splitRequest[scriptIndex + 1..scriptIndex + 1] == [];
    for i := scriptIndex + 1 to |splitRequest|
      invariant pathInfo == Slashed(splitRequest[scriptIndex + 1..i])
    {
      assert splitRequest[scriptIndex + 1..i + 1] == splitRequest[scriptIndex + 1..i] + [splitRequest[i]];
      SlashedGrows(splitRequest[scriptIndex + 1..i], splitRequest[i]);
      pathInfo := pathInfo + "/" + splitRequest[i];
    }
    assert splitRequest[scriptIndex + 1..|splitRequest|] == splitRequest[scriptIndex + 1..];
  }

  method FindScript(splitRequest: seq<string>, conf: CgiConf) returns (scriptIndex: nat, flag: bool)
    ensures flag <==> FirstScript(splitRequest, conf).Some?
    ensures flag ==> FirstScript(splitRequest, conf) == Some(scriptIndex)
  {
    scriptIndex, flag := 0, false;
    for i := 0 to |splitRequest|
      invariant forall j | 0 <= j < i :: !HasInterpreter(splitRequest[j], conf)
    {
      var dotPos := RFind(splitRequest[i], '.');
      if dotPos.Some? {
        var ext := splitRequest[i][dotPos.value..];
        if ext in conf {
          return i, true;
        }
      }
    }
  }

  // ---------- nothing is lost ----------

  lemma {:induction false} JoinRejoins(a: seq<string>, b: seq<string>)
    requires a != []
    ensures Join(a + b, "/") == Join(a, "/") + Slashed(b)
    decreases |a| + |b|
  {
    if |a| > 1 {
      assert (a + b)[1..] == a[1..] + b;
      JoinRejoins(a[1..], b);
    } else if b == [] {
      assert a + b == a;
    } else {
      assert (a + b)[1..] == b;
      JoinRejoins([b[0]], b[1..]);
      assert [b[0]] + b[1..] == b;
      assert a[1..] == [] && Join([b[0]], "/") == b[0];
    }
  }

  lemma {:induction false} PiecesMakeRest(base: string, rest: string, i: nat)
    requires i < |Split(rest, '/')|
    ensures var s := Pieces(base, Split(rest, '/'), i); s.scriptVirtual + s.pathInfo == WithSlash(base) + rest
  {
    hide Split, Join, Slashed;
    var segments := Split(rest, '/');
    JoinRejoins(segments[..i + 1], segments[i + 1..]);
    assert segments[..i + 1] + segments[i + 1..] == segments;
    JoinSplit(rest, '/');
    var a, b, c := WithSlash(base), Join(segments[..i + 1], "/"), Slashed(segments[i + 1..]);
    assert a + b + c == a + (b + c);
  }

  lemma {:induction false} OneSlashBetween(base: string, rest: string)
    ensures WithSlash(base) + (if StartsSlash(rest) then rest[1..] else rest) == base + rest
            <==> (if base == "" then !StartsSlash(rest) else EndsSlash(base) != StartsSlash(rest))
  {
    var left, right := WithSlash(base) + (if StartsSlash(rest) then rest[1..] else rest), base + rest;
    assert left == right ==> |left| == |right|;
    if StartsSlash(rest) {
      assert base + "/" + rest[1..] == base + rest;
    }
  }

  /** Script and PATH_INFO together are the request path exactly if location and rest share one slash. */
  lemma {:induction false} SplitLosesNothing(requestPath: string, base: string, conf: CgiConf)
    requires Extract(requestPath, base, conf).Some?
    ensures var s, rest := Extract(requestPath, base, conf).value, requestPath[|base|..];
            s.scriptVirtual + s.pathInfo == requestPath
            <==> (if base == "" then !StartsSlash(rest) else EndsSlash(base) != StartsSlash(rest))
  {
    hide Split, Pieces, HasInterpreter, FirstScript, WithSlash;
    var rest := requestPath[|base|..];
    PiecesMakeRest(base, Rest(requestPath, base), FirstScript(Split(Rest(requestPath, base), '/'), conf).value);
    OneSlashBetween(base, rest);
    assert requestPath == base + rest;
  }

  /** The split is at the first segment with a configured extension, and fails only without one. */
  lemma {:induction false} SplitsAtFirstScript(requestPath: string, base: string, conf: CgiConf)
    requires base <= requestPath
    ensures var segments := Split(Rest(requestPath, base), '/');
            Extract(requestPath, base, conf).Some? <==> exists i | 0 <= i < |segments| :: HasInterpreter(segments[i], conf)
  {
    var segments := Split(Rest(requestPath, base), '/');
    if Rest(requestPath, base) == "" {
      assert segments == [""];
    }
  }

  lemma {:induction false} LastDot(pre: string, name: string)
    requires RFind(name, '.').Some?
    ensures RFind(pre + name, '.') == Some(|pre| + RFind(name, '.').value)
    decreases |name|
  {
    var whole := pre + name;
    assert whole[|whole| - 1] == name[|name| - 1];
    if name[|name| - 1] != '.' {
      assert whole[..|whole| - 1] == pre + name[..|name| - 1];
      LastDot(pre, name[..|name| - 1]);
    }
  }

  lemma {:induction false} JoinEndsWithLast(segments: seq<string>) returns (pre: string)
    requires segments != []
    ensures Join(segments, "/") == pre + segments[|segments| - 1]
  {
    if |segments| == 1 {
      pre := "";
    } else {
      var p := JoinEndsWithLast(segments[1..]);
      pre := segments[0] + "/" + p;
      assert pre + segments[|segments| - 1] == segments[0] + "/" + (p + segments[|segments| - 1]);
    }
  }

  /** isCgiRequest. */
  method IsCgiRequest(requestPath: string, base: string, conf: CgiConf) returns (isCgi: bool)
    ensures isCgi <==> Extract(requestPath, base, conf).Some?
  {
    if conf == map[] {
      NoConfNoScript(requestPath, base, conf);
      return false;
    }
    var found, scriptVirtual, pathInfo := ExtractCgiScript(requestPath, base, conf);
    if !found {
      return false;
    }
    ExtensionSurvives(requestPath, base, conf);
    var dotPos := RFind(scriptVirtual, '.');
    if dotPos.None? {
      return false;
    }
    var ext := scriptVirtual[dotPos.value..];
    return ext in conf;
  }

  lemma {:induction false} NoConfNoScript(requestPath: string, base: string, conf: CgiConf)
    requires conf == map[]
    ensures Extract(requestPath, base, conf).None?
  {
  }

  lemma {:induction false} LongerKeepsInterpreter(pre: string, name: string, conf: CgiConf)
    requires HasInterpreter(name, conf)
    ensures HasInterpreter(pre + name, conf)
  {
    hide RFind;
    LastDot(pre, name);
    var d := RFind(name, '.').value;
    assert (pre + name)[|pre| + d..] == name[d..];
  }

  lemma {:induction false} PiecesKeepInterpreter(base: string, segments: seq<string>, i: nat, conf: CgiConf)
    requires i < |segments| && HasInterpreter(segments[i], conf)
    ensures HasInterpreter(Pieces(base, segments, i).scriptVirtual, conf)
  {
    hide HasInterpreter, WithSlash, Join;
    var pre := JoinEndsWithLast(segments[..i + 1]);
    assert WithSlash(base) + (pre + segments[i]) == WithSlash(base) + pre + segments[i];
    LongerKeepsInterpreter(WithSlash(base) + pre, segments[i], conf);
  }

  /** The extension found again from the whole script path is the configured one of its last segment. */
  lemma {:induction false} ExtensionSurvives(requestPath: string, base: string, conf: CgiConf)
    requires Extract(requestPath, base, conf).Some?
    ensures HasInterpreter(Extract(requestPath, base, conf).value.scriptVirtual, conf)
  {
    hide HasInterpreter, Pieces, Split;
    var segments := Split(Rest(requestPath, base), '/');
    PiecesKeepInterpreter(base, segments, FirstScript(segments, conf).value, conf);
  }

  /** The interpreter lookup of CgiManager::createWorker. */
  method Interpreter(scriptVirtual: string, conf: CgiConf) returns (path: string)
    ensures HasInterpreter(scriptVirtual, conf) ==> path == conf[scriptVirtual[RFind(scriptVirtual, '.').value..]]
    ensures !HasInterpreter(scriptVirtual, conf) ==> path == ""
  {
    path := "";
    var dotPos := RFind(scriptVirtual, '.');
    if dotPos.Some? {
      var ext := scriptVirtual[dotPos.value..];
      if ext in conf {
        path := conf[ext];
      }
    }
  }

  /** With location "/a" the request "/ab.p" becomes the script "/a/b.p". */
  lemma {:induction false} SlashInserted()
    ensures Extract("/ab.p", "/a", map[".p" := "i"]) == Some(Script("/a/b.p", ""))
  {
    var conf: CgiConf := map[".p" := "i"];
    UpToIs("b.p", '/', "b.p");
    assert Split("b.p", '/') == ["b.p"];
    LastDot("b", ".p");
    assert RFind(".p", '.') == Some(0);
    assert "b" + ".p" == "b.p" && "b.p"[1..] == ".p";
    assert FirstScript(["b.p"], conf) == Some(0);
    assert "/ab.p"[|"/a"|..] == "b.p";
    assert Rest("/ab.p", "/a") == "b.p";
    assert ["b.p"][..1] == ["b.p"] && ["b.p"][1..] == [];
    assert Join(["b.p"], "/") == "b.p" && Slashed([]) == "";
    assert "/a"[|"/a"| - 1] == 'a';
    assert WithSlash("/a") == "/a" + "/" == "/a/";
    assert "/a/" + "b.p" == "/a/b.p";
    assert "/a" <= "/ab.p";
    assert Pieces("/a", ["b.p"], 0) == Script("/a/b.p", "");
  }

  // ---------- paths written out ----------

  /** A name has an interpreter exactly if the text from its last dot on is configured. */
  lemma {:induction false} ExtensionIs(stem: string, ext: string, conf: CgiConf)
    requires '.' !in ext
    ensures HasInterpreter(stem + "." + ext, conf) <==> "." + ext in conf
    ensures !HasInterpreter(ext, conf)
  {
    hide RFind;
    var name := stem + "." + ext;
    var d := RFind(name, '.');
    assert name[|stem|] == '.';
    forall j | |stem| < j < |name| ensures name[j] != '.' {
      assert name[j] == ext[j - |stem| - 1];
    }
    assert d == Some(|stem|);
    assert name[|stem|..] == "." + ext;
    assert forall j | 0 <= j < |ext| :: ext[j] != '.';
  }

  lemma {:induction false} FirstIs(front: seq<string>, name: string, info: seq<string>, conf: CgiConf)
    requires HasInterpreter(name, conf) && forall f | f in front :: !HasInterpreter(f, conf)
    ensures FirstScript(front + [name] + info, conf) == Some(|front|)
    decreases |front|
  {
    hide HasInterpreter;
    var all := front + [name] + info;
    assert forall j | 0 <= j < |front| :: all[j] == front[j];
    assert all[|front|] == name;
  }

  /** A request path written behind a location that ends with a slash: the script goes up to the first segment with
      an interpreter, the rest is PATH_INFO. */
  lemma {:induction false} WrittenPathSplits(base: string, front: seq<string>, name: string, info: seq<string>, conf: CgiConf)
    requires base == "" || base[|base| - 1] == '/'
    requires forall f | f in front + [name] + info :: '/' !in f
    requires front != [] ==> front[0] != ""
    requires HasInterpreter(name, conf) && forall f | f in front :: !HasInterpreter(f, conf)
    ensures Extract(base + Join(front + [name] + info, "/"), base, conf)
         == Some(Script(base + Join(front + [name], "/"), Slashed(info)))
  {
    hide Join, HasInterpreter, Split, FirstScript, Slashed;
    var segments := front + [name] + info;
    var rest := Join(segments, "/");
    NamedIsNotEmpty(name, conf);
    FirstIs(front, name, info, conf);
    SplitJoin(segments, '/');
    JoinStarts(segments);
    assert segments[0] == if front == [] then name else front[0];
    assert segments[0] in segments;
    assert (base + rest)[|base|..] == rest;
    assert rest[0] == segments[0][0] && segments[0][0] in segments[0];
    assert segments[..|front| + 1] == front + [name] && segments[|front| + 1..] == info;
  }

  lemma {:induction false} NamedIsNotEmpty(name: string, conf: CgiConf)
    requires HasInterpreter(name, conf)
    ensures name != ""
  {
  }

  lemma {:induction false} JoinStarts(segments: seq<string>)
    requires segments != [] && segments[0] != ""
    ensures segments[0] <= Join(segments, "/")
  {
  }
}
