/** What the indentation of a file means, and when parseYaml builds it. */
module YamlTree {
  import opened StringOps
  import opened YamlText
  import opened Yaml

  ghost function IndentAt(lines: seq<string>, i: nat): nat {
    if i < |lines| then Indent(lines[i]) else 0
  }

  ghost function KindAt(lines: seq<string>, i: nat): Option<Kind> {
    if i < |lines| && Read(lines[i]).Entry? then Some(Read(lines[i]).kind) else None
  }

  /** The nearest earlier significant line indented less than `indent`, or the root. */
  ghost function Nearest(lines: seq<string>, i: nat, indent: nat): Parent
    requires i <= |lines|
  {
    if i == 0 then Root(0)
    else if !Skipped(lines[i - 1]) && Indent(lines[i - 1]) < indent then Line(i - 1)
    else Nearest(lines, i - 1, indent)
  }

  ghost function ParentOf(lines: seq<string>, i: nat): Parent
    requires i < |lines|
  {
    Nearest(lines, i, Indent(lines[i]))
  }

  /** The last significant line before line `i`. */
  ghost function Previous(lines: seq<string>, i: nat): Option<nat>
    requires i <= |lines|
  {
    if i == 0 then None else if !Skipped(lines[i - 1]) then Some(i - 1) else Previous(lines, i - 1)
  }

  /** Looking one raw line ahead told as much as looking at this line. */
  ghost predicate AgreesAt(lines: seq<string>, i: nat)
    requires i < |lines|
  {
    var p := Previous(lines, i);
    !Skipped(lines[i]) && p.Some? && p.value < |lines| ==>
      (Deeper(lines, p.value) <==> Indent(lines[p.value]) < Indent(lines[i]))
  }

  ghost predicate Agrees(lines: seq<string>) {
    forall i | 0 <= i < |lines| :: AgreesAt(lines, i)
  }

  // ---------- the lines still open ----------

  ghost function Shallower(lines: seq<string>, path: seq<nat>, indent: nat): (r: seq<nat>)
    ensures |r| <= |path| && r == path[..|r|]
    ensures r != [] ==> IndentAt(lines, Last(r)) < indent
  {
    if path != [] && IndentAt(lines, Last(path)) >= indent then Shallower(lines, Drop(path, 1), indent) else path
  }

  /** The line read last and its ancestors, outermost first. */
  ghost function Open(lines: seq<string>, n: nat): (path: seq<nat>)
    requires n <= |lines|
  {
    if n == 0 then []
    else if Skipped(lines[n - 1]) then Open(lines, n - 1)
    else Shallower(lines, Open(lines, n - 1), Indent(lines[n - 1])) + [n - 1]
  }

  ghost function Top(path: seq<nat>): Parent {
    if path == [] then Root(0) else Line(Last(path))
  }

  ghost predicate Climbing(lines: seq<string>, path: seq<nat>, n: nat) {
    && (forall j | 0 <= j < |path| :: path[j] < n)
    && (forall j, k | 0 <= j < k < |path| :: path[j] < path[k] && IndentAt(lines, path[j]) < IndentAt(lines, path[k]))
  }

  lemma {:induction false} OpenClimbs(lines: seq<string>, n: nat)
    requires n <= |lines|
    ensures Climbing(lines, Open(lines, n), n)
    ensures Previous(lines, n) == (if Open(lines, n) == [] then None else Some(Last(Open(lines, n))))
    ensures forall i | 0 <= i < n && !Skipped(lines[i]) :: Open(lines, n) != [] && i <= Last(Open(lines, n))
  {
    hide Skipped, Indent;
    if n > 0 { OpenClimbs(lines, n - 1); }
  }

  lemma {:induction false} ShallowerTwice(lines: seq<string>, path: seq<nat>, a: nat, b: nat)
    requires b <= a
    ensures Shallower(lines, Shallower(lines, path, a), b) == Shallower(lines, path, b)
  {
    hide IndentAt;
    if path != [] && IndentAt(lines, Last(path)) >= a {
      ShallowerTwice(lines, Drop(path, 1), a, b);
    }
  }

  /** The nearest shallower line is found on the open path. */
  lemma {:induction false} NearestIsOpen(lines: seq<string>, n: nat, indent: nat)
    requires n <= |lines|
    ensures Nearest(lines, n, indent) == Top(Shallower(lines, Open(lines, n), indent))
  {
    hide Skipped, Indent;
    if n > 0 {
      NearestIsOpen(lines, n - 1, indent);
      if !Skipped(lines[n - 1]) {
        var kept := Shallower(lines, Open(lines, n - 1), Indent(lines[n - 1]));
        assert Drop(kept + [n - 1], 1) == kept;
        if Indent(lines[n - 1]) >= indent {
          ShallowerTwice(lines, Open(lines, n - 1), Indent(lines[n - 1]), indent);
        }
      }
    }
  }

  // ---------- the stacks hold the open path ----------

  ghost function Ancestors(path: seq<nat>): (r: seq<Parent>)
    ensures |r| == |path| + 1
  {
    [Root(0)] + seq(|path|, j requires 0 <= j < |path| => Line(path[j]))
  }

  ghost function ChainOf(lines: seq<string>, path: seq<nat>): seq<Parent> {
    if path == [] then []
    else if Last(path) < |lines| && Deeper(lines, Last(path)) then Ancestors(path)
    else Drop(Ancestors(path), 1)
  }

  ghost predicate Levels(lines: seq<string>, path: seq<nat>, indents: seq<int>, kinds: seq<Option<Kind>>) {
    && |indents| == |kinds| == |path| + 1 && indents[0] == -1
    && (forall j | 0 <= j < |path| :: indents[j + 1] == IndentAt(lines, path[j]) && kinds[j + 1] == KindAt(lines, path[j]))
  }

  lemma {:induction false} PopsReach(lines: seq<string>, path: seq<nat>, indents: seq<int>, kinds: seq<Option<Kind>>, indent: nat)
    requires Levels(lines, path, indents, kinds)
    ensures var n := Pops(indents, indent);
            n <= |path| && Last(Drop(indents, n)) <= indent
            && forall j | |path| - n <= j < |path| :: IndentAt(lines, path[j]) > indent
  {
    hide IndentAt, KindAt;
    if |indents| > 1 && Last(indents) > indent {
      PopsReach(lines, Drop(path, 1), Drop(indents, 1), Drop(kinds, 1), indent);
      assert path[|path| - 1] == Last(path);
      forall j | |path| - Pops(indents, indent) <= j < |path| ensures IndentAt(lines, path[j]) > indent {
        assert j < |path| - 1 ==> Drop(path, 1)[j] == path[j];
      }
    }
  }

  lemma {:induction false} ShallowerIs(lines: seq<string>, path: seq<nat>, indent: nat, k: nat)
    requires k <= |path|
    requires k > 0 ==> IndentAt(lines, path[k - 1]) < indent
    requires forall j | k <= j < |path| :: IndentAt(lines, path[j]) >= indent
    ensures Shallower(lines, path, indent) == path[..k]
    decreases |path|
  {
    hide IndentAt;
    if k < |path| {
      ShallowerIs(lines, Drop(path, 1), indent, k);
    } else {
      assert path[..k] == path;
    }
  }

  lemma {:induction false} DropAncestors(path: seq<nat>, k: nat)
    requires k <= |path|
    ensures Ancestors(path)[..k + 1] == Ancestors(path[..k])
  {
  }

  ghost predicate Settled(lines: seq<string>, n: nat, s: State, kind: Kind, t: State)
    requires n < |lines|
  {
    var path := Open(lines, n);
    var kept := Shallower(lines, path, Indent(lines[n]));
    && Levels(lines, kept + [n], t.indents, t.kinds)
    && t.chain == (if path == [] then [] else Ancestors(kept))
    && t.roots == s.roots
    && t.nodes == (if |kept| + 1 < |path| then Terminated(s.nodes, Ancestors(path)[|path| - 1]) else s.nodes)
    && (|kept| < |path| ==> KindAt(lines, path[|kept|]) == Some(kind))
    && (|kept| + 1 < |path| <==> path != [] && Indent(lines[n]) < IndentAt(lines, Last(path)))
  }

  ghost predicate StacksTied(lines: seq<string>, n: nat, s: State)
    requires n <= |lines|
  {
    Levels(lines, Open(lines, n), s.indents, s.kinds) && s.chain == ChainOf(lines, Open(lines, n))
  }

  lemma {:induction false} LevelsReplaced(lines: seq<string>, path: seq<nat>, indents: seq<int>,
                                          kinds: seq<Option<Kind>>, k: nat, n: nat)
    requires Levels(lines, path, indents, kinds) && k < |path|
    requires indents[k + 1] == IndentAt(lines, n) && kinds[k + 1] == KindAt(lines, n)
    ensures Levels(lines, path[..k] + [n], indents[..k + 2], kinds[..k + 2])
    ensures KindAt(lines, path[k]) == KindAt(lines, n)
  {
    hide IndentAt, KindAt;
    var p := path[..k] + [n];
    assert IndentAt(lines, path[k]) == indents[k + 1];
    forall j | 0 <= j < |p|
      ensures indents[..k + 2][j + 1] == IndentAt(lines, p[j]) && kinds[..k + 2][j + 1] == KindAt(lines, p[j])
    {
      assert j < k ==> p[j] == path[j];
    }
  }

  lemma {:induction false} ShallowerBelow(lines: seq<string>, path: seq<nat>, n: nat, indent: nat, k: nat)
    requires Climbing(lines, path, n) && k < |path| && IndentAt(lines, path[k]) == indent
    ensures Shallower(lines, path, indent) == path[..k]
  {
    hide IndentAt;
    ShallowerIs(lines, path, indent, k);
  }

  lemma {:induction false} LevelsGrown(lines: seq<string>, path: seq<nat>, indents: seq<int>, kinds: seq<Option<Kind>>, n: nat)
    requires Levels(lines, path, indents, kinds)
    ensures Levels(lines, path + [n], indents + [IndentAt(lines, n)], kinds + [KindAt(lines, n)])
  {
    hide IndentAt, KindAt;
    var p := path + [n];
    forall j | 0 <= j < |p|
      ensures (indents + [IndentAt(lines, n)])[j + 1] == IndentAt(lines, p[j])
      ensures (kinds + [KindAt(lines, n)])[j + 1] == KindAt(lines, p[j])
    {
      assert j < |path| ==> p[j] == path[j];
    }
  }

  lemma {:induction false} SettleDeeper(lines: seq<string>, n: nat, s: State, kind: Kind)
    requires n < |lines| && !Skipped(lines[n]) && AgreesAt(lines, n) && KindAt(lines, n) == Some(kind)
    requires StacksTied(lines, n, s) && Last(s.indents) < Indent(lines[n])
    ensures Settled(lines, n, s, kind, Settle(s, n, Indent(lines[n]), kind).state)
  {
    hide Skipped, Indent, KindAt, Nearest, Deeper, Open, Ancestors;
    var path, indent := Open(lines, n), Indent(lines[n]);
    OpenClimbs(lines, n);
    assert path != [] ==> IndentAt(lines, path[|path| - 1]) == s.indents[|path|];
    ShallowerIs(lines, path, indent, |path|);
    assert path[..|path|] == path;
    LevelsGrown(lines, path, s.indents, s.kinds, n);
  }

  lemma {:induction false} SettleSame(lines: seq<string>, n: nat, s: State, kind: Kind)
    requires n < |lines| && !Skipped(lines[n]) && AgreesAt(lines, n) && KindAt(lines, n) == Some(kind)
    requires StacksTied(lines, n, s) && Last(s.indents) == Indent(lines[n])
    ensures var o := Settle(s, n, Indent(lines[n]), kind);
            !o.Undefined? && (o.Going? ==> Settled(lines, n, s, kind, o.state))
  {
    hide Skipped, Indent, KindAt, Nearest, Deeper, Open, Ancestors, Climbing, Shallower;
    var path, indent := Open(lines, n), Indent(lines[n]);
    OpenClimbs(lines, n);
    var k := |path| - 1;
    assert IndentAt(lines, path[k]) == s.indents[k + 1] == indent;
    ShallowerBelow(lines, path, n, indent, k);
    DropAncestors(path, k);
    if Settle(s, n, indent, kind).Going? {
      LevelsReplaced(lines, path, s.indents, s.kinds, k, n);
      assert s.indents[..k + 2] == s.indents && s.kinds[..k + 2] == s.kinds;
    }
  }

  lemma {:induction false} SettleShallower(lines: seq<string>, n: nat, s: State, kind: Kind)
    requires n < |lines| && !Skipped(lines[n]) && AgreesAt(lines, n) && KindAt(lines, n) == Some(kind)
    requires StacksTied(lines, n, s) && Last(s.indents) > Indent(lines[n])
    ensures var o := Settle(s, n, Indent(lines[n]), kind);
            !o.Undefined? && (o.Going? ==> Settled(lines, n, s, kind, o.state))
  {
    hide Skipped, Indent, KindAt, Nearest, Deeper, Open, Ancestors, Climbing, Shallower, Pops, Terminated;
    var path, indent := Open(lines, n), Indent(lines[n]);
    OpenClimbs(lines, n);
    var m, k := Pops(s.indents, indent), |path| - 1;
    PopsReach(lines, path, s.indents, s.kinds, indent);
    assert IndentAt(lines, path[k]) == s.indents[k + 1] > indent;
    assert s.chain == Drop(Ancestors(path), 1) && Last(s.chain) == Ancestors(path)[k];
    if Settle(s, n, indent, kind).Going? {
      assert Last(Drop(s.indents, m)) == s.indents[k - m + 1];
      assert m > 0;
      var j := k - m;
      assert IndentAt(lines, path[j]) == indent;
      ShallowerBelow(lines, path, n, indent, j);
      DropAncestors(path, j);
      LevelsReplaced(lines, path, s.indents, s.kinds, j, n);
      assert Drop(s.indents, m) == s.indents[..j + 2] && Drop(s.kinds, m) == s.kinds[..j + 2];
      assert Drop(s.chain, m) == Ancestors(path)[..j + 1];
    }
  }

  lemma {:induction false} SettleTied(lines: seq<string>, n: nat, s: State, kind: Kind)
    requires n < |lines| && !Skipped(lines[n]) && AgreesAt(lines, n) && KindAt(lines, n) == Some(kind)
    requires StacksTied(lines, n, s)
    ensures var o := Settle(s, n, Indent(lines[n]), kind);
            !o.Undefined? && (o.Going? ==> Settled(lines, n, s, kind, o.state))
  {
    hide Settled, Open, KindAt;
    if Last(s.indents) < Indent(lines[n]) {
      SettleDeeper(lines, n, s, kind);
    } else if Last(s.indents) == Indent(lines[n]) {
      SettleSame(lines, n, s, kind);
    } else {
      SettleShallower(lines, n, s, kind);
    }
  }

  // ---------- the nodes ----------

  ghost predicate NodeTied(lines: seq<string>, i: nat, node: Option<Node>)
    requires i < |lines|
  {
    var r := Read(lines[i]);
    if Skipped(lines[i]) then node.None?
    else
      && r.Entry? && node.Some?
      && node.value == Node(r.kind, r.key, r.value, ParentOf(lines, i), node.value.closed)
  }

  /** Every significant line has its node, under its nearest shallower line. */
  ghost predicate NodesTied(lines: seq<string>, nodes: seq<Option<Node>>) {
    |nodes| <= |lines| && forall i | 0 <= i < |nodes| :: NodeTied(lines, i, nodes[i])
  }

  ghost predicate KidKinds(lines: seq<string>, nodes: seq<Option<Node>>, path: seq<nat>) {
    forall j | 0 <= j < |path| :: FirstKind(nodes, Ancestors(path)[j]) == KindAt(lines, path[j])
  }

  ghost predicate StillOpen(nodes: seq<Option<Node>>, path: seq<nat>) {
    forall j | 0 <= j < |path| :: !IsClosed(nodes, Line(path[j]))
  }

  ghost predicate Tied(lines: seq<string>, n: nat, s: State)
    requires n <= |lines|
  {
    var path := Open(lines, n);
    && StacksTied(lines, n, s) && |s.nodes| == n && NodesTied(lines, s.nodes)
    && KidKinds(lines, s.nodes, path) && StillOpen(s.nodes, path)
    && s.roots == (if path == [] then 0 else 1)
  }

  ghost predicate SameButClosed(a: Option<Node>, b: Option<Node>) {
    a.Some? == b.Some? && (a.Some? ==> a.value.(closed := b.value.closed) == b.value)
  }

  lemma {:induction false} FirstKindIgnoresClosed(a: seq<Option<Node>>, b: seq<Option<Node>>, p: Parent)
    requires |a| == |b| && forall i | 0 <= i < |a| :: SameButClosed(a[i], b[i])
    ensures FirstKind(a, p) == FirstKind(b, p)
  {
    if a != [] {
      assert SameButClosed(Last(a), Last(b));
      FirstKindIgnoresClosed(Drop(a, 1), Drop(b, 1), p);
    }
  }

  lemma {:induction false} TerminatedSame(lines: seq<string>, nodes: seq<Option<Node>>, p: Parent)
    ensures |Terminated(nodes, p)| == |nodes|
    ensures forall i | 0 <= i < |nodes| :: SameButClosed(nodes[i], Terminated(nodes, p)[i])
    ensures NodesTied(lines, nodes) ==> NodesTied(lines, Terminated(nodes, p))
    ensures forall q :: FirstKind(Terminated(nodes, p), q) == FirstKind(nodes, q)
  {
    hide ParentOf, Skipped, Read;
    var t := Terminated(nodes, p);
    forall q ensures FirstKind(t, q) == FirstKind(nodes, q) {
      FirstKindIgnoresClosed(nodes, t, q);
    }
    if NodesTied(lines, nodes) {
      forall i | 0 <= i < |nodes| ensures NodeTied(lines, i, t[i]) {
        assert NodeTied(lines, i, nodes[i]) && SameButClosed(nodes[i], t[i]);
      }
    }
  }

  lemma {:induction false} FirstKindOfNone(nodes: seq<Option<Node>>, p: Parent)
    requires forall i | 0 <= i < |nodes| :: !IsChild(nodes[i], p)
    ensures FirstKind(nodes, p).None?
  {
    if nodes != [] { FirstKindOfNone(Drop(nodes, 1), p); }
  }

  lemma {:induction false} FirstKindGrown(nodes: seq<Option<Node>>, x: Option<Node>, p: Parent)
    ensures FirstKind(nodes + [x], p)
         == if FirstKind(nodes, p).Some? then FirstKind(nodes, p) else if IsChild(x, p) then Some(x.value.kind) else None
  {
    assert Drop(nodes + [x], 1) == nodes;
  }

  lemma {:induction false} NearestIsEarlier(lines: seq<string>, i: nat, indent: nat)
    requires i <= |lines|
    ensures Nearest(lines, i, indent).Line? ==> Nearest(lines, i, indent).index < i
    ensures Nearest(lines, i, indent).Root? ==> Nearest(lines, i, indent) == Root(0)
  {
    if i > 0 { NearestIsEarlier(lines, i - 1, indent); }
  }

  /** The line read last has no children yet. */
  lemma {:induction false} NoKidsYet(lines: seq<string>, nodes: seq<Option<Node>>)
    requires NodesTied(lines, nodes)
    ensures FirstKind(nodes, Top(Open(lines, |nodes|))).None?
  {
    hide Read, Indent;
    var n := |nodes|;
    OpenClimbs(lines, n);
    forall i | 0 <= i < n ensures !IsChild(nodes[i], Top(Open(lines, n))) {
      assert NodeTied(lines, i, nodes[i]);
      if !Skipped(lines[i]) {
        NearestIsEarlier(lines, i, Indent(lines[i]));
      }
    }
    FirstKindOfNone(nodes, Top(Open(lines, n)));
  }

  lemma {:induction false} AncestorsPrefix(path: seq<nat>, k: nat, n: nat)
    requires k <= |path|
    ensures Ancestors(path[..k]) == Ancestors(path)[..k + 1]
    ensures Last(Ancestors(path[..k])) == Top(path[..k]) == Ancestors(path)[k]
    ensures Ancestors(path[..k] + [n]) == Ancestors(path[..k]) + [Line(n)]
  {
  }

  lemma {:induction false} OpenParents(lines: seq<string>, n: nat)
    requires n <= |lines|
    ensures forall j | 0 <= j < |Open(lines, n)| ::
              Open(lines, n)[j] < n && !Skipped(lines[Open(lines, n)[j]])
              && ParentOf(lines, Open(lines, n)[j]) == Ancestors(Open(lines, n))[j]
  {
    hide Skipped, Indent, Ancestors, Nearest;
    if n > 0 {
      OpenParents(lines, n - 1);
      if !Skipped(lines[n - 1]) {
        var before, indent := Open(lines, n - 1), Indent(lines[n - 1]);
        var kept := Shallower(lines, before, indent);
        NearestIsOpen(lines, n - 1, indent);
        AncestorsPrefix(before, |kept|, n - 1);
        var path := kept + [n - 1];
        forall j | 0 <= j < |path|
          ensures path[j] < n && !Skipped(lines[path[j]]) && ParentOf(lines, path[j]) == Ancestors(path)[j]
        {
          assert j < |kept| ==> path[j] == before[j];
        }
      }
    }
  }

  /** Closing the children of a closed level leaves the other open lines open. */
  lemma {:induction false} TerminatedLeavesOpen(lines: seq<string>, n: nat, nodes: seq<Option<Node>>, k: nat)
    requires n <= |lines| && |nodes| == n && NodesTied(lines, nodes)
    requires k + 1 < |Open(lines, n)| && StillOpen(nodes, Open(lines, n))
    ensures var path := Open(lines, n);
            StillOpen(Terminated(nodes, Ancestors(path)[|path| - 1]), path[..k])
  {
    hide Read, Indent, Skipped, Open, Nearest;
    var path := Open(lines, n);
    var p := Ancestors(path)[|path| - 1];
    OpenClimbs(lines, n);
    OpenParents(lines, n);
    TerminatedSame(lines, nodes, p);
    forall j | 0 <= j < k ensures !IsClosed(Terminated(nodes, p), Line(path[..k][j])) {
      assert path[..k][j] == path[j] && path[j] < n;
      assert !IsClosed(nodes, Line(path[j]));
      assert NodeTied(lines, path[j], nodes[path[j]]);
      assert Ancestors(path)[j] != p;
    }
  }

  // ---------- one more line ----------

  ghost predicate CannotPushHere(o: Outcome) {
    o.Rejected? && o.reason == CannotPush
  }

  /** The nodes after settling, seen from the parent the line is about to get. */
  ghost predicate Ready(lines: seq<string>, n: nat, t: State, kind: Kind)
    requires n < |lines|
  {
    var kept := Shallower(lines, Open(lines, n), Indent(lines[n]));
    && |t.nodes| == n && NodesTied(lines, t.nodes)
    && KidKinds(lines, t.nodes, kept) && StillOpen(t.nodes, kept)
    && (FirstKind(t.nodes, Top(kept)).Some? ==> FirstKind(t.nodes, Top(kept)) == Some(kind))
  }

  lemma {:induction false} PrefixKinds(lines: seq<string>, nodes: seq<Option<Node>>, path: seq<nat>, k: nat)
    requires KidKinds(lines, nodes, path) && k <= |path|
    ensures KidKinds(lines, nodes, path[..k])
    ensures k < |path| ==> FirstKind(nodes, Top(path[..k])) == KindAt(lines, path[k])
    ensures StillOpen(nodes, path) ==> StillOpen(nodes, path[..k])
  {
    hide KindAt, FirstKind, IsClosed;
    AncestorsPrefix(path, k, 0);
    forall j | 0 <= j < k ensures FirstKind(nodes, Ancestors(path[..k])[j]) == KindAt(lines, path[..k][j]) {
      assert path[..k][j] == path[j] && Ancestors(path[..k])[j] == Ancestors(path)[j];
    }
    if StillOpen(nodes, path) {
      forall j | 0 <= j < k ensures !IsClosed(nodes, Line(path[..k][j])) {
        assert path[..k][j] == path[j];
      }
    }
  }

  lemma {:induction false} TerminatedKinds(lines: seq<string>, nodes: seq<Option<Node>>, path: seq<nat>, p: Parent)
    requires KidKinds(lines, nodes, path)
    ensures KidKinds(lines, Terminated(nodes, p), path)
  {
    hide KindAt, FirstKind, Terminated;
    TerminatedSame(lines, nodes, p);
  }

  lemma {:induction false} ReadyAfterSettling(lines: seq<string>, n: nat, s: State, kind: Kind, t: State)
    requires n < |lines| && Tied(lines, n, s) && Settled(lines, n, s, kind, t)
    ensures Ready(lines, n, t, kind)
  {
    hide Read, Indent, Skipped, Open, Nearest, Terminated, Levels, ChainOf, KidKinds, StillOpen, NodesTied, FirstKind, Ancestors;
    var path := Open(lines, n);
    var kept := Shallower(lines, path, Indent(lines[n]));
    var k := |kept|;
    assert kept == path[..k];
    if k + 1 < |path| {
      var p := Ancestors(path)[|path| - 1];
      TerminatedSame(lines, s.nodes, p);
      TerminatedLeavesOpen(lines, n, s.nodes, k);
      TerminatedKinds(lines, s.nodes, path, p);
    }
    PrefixKinds(lines, t.nodes, path, k);
    if k == |path| {
      assert kept == path;
      NoKidsYet(lines, s.nodes);
    }
  }

  lemma {:induction false} OpenHaveKinds(lines: seq<string>, nodes: seq<Option<Node>>, k: nat)
    requires NodesTied(lines, nodes) && k <= |Open(lines, |nodes|)|
    ensures forall j | 0 <= j < k :: KindAt(lines, Open(lines, |nodes|)[j]).Some?
  {
    hide Indent, Skipped, Open, Nearest;
    var path := Open(lines, |nodes|);
    OpenParents(lines, |nodes|);
    forall j | 0 <= j < k ensures KindAt(lines, path[j]).Some? {
      assert NodeTied(lines, path[j], nodes[path[j]]);
    }
  }

  lemma {:induction false} AttachedTied(lines: seq<string>, nodes: seq<Option<Node>>, r: Reading)
    requires |nodes| < |lines| && NodesTied(lines, nodes)
    requires !Skipped(lines[|nodes|]) && Read(lines[|nodes|]) == r && r.Entry?
    ensures NodesTied(lines, nodes + [Some(Node(r.kind, r.key, r.value, ParentOf(lines, |nodes|), false))])
  {
    hide Read, Indent, Skipped, Nearest;
    var all := nodes + [Some(Node(r.kind, r.key, r.value, ParentOf(lines, |nodes|), false))];
    forall i | 0 <= i < |all| ensures NodeTied(lines, i, all[i]) {
      if i < |nodes| {
        assert NodeTied(lines, i, nodes[i]);
      }
    }
  }

  lemma {:induction false} AttachedKidKinds(lines: seq<string>, nodes: seq<Option<Node>>, x: Option<Node>, kept: seq<nat>, n: nat)
    requires KidKinds(lines, nodes, kept) && forall j | 0 <= j < |kept| :: KindAt(lines, kept[j]).Some?
    requires x.Some? && x.value.parent == Top(kept) && KindAt(lines, n) == Some(x.value.kind)
    requires FirstKind(nodes, Top(kept)).Some? ==> FirstKind(nodes, Top(kept)) == Some(x.value.kind)
    ensures KidKinds(lines, nodes + [x], kept + [n])
  {
    hide KindAt, FirstKind, Ancestors, Top;
    var path := kept + [n];
    AncestorsPrefix(kept, |kept|, n);
    assert kept[..|kept|] == kept;
    forall j | 0 <= j < |path| ensures FirstKind(nodes + [x], Ancestors(path)[j]) == KindAt(lines, path[j]) {
      FirstKindGrown(nodes, x, Ancestors(path)[j]);
      assert j < |kept| ==> path[j] == kept[j] && Ancestors(path)[j] == Ancestors(kept)[j];
    }
  }

  lemma {:induction false} AttachedOpen(nodes: seq<Option<Node>>, x: Node, kept: seq<nat>)
    requires StillOpen(nodes, kept) && !x.closed && forall j | 0 <= j < |kept| :: kept[j] < |nodes|
    ensures StillOpen(nodes + [Some(x)], kept + [|nodes|]) && !IsClosed(nodes, Top(kept))
  {
    var all, path := nodes + [Some(x)], kept + [|nodes|];
    forall j | 0 <= j < |path| ensures !IsClosed(all, Line(path[j])) {
      if j < |kept| {
        assert !IsClosed(nodes, Line(kept[j])) && all[kept[j]] == nodes[kept[j]];
      }
    }
    if kept != [] {
      assert !IsClosed(nodes, Line(kept[|kept| - 1]));
    }
  }

  lemma {:induction false} NodeAttached(lines: seq<string>, n: nat, t: State, r: Reading)
    requires n < |lines| && !Skipped(lines[n]) && Read(lines[n]) == r && r.Entry?
    requires Ready(lines, n, t, r.kind)
    ensures var kept := Shallower(lines, Open(lines, n), Indent(lines[n]));
            var nodes := t.nodes + [Some(Node(r.kind, r.key, r.value, Top(kept), false))];
            NodesTied(lines, nodes) && KidKinds(lines, nodes, kept + [n]) && StillOpen(nodes, kept + [n])
            && !IsClosed(t.nodes, Top(kept))
  {
    hide Read, Indent, Skipped, Open, Nearest, NodesTied, KidKinds, StillOpen, FirstKind;
    var path, kept := Open(lines, n), Shallower(lines, Open(lines, n), Indent(lines[n]));
    var x := Node(r.kind, r.key, r.value, Top(kept), false);
    OpenClimbs(lines, n);
    NearestIsOpen(lines, n, Indent(lines[n]));
    OpenHaveKinds(lines, t.nodes, |kept|);
    assert forall j | 0 <= j < |kept| :: kept[j] == path[j];
    AttachedTied(lines, t.nodes, r);
    AttachedKidKinds(lines, t.nodes, Some(x), kept, n);
    AttachedOpen(t.nodes, x, kept);
  }

  /** With an agreeing look ahead, a line that is not rejected keeps everything in place. */
  lemma {:induction false} SettleAndAttach(lines: seq<string>, n: nat, s: State, r: Reading)
    requires n < |lines| && !Skipped(lines[n]) && Read(lines[n]) == r && r.Entry?
    requires Tied(lines, n, s) && AgreesAt(lines, n)
    ensures var settled := Settle(s, n, Indent(lines[n]), r.kind);
            !settled.Undefined? && !CannotPushHere(settled) &&
            (settled.Going? ==>
               Settled(lines, n, s, r.kind, settled.state) && !CannotPushHere(Attach(settled.state, n, r)))
  {
    hide Read, Indent, Skipped, Open, Nearest, NodesTied, KidKinds, StillOpen, FirstKind, IsClosed;
    SettleTied(lines, n, s, r.kind);
    var settled := Settle(s, n, Indent(lines[n]), r.kind);
    if settled.Going? {
      var t := settled.state;
      ReadyAfterSettling(lines, n, s, r.kind, t);
      NodeAttached(lines, n, t, r);
      AttachTop(lines, n, t);
    }
  }

  lemma {:induction false} AttachTop(lines: seq<string>, n: nat, t: State)
    requires n < |lines|
    requires var path := Open(lines, n);
             t.chain == (if path == [] then [] else Ancestors(Shallower(lines, path, Indent(lines[n]))))
    requires t.roots == (if Open(lines, n) == [] then 0 else 1)
    ensures var kept := Shallower(lines, Open(lines, n), Indent(lines[n]));
            var chain := if t.chain == [] then [Root(t.roots)] else t.chain;
            chain == Ancestors(kept) && Last(chain) == Top(kept)
  {
    hide Open;
    var kept := Shallower(lines, Open(lines, n), Indent(lines[n]));
    AncestorsPrefix(kept, |kept|, n);
    assert kept[..|kept|] == kept;
  }

  lemma {:induction false} AttachTied(lines: seq<string>, n: nat, s: State, r: Reading)
    requires n < |lines| && !Skipped(lines[n]) && Read(lines[n]) == r && r.Entry?
    requires Tied(lines, n, s) && AgreesAt(lines, n)
    ensures Step(s, lines, n).Going? ==> Tied(lines, n + 1, Step(s, lines, n).state)
  {
    hide Read, Indent, Skipped, Nearest, NodesTied, KidKinds, StillOpen, FirstKind, IsClosed, Settle, Deeper, HasKey,
         Shallower, Ancestors;
    SettleTied(lines, n, s, r.kind);
    if Step(s, lines, n).Going? {
      var t := Settle(s, n, Indent(lines[n]), r.kind).state;
      ReadyAfterSettling(lines, n, s, r.kind, t);
      NodeAttached(lines, n, t, r);
      AttachTop(lines, n, t);
      var kept := Shallower(lines, Open(lines, n), Indent(lines[n]));
      AncestorsPrefix(kept, |kept|, n);
      assert kept[..|kept|] == kept;
      assert Drop(Ancestors(kept + [n]), 1) == Ancestors(kept);
    }
  }

  lemma {:induction false} SkipTied(lines: seq<string>, n: nat, s: State)
    requires n < |lines| && Skipped(lines[n]) && Tied(lines, n, s)
    ensures Tied(lines, n + 1, s.(nodes := s.nodes + [None]))
  {
    hide Read, Indent, Nearest, Levels, ChainOf;
    var path, all := Open(lines, n), s.nodes + [None];
    OpenClimbs(lines, n);
    OpenHaveKinds(lines, s.nodes, |path|);
    forall i | 0 <= i < |all| ensures NodeTied(lines, i, all[i]) {
      if i < n {
        assert NodeTied(lines, i, s.nodes[i]);
      }
    }
    forall j | 0 <= j < |path| ensures FirstKind(all, Ancestors(path)[j]) == KindAt(lines, path[j]) {
      FirstKindGrown(s.nodes, None, Ancestors(path)[j]);
    }
    forall j | 0 <= j < |path| ensures !IsClosed(all, Line(path[j])) {
      assert !IsClosed(s.nodes, Line(path[j]));
    }
  }

  lemma {:induction false} StepTied(lines: seq<string>, n: nat, s: State)
    requires n < |lines| && Tied(lines, n, s) && AgreesAt(lines, n)
    ensures var o := Step(s, lines, n);
            !o.Undefined? && !CannotPushHere(o) && (o.Going? ==> Tied(lines, n + 1, o.state))
  {
    hide Open, Nearest, NodesTied, KidKinds, StillOpen, FirstKind, Settle, Attach, Indent, Settled;
    if Skipped(lines[n]) {
      SkipTied(lines, n, s);
    } else {
      var r := Read(lines[n]);
      if r.Entry? {
        SettleAndAttach(lines, n, s, r);
        AttachTied(lines, n, s, r);
        var settled := Settle(s, n, Indent(lines[n]), r.kind);
        if settled.Going? {
          AttachOutcome(settled.state, lines, n, r);
        }
      }
    }
  }

  lemma {:induction false} AttachOutcome(s: State, lines: seq<string>, n: nat, r: Reading)
    requires n < |lines| && r.Entry?
    ensures !Attach(s, n, r).Undefined?
  {
  }

  /** While looking ahead agrees, no stack underflows, no push is refused and every parent is right. */
  lemma {:induction false} RunTied(lines: seq<string>, n: nat)
    requires n <= |lines| && forall i | 0 <= i < n :: AgreesAt(lines, i)
    ensures var o := Run(lines, n);
            !o.Undefined? && !CannotPushHere(o) && (o.Going? ==> Tied(lines, n, o.state))
  {
    hide AgreesAt, Step, Tied;
    if n == 0 {
      StartTied(lines);
    } else {
      RunTied(lines, n - 1);
      if Run(lines, n - 1).Going? {
        StepTied(lines, n - 1, Run(lines, n - 1).state);
      }
    }
  }

  lemma {:induction false} StartTied(lines: seq<string>)
    ensures Tied(lines, 0, Start())
  {
  }

  // ---------- when looking ahead misleads ----------

  lemma {:induction false} MisledDeeper(lines: seq<string>, n: nat, s: State, kind: Kind)
    requires n < |lines| && !Skipped(lines[n]) && StacksTied(lines, n, s)
    requires var path := Open(lines, n);
             path != [] && Last(path) < |lines| && Deeper(lines, Last(path)) && Last(s.indents) >= Indent(lines[n])
    ensures var o := Settle(s, n, Indent(lines[n]), kind);
            o.Going? ==> o.state.chain != [] && Last(o.state.chain) != ParentOf(lines, n)
  {
    hide Skipped, Indent, KindAt, Nearest, Deeper, Open, Ancestors, Climbing, Shallower, Terminated;
    var path, indent := Open(lines, n), Indent(lines[n]);
    OpenClimbs(lines, n);
    NearestIsOpen(lines, n, indent);
    var m, o := Pops(s.indents, indent), Settle(s, n, indent, kind);
    PopsReach(lines, path, s.indents, s.kinds, indent);
    if o.Going? {
      var j := |path| - 1 - m;
      assert Last(Drop(s.indents, m)) == s.indents[j + 1] == indent;
      assert IndentAt(lines, path[j]) == indent;
      ShallowerBelow(lines, path, n, indent, j);
      AncestorsPrefix(path, j + 1, n);
      assert Last(path[..j + 1]) == path[j];
      assert s.chain == Ancestors(path);
      assert o.state.chain == Drop(s.chain, m);
      assert Drop(Ancestors(path), m) == Ancestors(path)[..j + 2];
      assert Last(o.state.chain) == Line(path[j]);
      NotItsOwnTop(lines, path, n, j);
    }
  }

  lemma {:induction false} NotItsOwnTop(lines: seq<string>, path: seq<nat>, n: nat, j: nat)
    requires Climbing(lines, path, n) && j < |path|
    ensures Top(path[..j]) != Line(path[j])
  {
  }

  lemma {:induction false} MisledShallower(lines: seq<string>, n: nat, s: State, kind: Kind)
    requires n < |lines| && !Skipped(lines[n]) && StacksTied(lines, n, s)
    requires var path := Open(lines, n);
             path != [] && Last(path) < |lines| && !Deeper(lines, Last(path)) && Last(s.indents) < Indent(lines[n])
    ensures var o := Settle(s, n, Indent(lines[n]), kind);
            o.Going? ==> o.state.chain != [] && Last(o.state.chain) != ParentOf(lines, n)
  {
    hide Skipped, Indent, KindAt, Nearest, Deeper, Open, Ancestors, Climbing, Terminated;
    var path, indent := Open(lines, n), Indent(lines[n]);
    OpenClimbs(lines, n);
    NearestIsOpen(lines, n, indent);
    assert IndentAt(lines, path[|path| - 1]) == s.indents[|path|];
    ShallowerIs(lines, path, indent, |path|);
    assert path[..|path|] == path;
    AncestorsPrefix(path, |path| - 1, n);
    NotItsOwnTop(lines, path, n, |path| - 1);
    assert Last(Drop(Ancestors(path), 1)) == Ancestors(path)[|path| - 1];
  }

  /** The line read after a misleading look ahead gets the wrong parent, if it is read at all. */
  lemma {:induction false} MisledStep(lines: seq<string>, n: nat, s: State)
    requires n < |lines| && Tied(lines, n, s) && !AgreesAt(lines, n)
    ensures var o := Step(s, lines, n);
            o.Going? ==> |o.state.nodes| == n + 1 && !NodeTied(lines, n, o.state.nodes[n])
  {
    hide Open, Nearest, NodesTied, KidKinds, StillOpen, FirstKind, Settle, Deeper, Indent;
    var o, r := Step(s, lines, n), Read(lines[n]);
    OpenClimbs(lines, n);
    LastLevel(lines, n, s);
    if o.Going? {
      if Deeper(lines, Last(Open(lines, n))) {
        MisledDeeper(lines, n, s, r.kind);
      } else {
        MisledShallower(lines, n, s, r.kind);
      }
      var t := Settle(s, n, Indent(lines[n]), r.kind).state;
      SettleKeepsCount(s, n, Indent(lines[n]), r.kind);
      assert o.state.nodes[n].value.parent == Last(t.chain);
    }
  }

  lemma {:induction false} LastLevel(lines: seq<string>, n: nat, s: State)
    requires n <= |lines| && StacksTied(lines, n, s) && Open(lines, n) != []
    ensures Last(s.indents) == IndentAt(lines, Last(Open(lines, n))) && Last(Open(lines, n)) < n
  {
    hide Open, IndentAt, KindAt;
    OpenClimbs(lines, n);
    var path := Open(lines, n);
    assert s.indents[|path| - 1 + 1] == IndentAt(lines, path[|path| - 1]);
  }

  lemma {:induction false} SettleKeepsCount(s: State, line: nat, indent: nat, kind: Kind)
    requires Stacked(s)
    ensures var o := Settle(s, line, indent, kind);
            o.Going? ==> |o.state.nodes| == |s.nodes|
                         && forall i | 0 <= i < |s.nodes| :: SameButClosed(s.nodes[i], o.state.nodes[i])
  {
    if s.chain != [] {
      hide Terminated, IsClosed;
      TerminatedSame([], s.nodes, Last(s.chain));
    }
  }

  lemma {:induction false} StepKeepsNodes(s: State, lines: seq<string>, n: nat)
    requires n < |lines| && Stacked(s)
    ensures var o := Step(s, lines, n);
            o.Going? ==> |o.state.nodes| == |s.nodes| + 1
                         && forall i | 0 <= i < |s.nodes| :: SameButClosed(s.nodes[i], o.state.nodes[i])
  {
    hide Settle, Read, Deeper, Indent, FirstKind, HasKey, IsClosed;
    var r := Read(lines[n]);
    if !Skipped(lines[n]) && r.Entry? {
      SettleKeepsCount(s, n, Indent(lines[n]), r.kind);
    }
  }

  /** A wrong parent stays wrong. */
  lemma {:induction false} WrongStaysWrong(lines: seq<string>, i: nat, n: nat)
    requires i < n <= |lines| && Run(lines, n).Going?
    requires Run(lines, i + 1).Going? ==>
               |Run(lines, i + 1).state.nodes| == i + 1 && !NodeTied(lines, i, Run(lines, i + 1).state.nodes[i])
    ensures |Run(lines, n).state.nodes| == n && !NodeTied(lines, i, Run(lines, n).state.nodes[i])
    decreases n
  {
    hide Step, ParentOf, Skipped, Read;
    if n == i + 1 {
    } else {
      WrongStaysWrong(lines, i, n - 1);
      StepKeepsNodes(Run(lines, n - 1).state, lines, n - 1);
      assert SameButClosed(Run(lines, n - 1).state.nodes[i], Run(lines, n).state.nodes[i]);
    }
  }

  lemma {:induction false} FirstMisled(lines: seq<string>, n: nat) returns (i: nat)
    requires n <= |lines| && exists k | 0 <= k < n :: !AgreesAt(lines, k)
    ensures i < n && !AgreesAt(lines, i) && forall k | 0 <= k < i :: AgreesAt(lines, k)
  {
    hide AgreesAt;
    if exists k | 0 <= k < n - 1 :: !AgreesAt(lines, k) {
      i := FirstMisled(lines, n - 1);
    } else {
      i := n - 1;
    }
  }

  /** Every line's node under its nearest shallower line, and nothing lost with an abandoned root. */
  ghost predicate Faithful(lines: seq<string>, s: State) {
    |s.nodes| == |lines| && NodesTied(lines, s.nodes) && s.roots <= 1
  }

  /**
   * The loop of parseYaml, when it accepts a file, builds the tree the indentation means
   * exactly if looking one raw line ahead was never misled by a blank or comment line.
   */
  lemma {:induction false} ContainmentExactly(lines: seq<string>)
    ensures var o := Run(lines, |lines|); o.Going? ==> (Faithful(lines, o.state) <==> Agrees(lines))
    ensures Agrees(lines) ==> !Run(lines, |lines|).Undefined? && !CannotPushHere(Run(lines, |lines|))
  {
    hide AgreesAt, Step;
    var n := |lines|;
    if Agrees(lines) {
      RunTied(lines, n);
    } else if Run(lines, n).Going? {
      var i := FirstMisled(lines, n);
      RunTied(lines, i);
      if Run(lines, i).Going? {
        MisledStep(lines, i, Run(lines, i).state);
      }
      WrongStaysWrong(lines, i, n);
    }
  }

  /** Without blank and comment lines looking ahead always agrees. */
  lemma {:induction false} AllSignificantAgree(lines: seq<string>)
    requires forall i | 0 <= i < |lines| :: !Skipped(lines[i])
    ensures Agrees(lines)
  {
    hide Skipped;
  }
}
