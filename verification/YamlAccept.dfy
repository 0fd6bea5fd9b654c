/** Which of the trees built by parseYaml survive its final check. */
module YamlAccept {
  import opened StringOps
  import opened YamlText
  import opened Yaml
  import opened YamlTree

  ghost predicate Significant(lines: seq<string>, i: nat) {
    i < |lines| && !Skipped(lines[i])
  }

  ghost predicate Under(lines: seq<string>, c: nat, p: Parent) {
    Significant(lines, c) && ParentOf(lines, c) == p
  }

  ghost predicate Leaf(lines: seq<string>, i: nat) {
    forall c | 0 <= c < |lines| :: !Under(lines, c, Line(i))
  }

  ghost function ValueAt(lines: seq<string>, i: nat): string {
    if i < |lines| && Read(lines[i]).Entry? then Read(lines[i]).value else ""
  }

  /** Line `m` steps back out of the level of `x`, from a sibling of `x` or `x` itself. */
  ghost predicate Closes(lines: seq<string>, m: nat, x: nat) {
    x < m && Significant(lines, m) && Significant(lines, x) &&
    var y := Previous(lines, m);
    y.Some? && y.value < |lines| && Indent(lines[m]) < Indent(lines[y.value])
    && ParentOf(lines, y.value) == ParentOf(lines, x)
  }

  ghost predicate ClosedBefore(lines: seq<string>, n: nat, x: nat) {
    n > 0 && (ClosedBefore(lines, n - 1, x) || Closes(lines, n - 1, x))
  }

  lemma {:induction false} NotYetClosed(lines: seq<string>, n: nat, x: nat)
    requires n <= x + 1
    ensures !ClosedBefore(lines, n, x)
  {
    hide Closes;
    if n > 0 {
      NotYetClosed(lines, n - 1, x);
      LaterCloses(lines, n - 1, x);
    }
  }

  lemma {:induction false} LaterCloses(lines: seq<string>, m: nat, x: nat)
    ensures Closes(lines, m, x) ==> x < m
  {
  }

  ghost predicate ClosedTied(lines: seq<string>, nodes: seq<Option<Node>>) {
    forall x | 0 <= x < |nodes| && nodes[x].Some? :: nodes[x].value.closed <==> ClosedBefore(lines, |nodes|, x)
  }

  lemma {:induction false} StillClosedTied(lines: seq<string>, nodes: seq<Option<Node>>, x: Option<Node>)
    requires forall k | 0 <= k < |nodes| && nodes[k].Some? ::
               nodes[k].value.closed <==> ClosedBefore(lines, |nodes| + 1, k)
    requires x.Some? ==> !x.value.closed
    ensures ClosedTied(lines, nodes + [x])
  {
    hide ClosedBefore;
    NotYetClosed(lines, |nodes| + 1, |nodes|);
  }

  /** Settling closes exactly the level that the line steps out of. */
  lemma {:induction false} SettleCloses(lines: seq<string>, n: nat, s: State, kind: Kind, t: State, k: nat)
    requires n < |lines| && !Skipped(lines[n]) && Tied(lines, n, s) && Settled(lines, n, s, kind, t)
    requires k < n && s.nodes[k].Some? && (s.nodes[k].value.closed <==> ClosedBefore(lines, n, k))
    ensures |t.nodes| == n && t.nodes[k].Some? && (t.nodes[k].value.closed <==> ClosedBefore(lines, n + 1, k))
  {
    hide Read, Indent, Open, Nearest, Levels, ChainOf, KidKinds, FirstKind, Ancestors, ClosedBefore;
    var path := Open(lines, n);
    var kept := Shallower(lines, path, Indent(lines[n]));
    OpenClimbs(lines, n);
    OpenParents(lines, n);
    assert NodeTied(lines, k, s.nodes[k]);
    ClosedStep(lines, n, k);
    if |kept| + 1 < |path| {
      var p := Ancestors(path)[|path| - 1];
      AncestorsPrefix(path, |path| - 1, n);
      assert ParentOf(lines, Last(path)) == p;
      if |path| > 1 {
        assert !IsClosed(s.nodes, Line(path[|path| - 2]));
        assert path[..|path| - 1] != [] && Last(path[..|path| - 1]) == path[|path| - 2];
      }
      assert !IsClosed(s.nodes, p);
      assert IsChild(s.nodes[k], p) <==> ParentOf(lines, k) == p;
    }
  }

  lemma {:induction false} ClosedStep(lines: seq<string>, n: nat, k: nat)
    ensures ClosedBefore(lines, n + 1, k) <==> ClosedBefore(lines, n, k) || Closes(lines, n, k)
  {
  }

  lemma {:induction false} StepClosedTied(lines: seq<string>, n: nat, s: State)
    requires n < |lines| && Tied(lines, n, s) && AgreesAt(lines, n) && ClosedTied(lines, s.nodes)
    requires Step(s, lines, n).Going?
    ensures ClosedTied(lines, Step(s, lines, n).state.nodes)
  {
    hide Open, Nearest, NodesTied, KidKinds, StillOpen, FirstKind, Settle, Indent, Settled, ClosedBefore, Deeper, IsClosed;
    if Skipped(lines[n]) {
      forall k | 0 <= k < n && s.nodes[k].Some? ensures s.nodes[k].value.closed <==> ClosedBefore(lines, n + 1, k) {
        ClosedStep(lines, n, k);
      }
      StillClosedTied(lines, s.nodes, None);
    } else {
      var r := Read(lines[n]);
      SettleTied(lines, n, s, r.kind);
      var t := Settle(s, n, Indent(lines[n]), r.kind).state;
      SettleKeepsCount(s, n, Indent(lines[n]), r.kind);
      forall k | 0 <= k < n && t.nodes[k].Some? ensures t.nodes[k].value.closed <==> ClosedBefore(lines, n + 1, k) {
        assert SameButClosed(s.nodes[k], t.nodes[k]);
        SettleCloses(lines, n, s, r.kind, t, k);
      }
      StillClosedTied(lines, t.nodes, Last(Step(s, lines, n).state.nodes));
    }
  }

  lemma {:induction false} RunClosedTied(lines: seq<string>, n: nat)
    requires n <= |lines| && (forall i | 0 <= i < n :: AgreesAt(lines, i)) && Run(lines, n).Going?
    ensures ClosedTied(lines, Run(lines, n).state.nodes)
  {
    hide AgreesAt, Step, Tied, ClosedBefore;
    if n > 0 {
      RunClosedTied(lines, n - 1);
      RunTied(lines, n - 1);
      StepClosedTied(lines, n - 1, Run(lines, n - 1).state);
    }
  }

  // ---------- a line with children has no value ----------

  lemma {:induction false} OpensHasNoValue(kind: Kind, body: string)
    ensures var r := ReadBody(kind, body); r.Entry? && r.opens ==> r.value == ""
  {
    var t := Trim(body, " ");
    if EndsWithSeparator(body) {
      assert t[|t| - 1 + 1..] == "";
    }
  }

  lemma {:induction false} DeeperOpens(lines: seq<string>, n: nat, x: nat)
    requires x < n <= |lines| && Run(lines, n).Going? && !Skipped(lines[x]) && Deeper(lines, x)
    ensures ValueAt(lines, x) == ""
    decreases n
  {
    hide Settle, Attach, Skipped, Deeper, ReadBody;
    if x < n - 1 {
      DeeperOpens(lines, n - 1, x);
    } else {
      assert Read(lines[x]).Entry? ==> Read(lines[x]).opens;
      OpensHasNoValue(Map, lines[x]);
      if ExtractListValue(lines[x]).Some? {
        OpensHasNoValue(Seq, ExtractListValue(lines[x]).value);
      }
    }
  }

  lemma {:induction false} NearestSkips(lines: seq<string>, i: nat, indent: nat, x: nat)
    requires i <= |lines| && Nearest(lines, i, indent) == Line(x)
    ensures x < i && !Skipped(lines[x]) && Indent(lines[x]) < indent
    ensures forall k | x < k < i && !Skipped(lines[k]) :: Indent(lines[k]) >= indent
  {
    hide Skipped, Indent;
    if !(!Skipped(lines[i - 1]) && Indent(lines[i - 1]) < indent) {
      NearestSkips(lines, i - 1, indent, x);
    }
  }

  /** The significant line after a line with children is one of them. */
  lemma {:induction false} ChildrenShowAhead(lines: seq<string>, x: nat, i: nat, c: nat)
    requires x < i <= c < |lines| && !Skipped(lines[c]) && Previous(lines, i) == Some(x) && Agrees(lines)
    requires forall k | x < k <= c && !Skipped(lines[k]) :: Indent(lines[x]) < Indent(lines[k])
    ensures Deeper(lines, x)
    decreases c - i
  {
    hide Skipped, Indent, Deeper;
    if Skipped(lines[i]) {
      ChildrenShowAhead(lines, x, i + 1, c);
    } else {
      assert AgreesAt(lines, i);
    }
  }

  lemma {:induction false} ParentHasNoValue(lines: seq<string>, x: nat)
    requires Agrees(lines) && Run(lines, |lines|).Going? && !Leaf(lines, x)
    ensures Significant(lines, x) && ValueAt(lines, x) == ""
  {
    hide Skipped, Indent, Deeper, AgreesAt, Nearest, ValueAt;
    var c :| 0 <= c < |lines| && Under(lines, c, Line(x));
    NearestSkips(lines, c, Indent(lines[c]), x);
    assert Previous(lines, x + 1) == Some(x);
    ChildrenShowAhead(lines, x, x + 1, c);
    DeeperOpens(lines, |lines|, x);
  }

  // ---------- the final check ----------

  /** The tree at the end of a run with an agreeing look ahead. */
  ghost predicate FinalTree(lines: seq<string>, nodes: seq<Option<Node>>) {
    && |nodes| == |lines| && NodesTied(lines, nodes) && ClosedTied(lines, nodes)
    && forall x | 0 <= x < |lines| && !Leaf(lines, x) :: ValueAt(lines, x) == ""
  }

  ghost predicate Closed(lines: seq<string>, x: nat) {
    ClosedBefore(lines, |lines|, x)
  }

  /** Leaves carry values, and no line with children is closed as a plain value. */
  ghost predicate Acceptable(lines: seq<string>) {
    forall x | 0 <= x < |lines| && Significant(lines, x) ::
      if Leaf(lines, x) then ValueAt(lines, x) != "" else !Closed(lines, x)
  }

  lemma {:induction false} ChildIs(lines: seq<string>, nodes: seq<Option<Node>>, c: nat, p: Parent)
    requires |nodes| == |lines| && NodesTied(lines, nodes) && c < |lines|
    ensures IsChild(nodes[c], p) <==> Under(lines, c, p)
    ensures nodes[c].Some? <==> Significant(lines, c)
    ensures nodes[c].Some? ==> nodes[c].value.value == ValueAt(lines, c)
  {
    hide Skipped, Read, ParentOf;
    assert NodeTied(lines, c, nodes[c]);
  }

  lemma {:induction false} FirstKindFinds(nodes: seq<Option<Node>>, p: Parent)
    ensures FirstKind(nodes, p).Some? <==> exists c | 0 <= c < |nodes| :: IsChild(nodes[c], p)
  {
    if nodes != [] {
      FirstKindFinds(Drop(nodes, 1), p);
      if FirstKind(Drop(nodes, 1), p).Some? {
        var c :| 0 <= c < |nodes| - 1 && IsChild(Drop(nodes, 1)[c], p);
        assert IsChild(nodes[c], p);
      } else {
        assert forall c | 0 <= c < |nodes| - 1 :: Drop(nodes, 1)[c] == nodes[c];
        assert IsChild(Last(nodes), p) ==> IsChild(nodes[|nodes| - 1], p);
      }
    }
  }

  lemma {:induction false} LeafIs(lines: seq<string>, nodes: seq<Option<Node>>, x: nat)
    requires |nodes| == |lines| && NodesTied(lines, nodes)
    ensures FirstKind(nodes, Line(x)).None? <==> Leaf(lines, x)
  {
    hide NodesTied, Under, IsChild, FirstKind;
    FirstKindFinds(nodes, Line(x));
    forall c | 0 <= c < |lines| ensures IsChild(nodes[c], Line(x)) <==> Under(lines, c, Line(x)) {
      ChildIs(lines, nodes, c, Line(x));
    }
  }

  /** What a node constructor let through has a name. */
  ghost predicate AllNamed(nodes: seq<Option<Node>>) {
    forall c | 0 <= c < |nodes| && nodes[c].Some? :: Named(nodes[c].value)
  }

  lemma {:induction false} AcceptableIsValid(lines: seq<string>, nodes: seq<Option<Node>>, x: nat)
    requires FinalTree(lines, nodes) && AllNamed(nodes) && Acceptable(lines) && Significant(lines, x)
    ensures nodes[x].Some? && ValidNode(nodes, x)
    decreases |lines| - x
  {
    hide NodesTied, Skipped, Leaf, ClosedBefore, FirstKind, Under, IsChild, Named;
    ChildIs(lines, nodes, x, Root(0));
    LeafIs(lines, nodes, x);
    if !Leaf(lines, x) {
      forall c | x < c < |nodes| && IsChild(nodes[c], Line(x)) ensures nodes[c].Some? && Named(nodes[c].value) && ValidNode(nodes, c) {
        ChildIs(lines, nodes, c, Line(x));
        UnderIsSignificant(lines, c, Line(x));
        AcceptableIsValid(lines, nodes, c);
      }
    } else {
      LeafCloses(lines, nodes, x);
    }
  }

  lemma {:induction false} UnderIsSignificant(lines: seq<string>, c: nat, p: Parent)
    ensures Under(lines, c, p) ==> Significant(lines, c) && (p.Line? ==> p.index < c && Significant(lines, p.index))
  {
    if Under(lines, c, p) && p.Line? {
      NearestSkips(lines, c, Indent(lines[c]), p.index);
    }
  }

  lemma {:induction false} LeafCloses(lines: seq<string>, nodes: seq<Option<Node>>, x: nat)
    requires FinalTree(lines, nodes) && Significant(lines, x) && nodes[x].Some?
    ensures Leaf(lines, x) && nodes[x].value.value != "" ==> ValidNode(nodes, x)
  {
    LeafIs(lines, nodes, x);
  }

  /** A valid tree is valid at every line, so nothing in it was closed away. */
  lemma {:induction false} ValidEverywhere(lines: seq<string>, nodes: seq<Option<Node>>, x: nat)
    requires FinalTree(lines, nodes) && ValidRoot(nodes, Root(0)) && Significant(lines, x)
    ensures nodes[x].Some? && ValidNode(nodes, x)
    decreases x
  {
    hide NodesTied, Skipped, Leaf, ClosedBefore, FirstKind, Under, IsChild, Named, Nearest, Indent, ValueAt;
    var p := ParentOf(lines, x);
    ChildIs(lines, nodes, x, p);
    ParentIs(lines, x);
    UnderIsSignificant(lines, x, p);
    NearestIsEarlier(lines, x, Indent(lines[x]));
    if p.Line? {
      ValidEverywhere(lines, nodes, p.index);
      LeafIs(lines, nodes, p.index);
      ChildIs(lines, nodes, p.index, Root(0));
      NotLeaf(lines, p.index, x);
      assert nodes[p.index].value.value == "";
    }
  }

  lemma {:induction false} ParentIs(lines: seq<string>, x: nat)
    requires Significant(lines, x)
    ensures Under(lines, x, ParentOf(lines, x))
  {
  }

  lemma {:induction false} NotLeaf(lines: seq<string>, x: nat, c: nat)
    requires Under(lines, c, Line(x))
    ensures !Leaf(lines, x)
  {
  }

  lemma {:induction false} ValidIsAcceptable(lines: seq<string>, nodes: seq<Option<Node>>, x: nat)
    requires FinalTree(lines, nodes) && ValidRoot(nodes, Root(0)) && Significant(lines, x)
    ensures if Leaf(lines, x) then ValueAt(lines, x) != "" else !Closed(lines, x)
  {
    hide NodesTied, Skipped, Leaf, ClosedBefore, FirstKind, Under, IsChild, Named, ValueAt;
    ValidEverywhere(lines, nodes, x);
    LeafIs(lines, nodes, x);
    ChildIs(lines, nodes, x, Root(0));
  }

  lemma {:induction false} StepNamed(s: State, lines: seq<string>, n: nat)
    requires n < |lines| && Stacked(s) && AllNamed(s.nodes)
    ensures Step(s, lines, n).Going? ==> AllNamed(Step(s, lines, n).state.nodes)
  {
    hide Settle, Read, Deeper, Indent, FirstKind, HasKey, IsClosed;
    var o, r := Step(s, lines, n), Read(lines[n]);
    if o.Going? {
      StepKeepsNodes(s, lines, n);
      forall c | 0 <= c < |o.state.nodes| && o.state.nodes[c].Some? ensures Named(o.state.nodes[c].value) {
        if c < |s.nodes| {
          assert SameButClosed(s.nodes[c], o.state.nodes[c]);
        }
      }
    }
  }

  lemma {:induction false} RunNamed(lines: seq<string>, n: nat)
    requires n <= |lines| && Run(lines, n).Going?
    ensures AllNamed(Run(lines, n).state.nodes)
  {
    hide Step;
    if n > 0 {
      RunNamed(lines, n - 1);
      StepNamed(Run(lines, n - 1).state, lines, n - 1);
    }
  }

  lemma {:induction false} RootHasChild(lines: seq<string>, nodes: seq<Option<Node>>, x: nat)
    requires |nodes| == |lines| && NodesTied(lines, nodes) && Significant(lines, x)
    ensures FirstKind(nodes, Root(0)).Some?
    decreases x
  {
    hide NodesTied, Skipped, IsChild, FirstKind, Under, Indent, Nearest;
    var p := ParentOf(lines, x);
    ParentIs(lines, x);
    NearestIsEarlier(lines, x, Indent(lines[x]));
    UnderIsSignificant(lines, x, p);
    if p.Line? {
      RootHasChild(lines, nodes, p.index);
    } else {
      ChildIs(lines, nodes, x, p);
      FirstKindFinds(nodes, p);
    }
  }

  lemma {:induction false} CheckedExactly(lines: seq<string>, nodes: seq<Option<Node>>)
    requires FinalTree(lines, nodes) && AllNamed(nodes) && exists x | 0 <= x < |lines| :: Significant(lines, x)
    ensures ValidRoot(nodes, Root(0)) <==> Acceptable(lines)
  {
    hide NodesTied, Skipped, IsChild, FirstKind, Under, Leaf, Closed, ValidNode, Named, ClosedTied, ClosedBefore;
    var any :| 0 <= any < |lines| && Significant(lines, any);
    RootHasChild(lines, nodes, any);
    if Acceptable(lines) {
      forall c | 0 <= c < |nodes| && IsChild(nodes[c], Root(0))
        ensures nodes[c].Some? && Named(nodes[c].value) && ValidNode(nodes, c)
      {
        ChildIs(lines, nodes, c, Root(0));
        UnderIsSignificant(lines, c, Root(0));
        AcceptableIsValid(lines, nodes, c);
      }
    }
    if ValidRoot(nodes, Root(0)) {
      forall x | 0 <= x < |lines| && Significant(lines, x)
        ensures if Leaf(lines, x) then ValueAt(lines, x) != "" else !Closed(lines, x)
      {
        ValidIsAcceptable(lines, nodes, x);
      }
    }
  }

  /**
   * With an agreeing look ahead, parseYaml never crashes, and a file that passes the loop is
   * accepted exactly if its leaves carry values and no line with children is closed as a value.
   */
  lemma {:induction false} AcceptedExactly(lines: seq<string>)
    requires Agrees(lines)
    ensures var o := Run(lines, |lines|);
            !Finish(o).Crashed?
            && (o.Going? ==>
                  if exists x | 0 <= x < |lines| :: Significant(lines, x)
                  then Finish(o) == (if Acceptable(lines) then Data(o.state.nodes, Root(0)) else InvalidTree)
                  else Finish(o) == NoData)
  {
    hide NodesTied, Skipped, IsChild, FirstKind, Under, Leaf, Closed, ValidRoot, Named, ClosedTied, AgreesAt, Acceptable,
         AllNamed, Step, StacksTied, KidKinds, StillOpen;
    var n, o := |lines|, Run(lines, |lines|);
    RunTied(lines, n);
    if o.Going? {
      RunClosedTied(lines, n);
      RunNamed(lines, n);
      OpenClimbs(lines, n);
      OpenParents(lines, n);
      forall x | 0 <= x < |lines| && !Leaf(lines, x) ensures ValueAt(lines, x) == "" {
        ParentHasNoValue(lines, x);
      }
      if exists x | 0 <= x < |lines| :: Significant(lines, x) {
        CheckedExactly(lines, o.state.nodes);
      } else {
        NothingOpen(lines, n);
      }
    }
  }

  lemma {:induction false} NothingOpen(lines: seq<string>, n: nat)
    requires n <= |lines| && forall x | 0 <= x < n :: !Significant(lines, x)
    ensures Open(lines, n) == []
  {
    hide Skipped;
    if n > 0 {
      assert !Significant(lines, n - 1);
      NothingOpen(lines, n - 1);
    }
  }
}
