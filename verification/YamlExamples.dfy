/** Small files on which parseYaml departs from what their indentation says. */
module YamlExamples {
  import opened StringOps
  import opened YamlText
  import opened Yaml
  import opened YamlTree
  import opened YamlAccept

  ghost predicate Reads(line: string, indent: nat, key: string, value: string) {
    !Skipped(line) && Indent(line) == indent && Read(line) == Entry(Map, key, value, value == "")
  }

  lemma {:induction false} PrintedReads(indent: nat, key: string, value: string)
    requires Printable(Map, key, value)
    ensures Reads(PrintEntry(indent, Map, key, value), indent, key, value)
  {
    PrintedEntryReads(indent, Map, key, value);
  }

  /** The state after a map entry that opens a level or stays on it. */
  lemma {:induction false} StepEntry(lines: seq<string>, n: nat, s: State, indent: nat, key: string, value: string)
    requires n < |lines| && Reads(lines[n], indent, key, value) && Stacked(s) && key != ""
    requires Last(s.indents) < indent || (Last(s.indents) == indent && Last(s.kinds) == Some(Map))
    requires var p := if s.chain == [] then Root(s.roots) else Last(s.chain);
             !IsClosed(s.nodes, p) && !HasKey(s.nodes, p, key)
             && (FirstKind(s.nodes, p).None? || FirstKind(s.nodes, p) == Some(Map))
    requires Deeper(lines, n) ==> value == ""
    ensures var chain := if s.chain == [] then [Root(s.roots)] else s.chain;
            Step(s, lines, n) == Going(State(
              s.nodes + [Some(Node(Map, key, value, Last(chain), false))],
              if Deeper(lines, n) then chain + [Line(n)] else chain,
              if Last(s.indents) < indent then s.indents + [indent] else s.indents,
              if Last(s.indents) < indent then s.kinds + [Some(Map)] else s.kinds,
              if s.chain == [] then s.roots + 1 else s.roots))
  {
    hide Read, Skipped, Indent, Deeper, FirstKind, HasKey, IsClosed;
  }

  lemma {:induction false} NoChildren(nodes: seq<Option<Node>>, p: Parent)
    requires forall i | 0 <= i < |nodes| :: !IsChild(nodes[i], p)
    ensures FirstKind(nodes, p).None? && forall key :: !HasKey(nodes, p, key)
  {
    FirstKindOfNone(nodes, p);
  }

  function Plainly(key: string, value: string, parent: Parent): Option<Node> {
    Some(Node(Map, key, value, parent, false))
  }

  lemma {:induction false} AfterFirst(lines: seq<string>, deeper: bool)
    requires |lines| > 0 && Reads(lines[0], 0, "a", "") && Deeper(lines, 0) == deeper
    ensures Run(lines, 1) == Going(State([Plainly("a", "", Root(0))], if deeper then [Root(0), Line(0)] else [Root(0)],
                                         [-1, 0], [None, Some(Map)], 1))
  {
    hide Read, Skipped, Indent, Deeper, FirstKind, HasKey;
    NoChildren([], Root(0));
    StepEntry(lines, 0, Start(), 0, "a", "");
    assert Run(lines, 0) == Going(Start());
  }

  lemma {:induction false} AfterSkipped(lines: seq<string>, n: nat, s: State)
    requires n < |lines| && Skipped(lines[n]) && Run(lines, n) == Going(s)
    ensures Run(lines, n + 1) == Going(s.(nodes := s.nodes + [None]))
  {
    hide Skipped;
  }

  lemma {:induction false} AfterComment(a: string, c: string, b: string)
    requires Reads(a, 0, "a", "") && Reads(b, 0, "b", "1") && Skipped(c) && Indent(c) > 0
    ensures var o := Run([a, c, b], 3);
            o.Going? && o.state.nodes == [Plainly("a", "", Root(0)), None, Plainly("b", "1", Line(0))] && o.state.roots == 1
            && ParentOf([a, c, b], 2) == Root(0)
  {
    hide Read, Skipped, Indent, FirstKind, HasKey, Run, Step, Deeper, Nearest;
    var lines := [a, c, b];
    DeeperIs(lines, 0);
    AfterFirst(lines, true);
    var s1 := Run(lines, 1).state;
    AfterSkipped(lines, 1, s1);
    var s2 := s1.(nodes := s1.nodes + [None]);
    NoChildren(s2.nodes, Line(0));
    DeeperIs(lines, 2);
    StepEntry(lines, 2, s2, 0, "b", "1");
    RunOne(lines, 2);
    NothingAbove(lines, 2);
  }

  lemma {:induction false} AdoptedIsValid(nodes: seq<Option<Node>>)
    requires nodes == [Plainly("a", "", Root(0)), None, Plainly("b", "1", Line(0))]
    ensures ValidRoot(nodes, Root(0))
  {
    hide FirstKind;
    FirstKindFinds(nodes, Root(0));
    FirstKindFinds(nodes, Line(0));
    assert IsChild(nodes[0], Root(0)) && IsChild(nodes[2], Line(0));
    LastIsLeaf(nodes);
    assert ValidNode(nodes, 2);
    assert ValidNode(nodes, 0);
  }

  /** In "a:", "  #", "b: 1" the more deeply indented comment turns the sibling into a child, and the file is accepted. */
  lemma {:induction false} CommentAdopts()
    ensures var lines := [PrintEntry(0, Map, "a", ""), "  #", PrintEntry(0, Map, "b", "1")];
            var r := Finish(Run(lines, 3));
            r.Data? && r.root == Root(0) && |r.nodes| == 3 && r.nodes[2].Some? && r.nodes[2].value.parent == Line(0)
            && ParentOf(lines, 2) == Root(0)
  {
    hide Run, ValidRoot, Nearest, PrintEntry;
    PrintedReads(0, "a", "");
    PrintedReads(0, "b", "1");
    CommentIsSkipped();
    AfterComment(PrintEntry(0, Map, "a", ""), "  #", PrintEntry(0, Map, "b", "1"));
    AdoptedIsValid([Plainly("a", "", Root(0)), None, Plainly("b", "1", Line(0))]);
  }

  lemma {:induction false} CommentIsSkipped()
    ensures Skipped("  #") && Indent("  #") == 2
  {
    IndentOfPadded(2, "#");
    assert Spaces(2) + "#" == "  #";
  }

  lemma {:induction false} DeeperIs(lines: seq<string>, i: nat)
    requires i < |lines|
    ensures Deeper(lines, i) <==> i + 1 < |lines| && Indent(lines[i]) < Indent(lines[i + 1])
  {
  }

  lemma {:induction false} RunOne(lines: seq<string>, n: nat)
    requires n < |lines| && Run(lines, n).Going?
    ensures Run(lines, n + 1) == Step(Run(lines, n).state, lines, n)
  {
  }

  lemma {:induction false} NothingAbove(lines: seq<string>, i: nat)
    requires i <= |lines|
    ensures Nearest(lines, i, 0) == Root(0)
  {
    if i > 0 { NothingAbove(lines, i - 1); }
  }

  lemma {:induction false} MapChildren(nodes: seq<Option<Node>>, p: Parent)
    requires forall i | 0 <= i < |nodes| && nodes[i].Some? :: nodes[i].value.kind == Map
    ensures FirstKind(nodes, p).None? || FirstKind(nodes, p) == Some(Map)
  {
    if nodes != [] { MapChildren(Drop(nodes, 1), p); }
  }

  /** A step back out of the innermost level. */
  lemma {:induction false} StepBack(lines: seq<string>, n: nat, s: State, indent: nat, key: string, value: string)
    requires n < |lines| && Reads(lines[n], indent, key, value) && Stacked(s) && key != ""
    requires |s.indents| > 2 && s.indents[|s.indents| - 2] == indent < Last(s.indents)
    requires s.kinds[|s.kinds| - 2] == Some(Map) && s.chain != [] && !Deeper(lines, n)
    requires var p := if |s.chain| == 1 then Root(s.roots) else s.chain[|s.chain| - 2];
             var nodes := Terminated(s.nodes, Last(s.chain));
             !IsClosed(nodes, p) && !HasKey(nodes, p, key)
             && (FirstKind(nodes, p).None? || FirstKind(nodes, p) == Some(Map))
    ensures var p := if |s.chain| == 1 then Root(s.roots) else s.chain[|s.chain| - 2];
            Step(s, lines, n) == Going(State(
              Terminated(s.nodes, Last(s.chain)) + [Plainly(key, value, p)],
              if |s.chain| == 1 then [Root(s.roots)] else Drop(s.chain, 1), Drop(s.indents, 1), Drop(s.kinds, 1),
              if |s.chain| == 1 then s.roots + 1 else s.roots))
  {
    hide Read, Skipped, Indent, Deeper, FirstKind, HasKey, IsClosed, Terminated;
    OnePop(s.indents, indent);
  }

  lemma {:induction false} OnePop(indents: seq<int>, indent: nat)
    requires |indents| > 2 && indents[|indents| - 2] == indent < Last(indents)
    ensures Pops(indents, indent) == 1
  {
    assert Last(Drop(indents, 1)) == indent;
    assert Pops(Drop(indents, 1), indent) == 0;
  }

  function ClosedPlainly(key: string, value: string, parent: Parent): Option<Node> {
    Some(Node(Map, key, value, parent, true))
  }

  lemma {:induction false} AfterBlank(lines: seq<string>)
    requires |lines| >= 4 && Reads(lines[0], 0, "a", "") && lines[1] == ""
    requires Reads(lines[2], 2, "b", "1") && Indent(lines[3]) == 0
    ensures Run(lines, 3) == Going(State([Plainly("a", "", Root(0)), None, Plainly("b", "1", Root(0))], [Root(0)],
                                         [-1, 0, 2], [None, Some(Map), Some(Map)], 1))
  {
    hide Read, Indent, FirstKind, Run, Step, Deeper;
    DeeperIs(lines, 0);
    assert Indent("") == 0 by { BlankHasNoIndent(); }
    AfterFirst(lines, false);
    var s1 := Run(lines, 1).state;
    AfterSkipped(lines, 1, s1);
    var s2 := s1.(nodes := s1.nodes + [None]);
    MapChildren(s2.nodes, Root(0));
    DeeperIs(lines, 2);
    StepEntry(lines, 2, s2, 2, "b", "1");
    RunOne(lines, 2);
  }

  lemma {:induction false} BlankHasNoIndent()
    ensures Indent("") == 0
  {
  }

  lemma {:induction false} AfterLoss(lines: seq<string>)
    requires |lines| == 4 && Reads(lines[0], 0, "a", "") && lines[1] == ""
    requires Reads(lines[2], 2, "b", "1") && Reads(lines[3], 0, "c", "2")
    ensures var o := Run(lines, 4);
            o.Going? && o.state.roots == 2
            && o.state.nodes == [ClosedPlainly("a", "", Root(0)), None, ClosedPlainly("b", "1", Root(0)), Plainly("c", "2", Root(1))]
  {
    hide Read, Indent, FirstKind, Run, Step, Deeper, HasKey;
    AfterBlank(lines);
    var s3 := Run(lines, 3).state;
    var nodes := Terminated(s3.nodes, Root(0));
    assert nodes == [ClosedPlainly("a", "", Root(0)), None, ClosedPlainly("b", "1", Root(0))];
    NoChildren(nodes, Root(1));
    DeeperIs(lines, 3);
    StepBack(lines, 3, s3, 0, "c", "2");
    RunOne(lines, 3);
  }

  lemma {:induction false} AfterLossAccepted(a: string, b: string, c: string)
    requires Reads(a, 0, "a", "") && Reads(b, 2, "b", "1") && Reads(c, 0, "c", "2")
    ensures var r := Finish(Run([a, "", b, c], 4));
            r.Data? && r.root == Root(1) && |r.nodes| == 4
            && forall i | 0 <= i < 3 :: !IsChild(r.nodes[i], r.root)
    ensures ParentOf([a, "", b, c], 2) == Line(0)
  {
    hide Read, Indent, Run, Deeper;
    var lines := [a, "", b, c];
    AfterLoss(lines);
    var nodes := Run(lines, 4).state.nodes;
    assert IsChild(nodes[3], Root(1));
    FirstKindFinds(nodes, Root(1));
    assert ValidNode(nodes, 3) by { LastIsLeaf(nodes); }
    assert ValidRoot(nodes, Root(1));
    assert Nearest(lines, 1, 2) == Line(0);
  }

  /**
   * In "a:", "", "  b: 1", "c: 2" the blank line detaches the nested entry, and stepping back then
   * loses everything read before; the file is accepted with what is left.
   */
  lemma {:induction false} BlankLosesData()
    ensures var lines := [PrintEntry(0, Map, "a", ""), "", PrintEntry(2, Map, "b", "1"), PrintEntry(0, Map, "c", "2")];
            var r := Finish(Run(lines, 4));
            r.Data? && |r.nodes| == 4 && (forall i | 0 <= i < 3 :: !IsChild(r.nodes[i], r.root))
            && ParentOf(lines, 2) == Line(0)
  {
    hide Run, Finish, PrintEntry;
    PrintedReads(0, "a", "");
    PrintedReads(2, "b", "1");
    PrintedReads(0, "c", "2");
    AfterLossAccepted(PrintEntry(0, Map, "a", ""), PrintEntry(2, Map, "b", "1"), PrintEntry(0, Map, "c", "2"));
  }

  lemma {:induction false} LastIsLeaf(nodes: seq<Option<Node>>)
    requires nodes != [] && Last(nodes).Some? && !Last(nodes).value.closed && Last(nodes).value.value != ""
    ensures ValidNode(nodes, |nodes| - 1)
  {
    hide FirstKind;
  }

  lemma {:induction false} AfterThree(lines: seq<string>)
    requires |lines| == 5 && Reads(lines[0], 0, "a", "") && Reads(lines[1], 2, "b", "") && Reads(lines[2], 4, "c", "1")
    requires Reads(lines[3], 2, "d", "2") && Reads(lines[4], 0, "e", "3")
    ensures Run(lines, 3) == Going(State([Plainly("a", "", Root(0)), Plainly("b", "", Line(0)), Plainly("c", "1", Line(1))],
                                         [Root(0), Line(0), Line(1)], [-1, 0, 2, 4],
                                         [None, Some(Map), Some(Map), Some(Map)], 1))
  {
    hide Read, Skipped, Indent, FirstKind, Run, Step, Deeper, HasKey;
    DeeperIs(lines, 0);
    DeeperIs(lines, 1);
    DeeperIs(lines, 2);
    AfterFirst(lines, true);
    var s1 := Run(lines, 1).state;
    NoChildren(s1.nodes, Line(0));
    StepEntry(lines, 1, s1, 2, "b", "");
    RunOne(lines, 1);
    var s2 := Run(lines, 2).state;
    NoChildren(s2.nodes, Line(1));
    StepEntry(lines, 2, s2, 4, "c", "1");
    RunOne(lines, 2);
  }

  lemma {:induction false} AfterFive(lines: seq<string>)
    requires |lines| == 5 && Reads(lines[0], 0, "a", "") && Reads(lines[1], 2, "b", "") && Reads(lines[2], 4, "c", "1")
    requires Reads(lines[3], 2, "d", "2") && Reads(lines[4], 0, "e", "3")
    ensures Run(lines, 5).Going?
  {
    hide Read, Skipped, Indent, FirstKind, Run, Step, Deeper;
    AfterThree(lines);
    DeeperIs(lines, 3);
    DeeperIs(lines, 4);
    var s3 := Run(lines, 3).state;
    var n3 := Terminated(s3.nodes, Line(1));
    assert n3 == [Plainly("a", "", Root(0)), Plainly("b", "", Line(0)), ClosedPlainly("c", "1", Line(1))];
    MapChildren(n3, Line(0));
    StepBack(lines, 3, s3, 2, "d", "2");
    RunOne(lines, 3);
    var s4 := Run(lines, 4).state;
    var n4 := Terminated(s4.nodes, Line(0));
    assert n4 == [Plainly("a", "", Root(0)), ClosedPlainly("b", "", Line(0)), ClosedPlainly("c", "1", Line(1)),
                  ClosedPlainly("d", "2", Line(0))];
    MapChildren(n4, Root(0));
    StepBack(lines, 4, s4, 0, "e", "3");
    RunOne(lines, 4);
  }

  lemma {:induction false} RefusedTree(lines: seq<string>)
    requires |lines| == 5 && Reads(lines[0], 0, "a", "") && Reads(lines[1], 2, "b", "") && Reads(lines[2], 4, "c", "1")
    requires Reads(lines[3], 2, "d", "2") && Reads(lines[4], 0, "e", "3")
    ensures Agrees(lines) && Finish(Run(lines, 5)) == InvalidTree
  {
    hide Read, Run, Deeper, Indent, Skipped, Finish, AgreesAt;
    AllSignificantAgree(lines);
    AfterFive(lines);
    AcceptedExactly(lines);
    assert Nearest(lines, 1, 2) == Line(0) && Nearest(lines, 2, 4) == Line(1) && Nearest(lines, 3, 2) == Line(0) by {
      assert Nearest(lines, 2, 2) == Nearest(lines, 1, 2);
    }
    assert Under(lines, 2, Line(1));
    assert !Leaf(lines, 1);
    assert Previous(lines, 4) == Some(3);
    assert Closes(lines, 4, 1);
    assert Closed(lines, 1);
    assert Significant(lines, 1);
  }

  /**
   * "a:", "  b:", "    c: 1", "  d: 2", "e: 3" has neither blank nor comment lines and passes the loop,
   * but is refused: stepping back from d to e makes its sibling b a value without content.
   */
  lemma {:induction false} WellNestedRefused()
    ensures var lines := [PrintEntry(0, Map, "a", ""), PrintEntry(2, Map, "b", ""), PrintEntry(4, Map, "c", "1"),
                          PrintEntry(2, Map, "d", "2"), PrintEntry(0, Map, "e", "3")];
            Agrees(lines) && Finish(Run(lines, 5)) == InvalidTree
  {
    hide Run, Finish, PrintEntry, Agrees, Reads;
    PrintedReads(0, "a", "");
    PrintedReads(2, "b", "");
    PrintedReads(4, "c", "1");
    PrintedReads(2, "d", "2");
    PrintedReads(0, "e", "3");
    RefusedTree([PrintEntry(0, Map, "a", ""), PrintEntry(2, Map, "b", ""), PrintEntry(4, Map, "c", "1"),
                 PrintEntry(2, Map, "d", "2"), PrintEntry(0, Map, "e", "3")]);
  }

  lemma {:induction false} TwoDetached(lines: seq<string>)
    requires |lines| == 6 && Reads(lines[0], 0, "a", "") && lines[1] == "" && lines[3] == ""
    requires Reads(lines[2], 2, "b", "1") && Reads(lines[4], 4, "c", "1") && Reads(lines[5], 0, "d", "2")
    ensures var o := Run(lines, 5);
            o.Going? && o.state.chain == [Root(0)] && o.state.indents == [-1, 0, 2, 4] && Stacked(o.state)
  {
    hide Read, Indent, FirstKind, Run, Step, Deeper;
    BlankHasNoIndent();
    AfterBlank(lines);
    var s3 := Run(lines, 3).state;
    AfterSkipped(lines, 3, s3);
    var s4 := s3.(nodes := s3.nodes + [None]);
    MapChildren(s4.nodes, Root(0));
    DeeperIs(lines, 4);
    StepEntry(lines, 4, s4, 4, "c", "1");
    RunOne(lines, 4);
  }

  lemma {:induction false} TwoPops(indents: seq<int>)
    requires indents == [-1, 0, 2, 4]
    ensures Pops(indents, 0) == 2
  {
    assert Drop(indents, 1) == [-1, 0, 2] && Drop([-1, 0, 2], 1) == [-1, 0];
    assert Pops([-1, 0], 0) == 0;
    assert Pops([-1, 0, 2], 0) == 1;
  }

  lemma {:induction false} StepCrashes(lines: seq<string>, n: nat, s: State)
    requires n < |lines| && Reads(lines[n], 0, "d", "2") && Stacked(s) && |s.chain| == 1 && s.indents == [-1, 0, 2, 4]
    ensures Step(s, lines, n).Undefined?
  {
    hide Read, Skipped, Indent, Pops, Terminated;
    TwoPops(s.indents);
  }

  /** In "a:", "", "  b: 1", "", "    c: 1", "d: 2" two blank lines detach two levels, and stepping back
      pops an empty stack. */
  lemma {:induction false} BlanksCrash()
    ensures var lines := [PrintEntry(0, Map, "a", ""), "", PrintEntry(2, Map, "b", "1"), "",
                          PrintEntry(4, Map, "c", "1"), PrintEntry(0, Map, "d", "2")];
            Finish(Run(lines, 6)) == Crashed
  {
    hide Run, PrintEntry, Reads, Step;
    PrintedReads(0, "a", "");
    PrintedReads(2, "b", "1");
    PrintedReads(4, "c", "1");
    PrintedReads(0, "d", "2");
    var lines := [PrintEntry(0, Map, "a", ""), "", PrintEntry(2, Map, "b", "1"), "",
                  PrintEntry(4, Map, "c", "1"), PrintEntry(0, Map, "d", "2")];
    TwoDetached(lines);
    StepCrashes(lines, 5, Run(lines, 5).state);
    RunOne(lines, 5);
  }
}
