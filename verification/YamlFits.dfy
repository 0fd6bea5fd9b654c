/** Which files the loop of parseYaml accepts, line by line, and that printed entries come back. */
module YamlFits {
  import opened StringOps
  import opened YamlText
  import opened Yaml
  import opened YamlTree
  import opened YamlAccept

  /** The line opens a level below all open lines, or stands on the level of an open line of its own kind. */
  ghost predicate LevelFits(lines: seq<string>, n: nat)
    requires n < |lines|
  {
    var path := Open(lines, n);
    var k := |Shallower(lines, path, Indent(lines[n]))|;
    k < |path| ==> IndentAt(lines, path[k]) == Indent(lines[n]) && KindAt(lines, path[k]) == KindAt(lines, n)
  }

  /** On no open level, or on the level of a line of the other kind. */
  ghost function LevelReason(lines: seq<string>, n: nat): Reason
    requires n < |lines|
  {
    var path := Open(lines, n);
    var k := |Shallower(lines, path, Indent(lines[n]))|;
    if k < |path| && IndentAt(lines, path[k]) == Indent(lines[n]) then MixedKinds else BadIndent
  }

  /** No earlier line with the same parent has the same key. */
  ghost predicate KeyIsNew(lines: seq<string>, n: nat)
    requires n < |lines| && Read(lines[n]).Entry?
  {
    forall i | 0 <= i < n && Under(lines, i, ParentOf(lines, n)) && Read(lines[i]).Entry? ::
      Read(lines[i]).key != Read(lines[n]).key
  }

  /** What one line needs, told from the lines alone. */
  ghost predicate LineFits(lines: seq<string>, n: nat)
    requires n < |lines|
  {
    Skipped(lines[n])
    || var r := Read(lines[n]);
       && r.Entry? && LevelFits(lines, n)
       && (r.key != "" || (r.kind == Seq && r.value != ""))
       && (r.kind == Map ==> KeyIsNew(lines, n))
       && (Deeper(lines, n) ==> r.opens)
  }

  /** What is wrong with a line that does not fit. */
  ghost function Fault(lines: seq<string>, n: nat): Reason
    requires n < |lines|
  {
    var r := Read(lines[n]);
    if r.Broken? then BadText
    else if !LevelFits(lines, n) then LevelReason(lines, n)
    else if r.key == "" && (r.kind == Map || r.value == "") then BadNode
    else if r.kind == Map && !KeyIsNew(lines, n) then DuplicateKey
    else ValueAndChildren
  }

  lemma {:induction false} SettlesBelow(lines: seq<string>, n: nat, s: State, kind: Kind)
    requires n < |lines| && KindAt(lines, n) == Some(kind) && StacksTied(lines, n, s)
    requires Last(s.indents) <= Indent(lines[n])
    ensures Settle(s, n, Indent(lines[n]), kind).Going? <==> LevelFits(lines, n)
    ensures !LevelFits(lines, n) ==> Settle(s, n, Indent(lines[n]), kind) == Rejected(n, LevelReason(lines, n))
  {
    hide Skipped, Indent, KindAt, Nearest, Deeper, Open, Ancestors, Shallower, Climbing, ChainOf;
    var path, indent := Open(lines, n), Indent(lines[n]);
    OpenClimbs(lines, n);
    var k := |path| - 1;
    if path != [] {
      assert IndentAt(lines, path[k]) == s.indents[k + 1] && KindAt(lines, path[k]) == s.kinds[k + 1];
    }
    if Last(s.indents) == indent {
      ShallowerBelow(lines, path, n, indent, k);
    } else {
      ShallowerIs(lines, path, indent, |path|);
    }
  }

  lemma {:induction false} SettlesAbove(lines: seq<string>, n: nat, s: State, kind: Kind)
    requires n < |lines| && KindAt(lines, n) == Some(kind) && StacksTied(lines, n, s)
    requires Last(s.indents) > Indent(lines[n]) && !Settle(s, n, Indent(lines[n]), kind).Undefined?
    ensures Settle(s, n, Indent(lines[n]), kind).Going? <==> LevelFits(lines, n)
    ensures !LevelFits(lines, n) ==> Settle(s, n, Indent(lines[n]), kind) == Rejected(n, LevelReason(lines, n))
  {
    hide Skipped, Indent, KindAt, Nearest, Deeper, Open, Ancestors, Shallower, Climbing, ChainOf, Pops, Terminated;
    var path, indent := Open(lines, n), Indent(lines[n]);
    OpenClimbs(lines, n);
    PopsReach(lines, path, s.indents, s.kinds, indent);
    var m := Pops(s.indents, indent);
    var j := |path| - m;
    assert Last(Drop(s.indents, m)) == s.indents[j] && Last(Drop(s.kinds, m)) == s.kinds[j];
    assert Last(s.indents) == s.indents[|path|];
    assert m > 0;
    assert j > 0 ==> IndentAt(lines, path[j - 1]) == s.indents[j] && KindAt(lines, path[j - 1]) == s.kinds[j];
    if s.indents[j] == indent {
      ShallowerBelow(lines, path, n, indent, j - 1);
    } else {
      ShallowerIs(lines, path, indent, j);
      assert IndentAt(lines, path[j]) > indent;
    }
  }

  lemma {:induction false} KeyThere(lines: seq<string>, n: nat, nodes: seq<Option<Node>>)
    requires n < |lines| && |nodes| == n && NodesTied(lines, nodes) && Read(lines[n]).Entry?
    ensures HasKey(nodes, ParentOf(lines, n), Read(lines[n]).key) <==> !KeyIsNew(lines, n)
  {
    hide Read, Indent, Skipped, Nearest;
    var p := ParentOf(lines, n);
    forall i | 0 <= i < n
      ensures IsChild(nodes[i], p) <==> Under(lines, i, p)
      ensures Under(lines, i, p) ==> Read(lines[i]).Entry? && nodes[i].value.key == Read(lines[i]).key
    {
      assert NodeTied(lines, i, nodes[i]);
    }
  }

  /** One line passes exactly if it fits, and is refused for its fault. */
  lemma {:induction false} StepGoesExactly(lines: seq<string>, n: nat, s: State)
    requires n < |lines| && Tied(lines, n, s) && AgreesAt(lines, n)
    ensures Step(s, lines, n).Going? <==> LineFits(lines, n)
    ensures !LineFits(lines, n) ==> Step(s, lines, n) == Rejected(n, Fault(lines, n))
  {
    hide Open, NodesTied, KidKinds, StillOpen, FirstKind, Settle, Indent, Settled, HasKey, IsClosed, LevelFits, KeyIsNew,
         Shallower, Ancestors, Nearest, Read, Skipped, AgreesAt, LevelReason;
    if !Skipped(lines[n]) && Read(lines[n]).Entry? {
      var r := Read(lines[n]);
      SettleAndAttach(lines, n, s, r);
      SettlesExactly(lines, n, s, r.kind);
      var settled := Settle(s, n, Indent(lines[n]), r.kind);
      if settled.Going? {
        AttachesExactly(lines, n, s, settled.state);
      }
    }
  }

  lemma {:induction false} SettlesExactly(lines: seq<string>, n: nat, s: State, kind: Kind)
    requires n < |lines| && KindAt(lines, n) == Some(kind) && StacksTied(lines, n, s)
    requires !Settle(s, n, Indent(lines[n]), kind).Undefined?
    ensures Settle(s, n, Indent(lines[n]), kind).Going? <==> LevelFits(lines, n)
    ensures !LevelFits(lines, n) ==> Settle(s, n, Indent(lines[n]), kind) == Rejected(n, LevelReason(lines, n))
  {
    hide Open, KindAt, Settle, LevelFits, LevelReason;
    if Last(s.indents) <= Indent(lines[n]) {
      SettlesBelow(lines, n, s, kind);
    } else {
      SettlesAbove(lines, n, s, kind);
    }
  }

  lemma {:induction false} AttachesExactly(lines: seq<string>, n: nat, s: State, t: State)
    requires n < |lines| && !Skipped(lines[n]) && Read(lines[n]).Entry?
    requires Tied(lines, n, s) && Settled(lines, n, s, Read(lines[n]).kind, t)
    requires !CannotPushHere(Attach(t, n, Read(lines[n])))
    ensures var r := Read(lines[n]);
            && (Attach(t, n, r).Going? <==>
                (r.key != "" || (r.kind == Seq && r.value != "")) && (r.kind == Map ==> KeyIsNew(lines, n)))
            && (!Attach(t, n, r).Going? ==>
                  Attach(t, n, r) == Rejected(n, if r.key == "" && (r.kind == Map || r.value == "") then BadNode else DuplicateKey))
  {
    hide Open, NodesTied, KidKinds, StillOpen, FirstKind, Indent, HasKey, IsClosed, KeyIsNew, Shallower, Ancestors, Read,
         Skipped, Levels, Nearest;
    var r := Read(lines[n]);
    ReadyAfterSettling(lines, n, s, r.kind, t);
    AttachTop(lines, n, t);
    NearestIsOpen(lines, n, Indent(lines[n]));
    KeyThere(lines, n, t.nodes);
  }

  /** The loop passes the first `n` lines exactly if each of them fits. */
  lemma {:induction false} RunGoesExactly(lines: seq<string>, n: nat)
    requires n <= |lines| && forall i | 0 <= i < n :: AgreesAt(lines, i)
    ensures Run(lines, n).Going? <==> forall i | 0 <= i < n :: LineFits(lines, i)
  {
    hide AgreesAt, Step, Tied, LineFits;
    if n > 0 {
      RunGoesExactly(lines, n - 1);
      RunTied(lines, n - 1);
      if Run(lines, n - 1).Going? {
        StepGoesExactly(lines, n - 1, Run(lines, n - 1).state);
      }
    }
  }

  /** With agreement, a file is refused at its first line that does not fit, and for the fault of that line. */
  lemma {:induction false} RunRefuses(lines: seq<string>, n: nat, i: nat)
    requires i < n <= |lines| && forall j | 0 <= j < n :: AgreesAt(lines, j)
    requires !LineFits(lines, i) && forall j | 0 <= j < i :: LineFits(lines, j)
    ensures Run(lines, n) == Rejected(i, Fault(lines, i))
  {
    hide AgreesAt, Step, Tied, LineFits, Fault;
    RunGoesExactly(lines, i);
    RunTied(lines, i);
    StepGoesExactly(lines, i, Run(lines, i).state);
    RunStops(lines, i + 1, n);
  }

  /** Which files parseYaml turns into a tree, from their lines alone, when looking ahead agrees. */
  lemma {:induction false} AcceptedFiles(lines: seq<string>)
    requires Agrees(lines)
    ensures Finish(Run(lines, |lines|)).Data? <==>
            && (exists x | 0 <= x < |lines| :: Significant(lines, x))
            && (forall i | 0 <= i < |lines| :: LineFits(lines, i))
            && Acceptable(lines)
  {
    hide Step, LineFits, Acceptable, Significant, AgreesAt, ValidRoot;
    RunGoesExactly(lines, |lines|);
    AcceptedExactly(lines);
  }

  // ---------- printed files ----------

  datatype Item = Item(indent: nat, kind: Kind, key: string, value: string)

  function PrintItem(e: Item): string {
    PrintEntry(e.indent, e.kind, e.key, e.value)
  }

  function PrintAll(items: seq<Item>): (lines: seq<string>)
    ensures |lines| == |items| && forall i | 0 <= i < |items| :: lines[i] == PrintItem(items[i])
  {
    if items == [] then [] else [PrintItem(items[0])] + PrintAll(items[1..])
  }

  /** The nodes are the entries, each under the nearest earlier one that is indented less. */
  ghost predicate ComesBack(items: seq<Item>, nodes: seq<Option<Node>>) {
    |nodes| == |items| &&
    forall i | 0 <= i < |items| ::
      nodes[i].Some?
      && var node, e := nodes[i].value, items[i];
         node.kind == e.kind && node.key == e.key && node.value == e.value
         && node.parent == ParentOf(PrintAll(items), i)
  }

  lemma {:induction false} PrintedItemReads(items: seq<Item>, i: nat)
    requires i < |items| && Printable(items[i].kind, items[i].key, items[i].value)
    ensures var line, e := PrintAll(items)[i], items[i];
            !Skipped(line) && Indent(line) == e.indent && Read(line) == Entry(e.kind, e.key, e.value, e.value == "")
  {
    PrintedEntryReads(items[i].indent, items[i].kind, items[i].key, items[i].value);
  }

  lemma {:induction false} PrintedLinesComeBack(items: seq<Item>)
    requires forall e | e in items :: Printable(e.kind, e.key, e.value)
    ensures var lines := PrintAll(items);
            var r := Finish(Run(lines, |lines|));
            && (r.Data? <==> items != [] && (forall i | 0 <= i < |lines| :: LineFits(lines, i)) && Acceptable(lines))
            && (r.Data? ==> ComesBack(items, r.nodes))
  {
    hide Run, LineFits, Acceptable, AgreesAt, Read, Indent, Skipped, PrintEntry, ParentOf, ValidRoot;
    var lines := PrintAll(items);
    forall i | 0 <= i < |lines|
      ensures var e := items[i];
              Significant(lines, i) && Read(lines[i]) == Entry(e.kind, e.key, e.value, e.value == "")
    {
      PrintedItemReads(items, i);
    }
    AllSignificantAgree(lines);
    AcceptedFiles(lines);
    AcceptedExactly(lines);
    RunTied(lines, |lines|);
    if items != [] {
      assert Significant(lines, 0);
    }
    if Finish(Run(lines, |lines|)).Data? {
      ComesBackTied(items, Run(lines, |lines|).state.nodes);
    }
  }

  lemma {:induction false} ComesBackTied(items: seq<Item>, nodes: seq<Option<Node>>)
    requires |nodes| == |items| && NodesTied(PrintAll(items), nodes)
    requires forall i | 0 <= i < |items| ::
               var line, e := PrintAll(items)[i], items[i];
               !Skipped(line) && Read(line) == Entry(e.kind, e.key, e.value, e.value == "")
    ensures ComesBack(items, nodes)
  {
    hide Read, Skipped, PrintEntry, ParentOf;
    forall i | 0 <= i < |items| ensures NodeTied(PrintAll(items), i, nodes[i]) {
    }
  }

  lemma {:induction false} PrintedIsOneLine(e: Item)
    requires '\n' !in e.key && '\n' !in e.value
    ensures '\n' !in PrintItem(e)
  {
    var spaces := Spaces(e.indent);
    assert '\n' !in spaces;
    assert '\n' !in Body(e.key, e.value);
  }

  /** The text of a printed file. */
  function PrintFile(items: seq<Item>): string {
    Join(PrintAll(items), "\n") + "\n"
  }

  /** A file printed from entries comes back entry by entry, and it comes back exactly if its lines fit and its
      tree is acceptable. */
  lemma {:induction false} PrintedFileComesBack(items: seq<Item>)
    requires items != []
    requires forall e | e in items :: Printable(e.kind, e.key, e.value) && '\n' !in e.key && '\n' !in e.value
    ensures var lines, r := PrintAll(items), ParsedText(PrintFile(items));
            && (r.Data? <==> (forall i | 0 <= i < |lines| :: LineFits(lines, i)) && Acceptable(lines))
            && (r.Data? ==> ComesBack(items, r.nodes))
  {
    hide Run, LineFits, Acceptable, PrintItem, Join, Lines, ComesBack, Finish, Printable;
    var lines := PrintAll(items);
    forall l | l in lines ensures '\n' !in l {
      var i :| 0 <= i < |lines| && lines[i] == l;
      assert items[i] in items;
      PrintedIsOneLine(items[i]);
    }
    LinesComeBack(lines);
    PrintedLinesComeBack(items);
  }
}
