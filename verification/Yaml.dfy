/**
 * src/Lib/MyYAML/MyYAML.cpp, parseYaml, with Node.cpp: nodes, indents and states on three stacks.
 * A node is named by the line it comes from; a root has no line.
 */
module Yaml {
  import opened StringOps
  import opened YamlText

  datatype Parent = Root(generation: nat) | Line(index: nat)

  /** `closed`: setTypeValue has made the node a plain value, whatever its children. */
  datatype Node = Node(kind: Kind, key: string, value: string, parent: Parent, closed: bool)

  datatype State = State(nodes: seq<Option<Node>>, chain: seq<Parent>, indents: seq<int>, kinds: seq<Option<Kind>>,
                         roots: nat)

  datatype Reason = BadText | BadIndent | MixedKinds | BadNode | CannotPush | DuplicateKey | ValueAndChildren

  /** Undefined: top() or pop() of an empty stack. */
  datatype Outcome = Going(state: State) | Rejected(line: nat, reason: Reason) | Undefined

  function Last<T>(s: seq<T>): T
    requires s != []
  {
    s[|s| - 1]
  }

  function Drop<T>(s: seq<T>, n: nat): seq<T>
    requires n <= |s|
  {
    s[..|s| - n]
  }

  // ---------- nodes ----------

  predicate IsChild(node: Option<Node>, p: Parent) {
    node.Some? && node.value.parent == p
  }

  predicate IsClosed(nodes: seq<Option<Node>>, p: Parent) {
    p.Line? && p.index < |nodes| && nodes[p.index].Some? && nodes[p.index].value.closed
  }

  function Close(node: Option<Node>): Option<Node> {
    if node.Some? then Some(node.value.(closed := true)) else None
  }

  /** Node::terminateNode: every child becomes a value. */
  function Terminated(nodes: seq<Option<Node>>, p: Parent): seq<Option<Node>> {
    if IsClosed(nodes, p) then nodes
    else seq(|nodes|, i requires 0 <= i < |nodes| => if IsChild(nodes[i], p) then Close(nodes[i]) else nodes[i])
  }

  /** The kind of the first child, which later children must share. */
  function FirstKind(nodes: seq<Option<Node>>, p: Parent): Option<Kind> {
    if nodes == [] then None
    else
      var before := FirstKind(Drop(nodes, 1), p);
      if before.Some? then before
      else if IsChild(Last(nodes), p) then Some(Last(nodes).value.kind)
      else None
  }

  predicate HasKey(nodes: seq<Option<Node>>, p: Parent, key: string) {
    exists i | 0 <= i < |nodes| :: IsChild(nodes[i], p) && nodes[i].value.key == key
  }

  // ---------- one line ----------

  predicate Stacked(s: State) {
    s.indents != [] && |s.kinds| == |s.indents|
  }

  function Pops(indents: seq<int>, indent: int): (n: nat)
    ensures n < |indents| || n == 0
  {
    if |indents| > 1 && Last(indents) > indent then 1 + Pops(Drop(indents, 1), indent) else 0
  }

  /** Bring the stacks to the level of a line. */
  function Settle(s: State, line: nat, indent: nat, kind: Kind): (o: Outcome)
    requires Stacked(s)
    ensures o.Going? ==> Stacked(o.state)
  {
    if Last(s.indents) == indent then if Last(s.kinds) == Some(kind) then Going(s) else Rejected(line, MixedKinds)
    else if Last(s.indents) < indent then
      Going(s.(indents := s.indents + [indent], kinds := s.kinds + [Some(kind)]))
    else if s.chain == [] then Undefined
    else
      var n := Pops(s.indents, indent);
      if n > |s.chain| then Undefined
      else if Last(Drop(s.indents, n)) != indent then Rejected(line, BadIndent)
      else if Last(Drop(s.kinds, n)) != Some(kind) then Rejected(line, MixedKinds)
      else Going(s.(nodes := Terminated(s.nodes, Last(s.chain)), chain := Drop(s.chain, n),
                    indents := Drop(s.indents, n), kinds := Drop(s.kinds, n)))
  }

  /** Make the node, a root for it when there is none, and push it. */
  function Attach(s: State, line: nat, r: Reading): (o: Outcome)
    requires r.Entry?
    ensures o.Going? ==> o.state.indents == s.indents && o.state.kinds == s.kinds && o.state.chain != []
  {
    if r.key == "" && (r.kind == Map || r.value == "") then Rejected(line, BadNode)
    else
      var chain := if s.chain == [] then [Root(s.roots)] else s.chain;
      var roots := if s.chain == [] then s.roots + 1 else s.roots;
      var p := Last(chain);
      var first := FirstKind(s.nodes, p);
      if IsClosed(s.nodes, p) || (first.Some? && first.value != r.kind) then Rejected(line, CannotPush)
      else if r.kind == Map && HasKey(s.nodes, p, r.key) then Rejected(line, DuplicateKey)
      else Going(s.(chain := chain, roots := roots, nodes := s.nodes + [Some(Node(r.kind, r.key, r.value, p, false))]))
  }

  /** The next line, blank and comment lines included, is indented more. */
  predicate Deeper(lines: seq<string>, i: nat)
    requires i < |lines|
  {
    i + 1 < |lines| && Indent(lines[i]) < Indent(lines[i + 1])
  }

  function Ahead(s: State, lines: seq<string>, i: nat, opens: bool): Outcome
    requires i < |lines|
  {
    if !Deeper(lines, i) then Going(s)
    else if !opens then Rejected(i, ValueAndChildren)
    else Going(s.(chain := s.chain + [Line(i)]))
  }

  function Step(s: State, lines: seq<string>, i: nat): (o: Outcome)
    requires i < |lines| && Stacked(s)
    ensures o.Going? ==> Stacked(o.state)
  {
    if Skipped(lines[i]) then Going(s.(nodes := s.nodes + [None]))
    else
      var r := Read(lines[i]);
      if r.Broken? then Rejected(i, BadText)
      else
        var settled := Settle(s, i, Indent(lines[i]), r.kind);
        if !settled.Going? then settled
        else
          var attached := Attach(settled.state, i, r);
          if !attached.Going? then attached else Ahead(attached.state, lines, i, r.opens)
  }

  function Start(): State {
    State([], [], [-1], [None], 0)
  }

  function Run(lines: seq<string>, n: nat): (o: Outcome)
    requires n <= |lines|
    ensures o.Going? ==> Stacked(o.state)
  {
    if n == 0 then Going(Start())
    else
      var before := Run(lines, n - 1);
      if before.Going? then Step(before.state, lines, n - 1) else before
  }

  lemma {:induction false} RunStops(lines: seq<string>, n: nat, m: nat)
    requires n <= m <= |lines| && !Run(lines, n).Going?
    ensures Run(lines, m) == Run(lines, n)
    decreases m - n
  {
    if n < m { RunStops(lines, n, m - 1); }
  }

  // ---------- the finished tree ----------

  predicate Named(node: Node) {
    node.key != "" || (node.kind == Seq && node.value != "")
  }

  /** fixNode and isValidNode below one node; a closed or childless node is a value. Children come later. */
  predicate ValidNode(nodes: seq<Option<Node>>, i: nat)
    requires i < |nodes| && nodes[i].Some?
    decreases |nodes| - i
  {
    if nodes[i].value.closed || FirstKind(nodes, Line(i)).None? then nodes[i].value.value != ""
    else forall c | i < c < |nodes| && IsChild(nodes[c], Line(i)) :: Named(nodes[c].value) && ValidNode(nodes, c)
  }

  predicate ValidRoot(nodes: seq<Option<Node>>, root: Parent) {
    && FirstKind(nodes, root).Some?
    && forall c | 0 <= c < |nodes| && IsChild(nodes[c], root) :: Named(nodes[c].value) && ValidNode(nodes, c)
  }

  datatype Parsed = NoData | Data(nodes: seq<Option<Node>>, root: Parent) | Failed(line: nat, reason: Reason)
                  | InvalidTree | Crashed

  function Finish(o: Outcome): Parsed {
    match o
    case Undefined => Crashed
    case Rejected(line, reason) => Failed(line, reason)
    case Going(s) =>
      if s.roots == 0 then NoData
      else if ValidRoot(s.nodes, Root(s.roots - 1)) then Data(s.nodes, Root(s.roots - 1))
      else InvalidTree
  }

  /** The lines std::getline delivers: an LF ends a line, and the last line may do without. */
  function Lines(buf: string): seq<string> {
    if buf == "" then []
    else
      var pieces := Split(if buf[|buf| - 1] != '\n' then buf + "\n" else buf, '\n');
      Drop(pieces, 1)
  }

  lemma {:induction false} JoinOneMore(ls: seq<string>, x: string)
    requires ls != []
    ensures Join(ls + [x], "\n") == Join(ls, "\n") + "\n" + x
    decreases |ls|
  {
    var all := ls + [x];
    if |ls| == 1 {
      assert all[1..] == [x] && Join([x], "\n") == x;
    } else {
      assert all[1..] == ls[1..] + [x];
      JoinOneMore(ls[1..], x);
      Associates(ls[0] + "\n", Join(ls[1..], "\n") + "\n", x);
      Associates(ls[0] + "\n", Join(ls[1..], "\n"), "\n");
    }
  }

  lemma {:induction false} JoinEnds(ls: seq<string>)
    requires ls != [] && ls[|ls| - 1] != ""
    ensures Join(ls, "\n") != "" && Join(ls, "\n")[|Join(ls, "\n")| - 1] == ls[|ls| - 1][|ls[|ls| - 1]| - 1]
    decreases |ls|
  {
    if |ls| > 1 { JoinEnds(ls[1..]); }
  }

  /** Lines written one after another are read back, with or without an LF behind the last. */
  lemma {:induction false} LinesComeBack(ls: seq<string>)
    requires ls != [] && forall l | l in ls :: '\n' !in l
    ensures Lines(Join(ls, "\n") + "\n") == ls
    ensures ls[|ls| - 1] != "" ==> Lines(Join(ls, "\n")) == ls
    ensures Lines("") == []
  {
    hide Join, Split;
    var buf := Join(ls, "\n") + "\n";
    JoinOneMore(ls, "");
    assert buf + "" == buf && buf[|buf| - 1] == '\n';
    SplitJoin(ls + [""], '\n');
    assert Drop(ls + [""], 1) == ls;
    if ls[|ls| - 1] != "" {
      JoinEnds(ls);
      var last := ls[|ls| - 1];
      assert last in ls && last[|last| - 1] in last;
    }
  }

  /** What parseYaml makes of a file. */
  function ParsedText(buf: string): Parsed {
    Finish(Run(Lines(buf), |Lines(buf)|))
  }

  // ---------- the loop ----------

  lemma {:induction false} PopsMore(indents: seq<int>, indent: int, k: nat)
    requires k < |indents| && k <= Pops(indents, indent)
    ensures Pops(Drop(indents, k), indent) == Pops(indents, indent) - k
  {
    if k > 0 {
      PopsMore(Drop(indents, 1), indent, k - 1);
      assert Drop(Drop(indents, 1), k - 1) == Drop(indents, k);
    } else {
      assert Drop(indents, 0) == indents;
    }
  }

  /** Back out of closed levels; `undefined` when the node stack runs empty first. */
  method PopLevels(indents: seq<int>, kinds: seq<Option<Kind>>, chain: seq<Parent>, indent: nat)
    returns (undefined: bool, indents': seq<int>, kinds': seq<Option<Kind>>, chain': seq<Parent>)
    requires |indents| == |kinds| > 0
    ensures undefined <==> Pops(indents, indent) > |chain|
    ensures !undefined ==>
              var n := Pops(indents, indent);
              indents' == Drop(indents, n) && kinds' == Drop(kinds, n) && chain' == Drop(chain, n)
  {
    undefined := false;
    indents', kinds', chain' := indents, kinds, chain;
    ghost var k := 0;
    PopsMore(indents, indent, 0);
    while 1 < |indents'| && Last(indents') > indent
      invariant k <= |chain| && k <= Pops(indents, indent) && k < |indents|
      invariant indents' == Drop(indents, k) && kinds' == Drop(kinds, k) && chain' == Drop(chain, k)
      invariant Pops(indents', indent) == Pops(indents, indent) - k
      decreases |indents'|
    {
      if chain' == [] {
        undefined := true;
        return;
      }
      indents' := Drop(indents', 1);
      kinds' := Drop(kinds', 1);
      chain' := Drop(chain', 1);
      k := k + 1;
      PopsMore(indents, indent, k);
    }
  }

  /** Node::push, on the node at the top of the chain. */
  method Push(nodes: seq<Option<Node>>, p: Parent, key: string, value: string, kind: Kind)
    returns (reason: Option<Reason>, nodes': seq<Option<Node>>)
    ensures var first := FirstKind(nodes, p);
            reason == if IsClosed(nodes, p) || (first.Some? && first.value != kind) then Some(CannotPush)
                      else if kind == Map && HasKey(nodes, p, key) then Some(DuplicateKey)
                      else None
    ensures reason.None? ==> nodes' == nodes + [Some(Node(kind, key, value, p, false))]
  {
    nodes' := nodes;
    var first := FirstKind(nodes, p);
    var childKind := if first.Some? then first.value else kind;
    if IsClosed(nodes, p) {
      return Some(CannotPush), nodes;
    }
    if childKind != kind {
      return Some(CannotPush), nodes;
    }
    if childKind == Map && HasKey(nodes, p, key) {
      return Some(DuplicateKey), nodes;
    }
    return None, nodes + [Some(Node(kind, key, value, p, false))];
  }

  /** The stacks brought to the level of a line. */
  method Relevel(line: nat, nowIndent: nat, nowState: Kind, nodes: seq<Option<Node>>, chain: seq<Parent>,
                 indents: seq<int>, kinds: seq<Option<Kind>>, ghost roots: nat)
    returns (stop: Option<Outcome>, nodes': seq<Option<Node>>, chain': seq<Parent>, indents': seq<int>,
             kinds': seq<Option<Kind>>)
    requires |indents| == |kinds| > 0
    ensures var o := Settle(State(nodes, chain, indents, kinds, roots), line, nowIndent, nowState);
            if o.Going? then stop == None && o.state == State(nodes', chain', indents', kinds', roots) else stop == Some(o)
  {
    nodes', chain', indents', kinds' := nodes, chain, indents, kinds;
    stop := None;
    if Last(indents) == nowIndent {
      if Last(kinds) != Some(nowState) {
        stop := Some(Rejected(line, MixedKinds));
      }
    } else if Last(indents) < nowIndent {
      indents' := indents + [nowIndent];
      kinds' := kinds + [Some(nowState)];
    } else {
      if chain == [] {
        stop := Some(Undefined);
        return;
      }
      nodes' := Terminated(nodes, Last(chain));
      var undefined;
      undefined, indents', kinds', chain' := PopLevels(indents, kinds, chain, nowIndent);
      if undefined {
        stop := Some(Undefined);
      } else if Last(indents') != nowIndent {
        stop := Some(Rejected(line, BadIndent));
      } else if Last(kinds') != Some(nowState) {
        stop := Some(Rejected(line, MixedKinds));
      }
    }
  }

  /** parseYaml over the lines of a file. */
  method ParseLines(lines: seq<string>) returns (result: Parsed)
    ensures result == Finish(Run(lines, |lines|))
  {
    hide Settle, Terminated, FirstKind, HasKey, Read, Skipped, ValidRoot, IsClosed;
    var nodes: seq<Option<Node>>, chain: seq<Parent>, prevIndent, prevStates := [], [], [-1], [None];
    var roots: nat := 0;
    for idx := 0 to |lines|
      invariant Run(lines, idx) == Going(State(nodes, chain, prevIndent, prevStates, roots))
      invariant |prevIndent| == |prevStates| > 0
    {
      ghost var s := State(nodes, chain, prevIndent, prevStates, roots);
      ghost var o := Run(lines, idx + 1);
      assert o == Step(s, lines, idx);
      if !o.Going? {
        RunStops(lines, idx + 1, |lines|);
      }
      if Skipped(lines[idx]) {
        nodes := nodes + [None];
        continue;
      }
      var nowIndent := StartCharCount(lines[idx]);
      var r := Read(lines[idx]);
      if r.Broken? {
        return Failed(idx, BadText);
      }
      var stop;
      stop, nodes, chain, prevIndent, prevStates :=
        Relevel(idx, nowIndent, r.kind, nodes, chain, prevIndent, prevStates, roots);
      if stop.Some? {
        return Finish(stop.value);
      }
      if r.key == "" && (r.kind == Map || r.value == "") {
        return Failed(idx, BadNode);
      }
      if chain == [] {
        chain := [Root(roots)];
        roots := roots + 1;
      }
      var reason;
      reason, nodes := Push(nodes, Last(chain), r.key, r.value, r.kind);
      if reason.Some? {
        return Failed(idx, reason.value);
      }
      if idx + 1 < |lines| {
        var nextIndent := StartCharCount(lines[idx + 1]);
        if nowIndent < nextIndent {
          if !r.opens {
            return Failed(idx, ValueAndChildren);
          }
          chain := chain + [Line(idx)];
        }
      }
    }
    if roots == 0 {
      return NoData;
    }
    if ValidRoot(nodes, Root(roots - 1)) {
      return Data(nodes, Root(roots - 1));
    }
    return InvalidTree;
  }

  method ParseYaml(buf: string) returns (result: Parsed)
    ensures result == ParsedText(buf)
  {
    if buf == "" {
      return NoData;
    }
    var text := if buf[|buf| - 1] != '\n' then buf + "\n" else buf;
    var lines := SplitTokens(text, '\n');
    result := ParseLines(Drop(lines, 1));
  }
}
