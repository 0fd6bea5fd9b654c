/** When parseYaml takes from an empty stack, in terms of the lines alone. */
module YamlStacks {
  import opened StringOps
  import opened YamlText
  import opened Yaml
  import opened YamlTree

  /** How many of the open lines are indented more than `indent`: the levels a line steps out of. */
  ghost function StepsOut(lines: seq<string>, path: seq<nat>, indent: nat): nat {
    if path != [] && IndentAt(lines, Last(path)) > indent then 1 + StepsOut(lines, Drop(path, 1), indent) else 0
  }

  /** How many nodes the chain holds: one for every raw line ahead that was indented more, less the levels
      stepped out of, and a root where none is left. */
  ghost function Held(lines: seq<string>, n: nat): nat
    requires n <= |lines|
  {
    if n == 0 then 0
    else
      var before := Held(lines, n - 1);
      if Skipped(lines[n - 1]) then before
      else
        var out := StepsOut(lines, Open(lines, n - 1), Indent(lines[n - 1]));
        (if out < before then before - out else 1) + if Deeper(lines, n - 1) then 1 else 0
  }

  /** The line steps out of more levels than nodes are held. */
  ghost predicate Underflows(lines: seq<string>, n: nat)
    requires n < |lines|
  {
    !Skipped(lines[n]) && Read(lines[n]).Entry? && Held(lines, n) < StepsOut(lines, Open(lines, n), Indent(lines[n]))
  }

  lemma {:induction false} PopsAreStepsOut(lines: seq<string>, path: seq<nat>, indents: seq<int>, kinds: seq<Option<Kind>>,
                                           indent: nat)
    requires Levels(lines, path, indents, kinds)
    ensures Pops(indents, indent) == StepsOut(lines, path, indent)
    ensures StepsOut(lines, path, indent) > 0 <==> Last(indents) > indent
  {
    hide IndentAt, KindAt;
    if path != [] {
      assert IndentAt(lines, path[|path| - 1]) == indents[|path|];
      PopsAreStepsOut(lines, Drop(path, 1), Drop(indents, 1), Drop(kinds, 1), indent);
    }
  }

  /** The stacks of indents and states do not depend on the look ahead. */
  lemma {:induction false} SettleLevels(lines: seq<string>, n: nat, s: State, kind: Kind)
    requires n < |lines| && KindAt(lines, n) == Some(kind) && Levels(lines, Open(lines, n), s.indents, s.kinds)
    requires Settle(s, n, Indent(lines[n]), kind).Going?
    ensures var t := Settle(s, n, Indent(lines[n]), kind).state;
            Levels(lines, Shallower(lines, Open(lines, n), Indent(lines[n])) + [n], t.indents, t.kinds)
  {
    hide Skipped, Indent, KindAt, Deeper, Open, Climbing, Shallower, Pops, Terminated;
    var path, indent := Open(lines, n), Indent(lines[n]);
    OpenClimbs(lines, n);
    var m, k := Pops(s.indents, indent), |path| - 1;
    PopsReach(lines, path, s.indents, s.kinds, indent);
    assert path != [] ==> IndentAt(lines, path[k]) == s.indents[k + 1];
    if Last(s.indents) < indent {
      ShallowerTop(lines, path, n, indent);
      LevelsGrown(lines, path, s.indents, s.kinds, n);
    } else {
      var j := if Last(s.indents) == indent then k else k - m;
      assert IndentAt(lines, path[j]) == s.indents[j + 1] == indent;
      ShallowerBelow(lines, path, n, indent, j);
      LevelsReplaced(lines, path, s.indents, s.kinds, j, n);
      assert s.indents[..k + 2] == s.indents && s.kinds[..k + 2] == s.kinds;
    }
  }

  lemma {:induction false} ShallowerTop(lines: seq<string>, path: seq<nat>, n: nat, indent: nat)
    requires path != [] ==> IndentAt(lines, path[|path| - 1]) < indent
    ensures Shallower(lines, path, indent) == path
  {
    hide IndentAt;
  }

  ghost predicate Counted(lines: seq<string>, n: nat, s: State)
    requires n <= |lines|
  {
    Levels(lines, Open(lines, n), s.indents, s.kinds) && |s.chain| == Held(lines, n)
  }

  lemma {:induction false} SettleCounts(lines: seq<string>, n: nat, s: State, kind: Kind)
    requires n < |lines| && Counted(lines, n, s)
    ensures var o, out := Settle(s, n, Indent(lines[n]), kind), StepsOut(lines, Open(lines, n), Indent(lines[n]));
            (o.Undefined? <==> Held(lines, n) < out)
            && (o.Going? ==> |o.state.chain| == Held(lines, n) - out)
  {
    hide Indent, Open, Held, Levels, StepsOut, Pops, Terminated, IndentAt, KindAt;
    PopsAreStepsOut(lines, Open(lines, n), s.indents, s.kinds, Indent(lines[n]));
  }

  lemma {:induction false} StepCounts(lines: seq<string>, n: nat, s: State)
    requires n < |lines| && Counted(lines, n, s) && Stacked(s)
    ensures var o := Step(s, lines, n);
            (o.Undefined? <==> Underflows(lines, n)) && (o.Going? ==> Counted(lines, n + 1, o.state))
  {
    hide Indent, Levels, StepsOut, Settle, Attach, Ahead, Deeper, Skipped, Shallower, Open, Held, Read;
    var r := Read(lines[n]);
    NextLine(lines, n);
    if !Skipped(lines[n]) && r.Entry? {
      KindIs(lines, n);
      SettleCounts(lines, n, s, r.kind);
      var settled := Settle(s, n, Indent(lines[n]), r.kind);
      if settled.Going? {
        SettleLevels(lines, n, s, r.kind);
        AttachCounts(lines, n, settled.state, r);
      }
    }
  }

  lemma {:induction false} KindIs(lines: seq<string>, n: nat)
    requires n < |lines| && Read(lines[n]).Entry?
    ensures KindAt(lines, n) == Some(Read(lines[n]).kind)
  {
  }

  lemma {:induction false} NextLine(lines: seq<string>, n: nat)
    requires n < |lines|
    ensures Skipped(lines[n]) ==> Open(lines, n + 1) == Open(lines, n) && Held(lines, n + 1) == Held(lines, n)
    ensures !Skipped(lines[n]) ==>
              var out := StepsOut(lines, Open(lines, n), Indent(lines[n]));
              && Open(lines, n + 1) == Shallower(lines, Open(lines, n), Indent(lines[n])) + [n]
              && Held(lines, n + 1) == (if out < Held(lines, n) then Held(lines, n) - out else 1)
                                       + if Deeper(lines, n) then 1 else 0
  {
    hide Indent, StepsOut, Deeper, Skipped, Shallower;
  }

  lemma {:induction false} AttachCounts(lines: seq<string>, n: nat, t: State, r: Reading)
    requires n < |lines| && r.Entry?
    ensures var a := Attach(t, n, r);
            && !a.Undefined?
            && (a.Going? ==>
                  var o := Ahead(a.state, lines, n, r.opens);
                  && !o.Undefined?
                  && (o.Going? ==>
                        && o.state.indents == t.indents && o.state.kinds == t.kinds
                        && |o.state.chain| == (if t.chain == [] then 1 else |t.chain|) + if Deeper(lines, n) then 1 else 0))
  {
    hide FirstKind, HasKey, IsClosed, Deeper;
  }

  lemma {:induction false} RunCounts(lines: seq<string>, n: nat)
    requires n <= |lines| && Run(lines, n).Going?
    ensures Counted(lines, n, Run(lines, n).state)
  {
    hide Step, Counted;
    if n == 0 {
      StartCounted(lines);
    } else {
      RunCounts(lines, n - 1);
      StepCounts(lines, n - 1, Run(lines, n - 1).state);
    }
  }

  lemma {:induction false} StartCounted(lines: seq<string>)
    ensures Counted(lines, 0, Start())
  {
  }

  lemma {:induction false} GoingMeansNoUnderflow(lines: seq<string>, n: nat, i: nat)
    requires i < n <= |lines| && Run(lines, n).Going?
    ensures Run(lines, i).Going? && !Underflows(lines, i)
    decreases n
  {
    hide Step, Underflows, Counted;
    assert Run(lines, n - 1).Going?;
    if i < n - 1 {
      GoingMeansNoUnderflow(lines, n - 1, i);
    } else {
      RunCounts(lines, i);
      StepCounts(lines, i, Run(lines, i).state);
    }
  }

  /** The stacks underflow exactly if the run reaches a line that steps out of more levels than it holds nodes. */
  lemma {:induction false} UndefinedExactly(lines: seq<string>, n: nat)
    requires n <= |lines|
    ensures Run(lines, n).Undefined? <==> exists i | 0 <= i < n :: Run(lines, i).Going? && Underflows(lines, i)
  {
    hide Step, Underflows, Counted;
    if n > 0 {
      UndefinedExactly(lines, n - 1);
      if Run(lines, n - 1).Going? {
        RunCounts(lines, n - 1);
        StepCounts(lines, n - 1, Run(lines, n - 1).state);
        forall i | 0 <= i < n - 1 ensures !Underflows(lines, i) {
          GoingMeansNoUnderflow(lines, n - 1, i);
        }
      }
    }
  }
}
