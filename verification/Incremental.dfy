/** Decoders that eat their input from the front of a receive buffer, one move at a time.
    When a move that can be made is never changed by bytes that arrive later, a whole run
    does not depend on how its input was cut into pieces. */
module Incremental {
  import StringOps

  /** One move: nothing can be done yet, `n` bytes are taken off the front, or an error. */
  datatype Move<+S> = Stuck | Took(next: S, n: nat) | Failed(next: S)

  type Mover<!S> = (S, string) -> Move<S>

  datatype Outcome<+S> = Outcome(s: S, consumed: nat, failed: bool)

  /** Moves stay inside the buffer, and those that take nothing lower a rank. */
  ghost predicate Progress<S(!new)>(move: Mover<S>, rank: S -> nat) {
    forall s, b :: move(s, b).Took? ==>
      move(s, b).n <= |b| && (move(s, b).n > 0 || rank(move(s, b).next) < rank(s))
  }

  /** The move made on `a` is still the move when `b` has arrived too. */
  ghost predicate Unmoved<S>(move: Mover<S>, s: S, a: string, b: string) {
    !move(s, a).Stuck? ==> move(s, a + b) == move(s, a)
  }

  ghost predicate Stable<S(!new)>(move: Mover<S>) {
    forall s, a, b :: Unmoved(move, s, a, b)
  }

  /** Moves until the machine is stuck or fails. */
  ghost function Run<S(!new)>(move: Mover<S>, rank: S -> nat, s: S, buf: string): (o: Outcome<S>)
    requires Progress(move, rank)
    ensures o.consumed <= |buf|
    decreases |buf|, rank(s)
  {
    match move(s, buf)
    case Stuck => Outcome(s, 0, false)
    case Failed(t) => Outcome(t, 0, true)
    case Took(t, n) => var o := Run(move, rank, t, buf[n..]); o.(consumed := n + o.consumed)
  }

  lemma {:induction false} RunTakes<S(!new)>(move: Mover<S>, rank: S -> nat, s: S, buf: string, t: S, n: nat)
    requires Progress(move, rank) && move(s, buf) == Took(t, n)
    ensures n <= |buf|
    ensures Run(move, rank, s, buf)
         == var o := Run(move, rank, t, buf[n..]); Outcome(o.s, n + o.consumed, o.failed)
  {
  }

  lemma {:induction false} RunEnds<S(!new)>(move: Mover<S>, rank: S -> nat, s: S, buf: string)
    requires Progress(move, rank)
    ensures match move(s, buf)
            case Stuck => Run(move, rank, s, buf) == Outcome(s, 0, false)
            case Failed(t) => Run(move, rank, s, buf) == Outcome(t, 0, true)
            case Took(_, _) => true
  {
  }

  /** A run from `s0` on `buf` gets to state `s` with `k` bytes consumed. */
  ghost predicate Reached<S(!new)>(move: Mover<S>, rank: S -> nat, s0: S, buf: string, s: S, k: nat)
    requires Progress(move, rank)
  {
    && k <= |buf|
    && var o := Run(move, rank, s, buf[k..]);
       Run(move, rank, s0, buf) == Outcome(o.s, k + o.consumed, o.failed)
  }

  lemma {:induction false} ReachedNext<S(!new)>(move: Mover<S>, rank: S -> nat, s0: S, buf: string, s: S, k: nat, t: S, n: nat)
    requires Progress(move, rank) && Reached(move, rank, s0, buf, s, k)
    requires move(s, buf[k..]) == Took(t, n)
    ensures Reached(move, rank, s0, buf, t, k + n)
  {
    RunTakes(move, rank, s, buf[k..], t, n);
    DropTwice(buf, k, n);
  }

  lemma {:induction false} ReachedEnd<S(!new)>(move: Mover<S>, rank: S -> nat, s0: S, buf: string, s: S, k: nat)
    requires Progress(move, rank) && Reached(move, rank, s0, buf, s, k)
    ensures match move(s, buf[k..])
            case Stuck => Run(move, rank, s0, buf) == Outcome(s, k, false)
            case Failed(t) => Run(move, rank, s0, buf) == Outcome(t, k, true)
            case Took(_, _) => true
  {
  }

  lemma {:induction false} DropTwice(s: string, k: nat, m: nat)
    requires k + m <= |s|
    ensures s[k..][m..] == s[k + m..]
  {
  }

  // ---------- receiving in pieces ----------

  /** The state, the bytes not yet consumed, and whether the run has failed. */
  datatype Conn<+S> = Conn(s: S, buffer: string, failed: bool)

  /** One receipt: append, run, erase what was consumed. On failure nothing is erased, and
      afterwards nothing is decoded any more. */
  ghost function Receive<S(!new)>(move: Mover<S>, rank: S -> nat, c: Conn<S>, piece: string): Conn<S>
    requires Progress(move, rank)
  {
    var buf := c.buffer + piece;
    if c.failed then c.(buffer := buf)
    else
      var o := Run(move, rank, c.s, buf);
      Conn(o.s, if o.failed then buf else buf[o.consumed..], o.failed)
  }

  ghost function ReceiveAll<S(!new)>(
      move: Mover<S>, rank: S -> nat, c: Conn<S>, pieces: seq<string>): Conn<S>
    requires Progress(move, rank)
    decreases |pieces|
  {
    if pieces == [] then c
    else ReceiveAll(move, rank, Receive(move, rank, c, pieces[0]), pieces[1..])
  }

  function Concat(pieces: seq<string>): string {
    if pieces == [] then "" else pieces[0] + Concat(pieces[1..])
  }

  /** The same state and verdict, and the same leftover unless the run failed. */
  ghost predicate SameEnd<S>(c: Conn<S>, d: Conn<S>) {
    c.s == d.s && c.failed == d.failed && (!c.failed ==> c.buffer == d.buffer)
  }

  lemma {:induction false} RunSplits<S(!new)>(move: Mover<S>, rank: S -> nat, s: S, a: string, b: string)
    requires Progress(move, rank) && Stable(move)
    ensures var o, w := Run(move, rank, s, a), Run(move, rank, s, a + b);
            if o.failed then w.s == o.s && w.failed
            else
              var p := Run(move, rank, o.s, a[o.consumed..] + b);
              w == Outcome(p.s, o.consumed + p.consumed, p.failed)
    decreases |a|, rank(s)
  {
    hide Run;
    assert Unmoved(move, s, a, b);
    match move(s, a)
    case Stuck =>
      RunEnds(move, rank, s, a);
      assert a[0..] + b == a + b;
    case Failed(_) =>
      RunEnds(move, rank, s, a);
      RunEnds(move, rank, s, a + b);
    case Took(t, n) =>
      RunTakes(move, rank, s, a, t, n);
      RunTakes(move, rank, s, a + b, t, n);
      RunSplits(move, rank, t, a[n..], b);
      assert (a + b)[n..] == a[n..] + b;
      DropTwice(a, n, Run(move, rank, t, a[n..]).consumed);
  }

  lemma {:induction false} ReceiveTwice<S(!new)>(move: Mover<S>, rank: S -> nat, c: Conn<S>, a: string, b: string)
    requires Progress(move, rank) && Stable(move) && !c.failed
    ensures SameEnd(Receive(move, rank, Receive(move, rank, c, a), b), Receive(move, rank, c, a + b))
  {
    hide Run;
    var x := c.buffer + a;
    StringOps.Associates(c.buffer, a, b);
    RunSplits(move, rank, c.s, x, b);
    var o := Run(move, rank, c.s, x);
    if !o.failed {
      var y := x[o.consumed..] + b;
      assert (x + b)[o.consumed..] == y;
      DropTwice(x + b, o.consumed, Run(move, rank, o.s, y).consumed);
    }
  }

  lemma {:induction false} ReceiveAllAfterFailure<S(!new)>(
      move: Mover<S>, rank: S -> nat, c: Conn<S>, pieces: seq<string>)
    requires Progress(move, rank) && c.failed
    ensures var d := ReceiveAll(move, rank, c, pieces); d.s == c.s && d.failed
    decreases |pieces|
  {
    if pieces != [] {
      ReceiveAllAfterFailure(move, rank, Receive(move, rank, c, pieces[0]), pieces[1..]);
    }
  }

  /** Segmentation does not matter: any non-empty split ends as one receipt of everything. */
  lemma {:induction false} SegmentationIndependent<S(!new)>(
      move: Mover<S>, rank: S -> nat, c: Conn<S>, pieces: seq<string>)
    requires Progress(move, rank) && Stable(move) && !c.failed && pieces != []
    ensures SameEnd(ReceiveAll(move, rank, c, pieces), Receive(move, rank, c, Concat(pieces)))
    decreases |pieces|
  {
    var p, rest := pieces[0], pieces[1..];
    var d := Receive(move, rank, c, p);
    ReceiveTwice(move, rank, c, p, Concat(rest));
    if rest == [] {
      assert p + "" == p;
    } else if d.failed {
      ReceiveAllAfterFailure(move, rank, d, rest);
    } else {
      SegmentationIndependent(move, rank, d, rest);
    }
  }

  lemma {:induction false} LeftoverOfOne<S(!new)>(move: Mover<S>, rank: S -> nat, c: Conn<S>, piece: string)
      returns (consumed: string)
    requires Progress(move, rank)
    ensures consumed + Receive(move, rank, c, piece).buffer == c.buffer + piece
  {
    var buf, left := c.buffer + piece, Receive(move, rank, c, piece).buffer;
    consumed := buf[..|buf| - |left|];
  }

  /** What has been consumed, followed by the leftover, is what was received: bytes leave
      only from the front, in order. */
  lemma {:induction false} NothingIsLost<S(!new)>(
      move: Mover<S>, rank: S -> nat, c: Conn<S>, pieces: seq<string>) returns (consumed: string)
    requires Progress(move, rank)
    ensures consumed + ReceiveAll(move, rank, c, pieces).buffer == c.buffer + Concat(pieces)
    decreases |pieces|
  {
    if pieces == [] {
      consumed := "";
    } else {
      var first := LeftoverOfOne(move, rank, c, pieces[0]);
      var more := NothingIsLost(move, rank, Receive(move, rank, c, pieces[0]), pieces[1..]);
      consumed := first + more;
      StringOps.Regroup(c.buffer, pieces[0], Concat(pieces[1..]), first,
        Receive(move, rank, c, pieces[0]).buffer, more, ReceiveAll(move, rank, c, pieces).buffer);
    }
  }

  /** Moves lead from states with `inv` to states with `inv`, and failures to `fin`. */
  ghost predicate Keeps<S(!new)>(move: Mover<S>, inv: S -> bool, fin: S -> bool) {
    forall s, b | inv(s) ::
      match move(s, b) case Stuck => true case Took(t, _) => inv(t) case Failed(t) => fin(t)
  }

  lemma {:induction false} RunKeeps<S(!new)>(
      move: Mover<S>, rank: S -> nat, inv: S -> bool, fin: S -> bool, s: S, buf: string)
    requires Progress(move, rank) && Keeps(move, inv, fin) && inv(s)
    ensures var o := Run(move, rank, s, buf); if o.failed then fin(o.s) else inv(o.s)
    decreases |buf|, rank(s)
  {
    match move(s, buf)
    case Took(t, n) => RunKeeps(move, rank, inv, fin, t, buf[n..]);
    case _ =>
  }

  /** What every move keeps, every run over every segmentation keeps. */
  lemma {:induction false} ReceiveAllKeeps<S(!new)>(
      move: Mover<S>, rank: S -> nat, inv: S -> bool, fin: S -> bool, c: Conn<S>, pieces: seq<string>)
    requires Progress(move, rank) && Keeps(move, inv, fin)
    requires if c.failed then fin(c.s) else inv(c.s)
    ensures var d := ReceiveAll(move, rank, c, pieces); if d.failed then fin(d.s) else inv(d.s)
    decreases |pieces|
  {
    if pieces != [] {
      if !c.failed { RunKeeps(move, rank, inv, fin, c.s, c.buffer + pieces[0]); }
      ReceiveAllKeeps(move, rank, inv, fin, Receive(move, rank, c, pieces[0]), pieces[1..]);
    }
  }
}
