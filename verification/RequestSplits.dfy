/** When two splits of the same bytes end alike, trips of the size checks included. */
module RequestSplits {
  import opened StringOps
  import opened Http
  import opened Incremental
  import opened RequestHead
  import opened RequestBody
  import opened RequestMachine
  import opened RequestRuns

  /** Over all receipts, tripping or not, the phases only move forward. */
  lemma {:induction false} PhaseForwardOverRuns(max: nat, lims: Limits, c: Conn<Request>, pieces: seq<string>)
    ensures Stage(c.s.phase) <= Stage(GuardedAll(max, lims, c, pieces).s.phase)
    decreases |pieces|
  {
    if pieces != [] {
      GuardedForward(max, lims, c, pieces[0]);
      PhaseForwardOverRuns(max, lims, Guarded(max, lims, c, pieces[0]), pieces[1..]);
    }
  }

  lemma {:induction false} GuardedForward(max: nat, lims: Limits, c: Conn<Request>, piece: string)
    ensures Stage(c.s.phase) <= Stage(Guarded(max, lims, c, piece).s.phase)
  {
    hide RequestMove;
    MachineProgress(lims);
    PhaseOnlyForward(lims, c.s, c.buffer + piece);
  }

  // ---------- where a run trips ----------

  lemma {:induction false} LineRunEnds(lims: Limits, r: Request, buf: string)
    requires r.phase.LinePhase?
    ensures var o, move := RunRequest(lims, r, buf), LineMove(r, buf);
            && (move.Stuck? ==> o == Outcome(r, 0, false))
            && (move.Failed? ==> o.failed)
            && (move.Took? ==>
                  move.next.phase.HeadersPhase? && move.n <= |buf| &&
                  var p := RunRequest(lims, move.next, buf[move.n..]); o == Outcome(p.s, move.n + p.consumed, p.failed))
  {
    MachineProgress(lims);
  }

  /** In the header phase nothing changes until the headers are complete. */
  lemma {:induction false} HeadersRunEnds(lims: Limits, r: Request, buf: string)
    requires r.phase.HeadersPhase?
    ensures var o := RunRequest(lims, r, buf);
            o.s.phase.HeadersPhase? && !o.failed ==> o == Outcome(r, 0, false)
  {
    MachineProgress(lims);
    if HeadersMove(r, buf).Took? {
      PhaseOnlyForward(lims, HeadersMove(r, buf).next, buf[HeadersMove(r, buf).n..]);
    }
  }

  /** The request as a trip leaves it: as it was, or with its line read from `text`. */
  ghost predicate TripState(r: Request, text: string, end: Request) {
    match end.phase
    case LinePhase => r.phase.LinePhase? && end == r.(code := HEADER_FIELDS_TOO_LARGE)
    case HeadersPhase =>
      if r.phase.HeadersPhase? then end == r.(code := HEADER_FIELDS_TOO_LARGE)
      else
        && r.phase.LinePhase? && LineMove(r, text).Took?
        && end == LineMove(r, text).next.(code := HEADER_FIELDS_TOO_LARGE)
    case _ => false
  }

  lemma {:induction false} LineMoveStable(lims: Limits, r: Request, buf: string, more: string)
    requires r.phase.LinePhase? && !LineMove(r, buf).Stuck?
    ensures LineMove(r, buf + more) == LineMove(r, buf)
  {
    RequestMoveStable(lims, r, buf, more);
  }

  lemma {:induction false} TripStateStable(lims: Limits, r: Request, text: string, more: string, end: Request)
    requires TripState(r, text, end)
    ensures TripState(r, text + more, end)
  {
    hide LineMove;
    if r.phase.LinePhase? && end.phase.HeadersPhase? {
      LineMoveStable(lims, r, text, more);
    }
  }

  lemma {:induction false} TripsOnce(max: nat, lims: Limits, c: Conn<Request>, piece: string)
    requires Trips(max, lims, c, piece)
    ensures var d := Guarded(max, lims, c, piece); d.failed && TripState(c.s, c.buffer + piece, d.s)
  {
    hide LineMove, RunRequest;
    var buf := c.buffer + piece;
    PhaseOnlyForward(lims, c.s, buf);
    if c.s.phase.HeadersPhase? {
      HeadersRunEnds(lims, c.s, buf);
    }
  }

  /** A run that trips later trips as it would from its start. */
  lemma {:induction false} TripsLater(max: nat, lims: Limits, c: Conn<Request>, piece: string, more: string, end: Request)
    requires !c.failed && !Trips(max, lims, c, piece)
    requires var d := Guarded(max, lims, c, piece); !d.failed && TripState(d.s, d.buffer + more, end)
    ensures TripState(c.s, c.buffer + (piece + more), end)
  {
    hide LineMove, RequestMove;
    var buf := c.buffer + piece;
    var o := RunRequest(lims, c.s, buf);
    GuardedIs(max, lims, c, piece);
    PhaseOnlyForward(lims, c.s, buf);
    assert buf + more == c.buffer + (piece + more);
    if c.s.phase.LinePhase? {
      LineRunEnds(lims, c.s, buf);
      var move := LineMove(c.s, buf);
      if move.Took? {
        HeadersRunEnds(lims, move.next, buf[move.n..]);
        PhaseOnlyForward(lims, move.next, buf[move.n..]);
        LineMoveStable(lims, c.s, buf, more);
      } else {
        assert buf[0..] == buf;
      }
    } else if c.s.phase.HeadersPhase? {
      HeadersRunEnds(lims, c.s, buf);
    }
  }

  lemma {:induction false} GuardedIs(max: nat, lims: Limits, c: Conn<Request>, piece: string)
    requires !c.failed && !Trips(max, lims, c, piece)
    ensures var buf, o := c.buffer + piece, RunRequest(lims, c.s, c.buffer + piece);
            Guarded(max, lims, c, piece) == Conn(o.s, if o.failed then buf else buf[o.consumed..], o.failed)
  {
    MachineProgress(lims);
  }

  lemma {:induction false} TrippedState(max: nat, lims: Limits, c: Conn<Request>, pieces: seq<string>)
    requires !c.failed && TripsAll(max, lims, c, pieces)
    ensures var d := GuardedAll(max, lims, c, pieces);
            d.failed && TripState(c.s, c.buffer + Concat(pieces), d.s)
    decreases |pieces|
  {
    hide TripState, Guarded, Trips;
    var d, rest := Guarded(max, lims, c, pieces[0]), pieces[1..];
    var end := GuardedAll(max, lims, c, pieces).s;
    if Trips(max, lims, c, pieces[0]) {
      TripsOnce(max, lims, c, pieces[0]);
      FailedStaysFailed(max, lims, d, rest);
      TripStateStable(lims, c.s, c.buffer + pieces[0], Concat(rest), end);
      assert c.buffer + pieces[0] + Concat(rest) == c.buffer + Concat(pieces);
    } else {
      if d.failed {
        FailedStaysFailed(max, lims, d, rest);
      } else {
        TrippedState(max, lims, d, rest);
        TripsLater(max, lims, c, pieces[0], Concat(rest), end);
      }
    }
  }

  // ---------- the receipt at which a run trips ----------

  /** The number of receipts before the one that trips. */
  ghost function FirstTrip(max: nat, lims: Limits, c: Conn<Request>, pieces: seq<string>): (k: nat)
    requires TripsAll(max, lims, c, pieces)
    ensures k < |pieces|
    decreases |pieces|
  {
    if Trips(max, lims, c, pieces[0]) then 0 else 1 + FirstTrip(max, lims, Guarded(max, lims, c, pieces[0]), pieces[1..])
  }

  /** The receipt that trips comes before any other, or meets bytes without an end of line. */
  ghost predicate TripsInLine(max: nat, lims: Limits, c: Conn<Request>, pieces: seq<string>)
    requires TripsAll(max, lims, c, pieces)
  {
    var k := FirstTrip(max, lims, c, pieces);
    c.s.phase.LinePhase? && (k == 0 || Find(c.buffer + Concat(pieces[..k]), CRLF, 0).None?)
  }

  /** Whether the end of the line is among the bytes of a receipt that does not trip decides the phase behind it. */
  lemma {:induction false} LineOpenAfter(max: nat, lims: Limits, c: Conn<Request>, piece: string)
    requires !c.failed && !Trips(max, lims, c, piece) && !Guarded(max, lims, c, piece).failed
    ensures var d := Guarded(max, lims, c, piece);
            && (d.s.phase.LinePhase? <==> c.s.phase.LinePhase? && Find(c.buffer + piece, CRLF, 0).None?)
            && (d.s.phase.LinePhase? ==> d == Conn(c.s, c.buffer + piece, false))
  {
    hide RequestMove;
    var buf := c.buffer + piece;
    GuardedIs(max, lims, c, piece);
    PhaseOnlyForward(lims, c.s, buf);
    if c.s.phase.LinePhase? {
      LineRunEnds(lims, c.s, buf);
      if LineMove(c.s, buf).Took? {
        PhaseOnlyForward(lims, LineMove(c.s, buf).next, buf[LineMove(c.s, buf).n..]);
      }
      assert buf[0..] == buf;
    }
  }

  lemma {:induction false} TripsAtOnceInLine(max: nat, lims: Limits, c: Conn<Request>, piece: string)
    requires Trips(max, lims, c, piece)
    ensures Guarded(max, lims, c, piece).s.phase.LinePhase? <==> c.s.phase.LinePhase?
  {
    hide RequestMove;
    MachineProgress(lims);
    PhaseOnlyForward(lims, c.s, c.buffer + piece);
  }

  lemma {:induction false} ConcatFirst(a: string, pieces: seq<string>, k: nat)
    requires 0 < k <= |pieces|
    ensures a + Concat(pieces[..k]) == a + pieces[0] + Concat(pieces[1..][..k - 1])
    ensures Concat(pieces[1..][..0]) == ""
  {
    assert pieces[..k][1..] == pieces[1..][..k - 1];
    Associates(a, pieces[0], Concat(pieces[1..][..k - 1]));
  }

  lemma {:induction false} TripPhase(max: nat, lims: Limits, c: Conn<Request>, pieces: seq<string>)
    requires !c.failed && TripsAll(max, lims, c, pieces)
    ensures GuardedAll(max, lims, c, pieces).s.phase.LinePhase? <==> TripsInLine(max, lims, c, pieces)
    decreases |pieces|
  {
    hide Guarded, Trips, Concat, Find;
    var d, rest := Guarded(max, lims, c, pieces[0]), pieces[1..];
    if Trips(max, lims, c, pieces[0]) {
      TripsAtOnceInLine(max, lims, c, pieces[0]);
      TripsOnce(max, lims, c, pieces[0]);
      FailedStaysFailed(max, lims, d, rest);
    } else {
      if d.failed {
        FailedStaysFailed(max, lims, d, rest);
      } else {
        var k := FirstTrip(max, lims, c, pieces);
        TripPhase(max, lims, d, rest);
        LineOpenAfter(max, lims, c, pieces[0]);
        ConcatFirst(c.buffer, pieces, k);
        var buf := c.buffer + pieces[0];
        assert buf + "" == buf;
        if Find(buf, CRLF, 0).Some? {
          FindStable(buf, Concat(rest[..k - 1]), CRLF, 0);
        }
      }
    }
  }

  // ---------- a failure is no trip ----------

  lemma {:induction false} AddLinesCode(h: Head, block: string)
    requires h.code in {0, BAD_REQUEST}
    ensures AddLines(h, block).code in {0, BAD_REQUEST}
    decreases |block|
  {
    if block != "" {
      var line := UpTo(block, '\n');
      var g := AddLine(h, StripCr(line));
      if !(g.code != 0 || |line| == |block|) {
        AddLinesCode(g, block[|line| + 1..]);
      }
    }
  }

  /** Only the limits step answers 431 by itself. */
  ghost predicate FailsOtherwise(r: Request) {
    r.phase in {LinePhase, HeadersPhase} ==> r.code != HEADER_FIELDS_TOO_LARGE
  }

  lemma {:induction false} MoveFailsOtherwise(lims: Limits, r: Request, buf: string)
    ensures RequestMove(lims, r, buf).Failed? ==> FailsOtherwise(RequestMove(lims, r, buf).next)
  {
    hide AddLines;
    match r.phase
    case HeadersPhase =>
      if Find(buf, END_OF_HEAD, 0).Some? {
        AddLinesCode(HeadOf(r), buf[..Find(buf, END_OF_HEAD, 0).value]);
      }
    case _ =>
  }

  lemma {:induction false} UntrippedFailure(lims: Limits, c: Conn<Request>, pieces: seq<string>)
    requires !c.failed
    ensures Progress(Machine(lims), Height)
    ensures var d := ReceiveAll(Machine(lims), Height, c, pieces); d.failed ==> FailsOtherwise(d.s)
  {
    hide RequestMove, FailsOtherwise;
    MachineProgress(lims);
    var inv, fin := (r: Request) => true, (r: Request) => FailsOtherwise(r);
    assert Keeps(Machine(lims), inv, fin) by {
      forall r, b ensures RequestMove(lims, r, b).Failed? ==> FailsOtherwise(RequestMove(lims, r, b).next) {
        MoveFailsOtherwise(lims, r, b);
      }
    }
    ReceiveAllKeeps(Machine(lims), Height, inv, fin, c, pieces);
  }

  // ---------- main result ----------

  /** Two splits of the same bytes end alike exactly if neither trips, or both trip in the same phase. */
  lemma {:induction false} SplitsAgreeByPhase(max: nat, lims: Limits, c: Conn<Request>, p: seq<string>, q: seq<string>)
    requires !c.failed && p != [] && q != [] && Concat(p) == Concat(q)
    ensures var d, e := GuardedAll(max, lims, c, p), GuardedAll(max, lims, c, q);
            SameEnd(d, e) <==>
            if TripsAll(max, lims, c, p) then TripsAll(max, lims, c, q) && d.s.phase == e.s.phase
            else !TripsAll(max, lims, c, q)
  {
    hide GuardedAll, TripsAll, LineMove, RequestMove, Concat;
    GuardedOrTripped(max, lims, c, p);
    GuardedOrTripped(max, lims, c, q);
    UntrippedFailure(lims, c, p);
    UntrippedFailure(lims, c, q);
    if TripsAll(max, lims, c, p) {
      TrippedState(max, lims, c, p);
    }
    if TripsAll(max, lims, c, q) {
      TrippedState(max, lims, c, q);
    }
    if !TripsAll(max, lims, c, p) && !TripsAll(max, lims, c, q) {
      SplitsAgreeUnlessTripped(max, lims, c, p, q);
    }
  }

  /** The same by position, for arbitrary bytes: two splits end alike exactly if neither trips, or both do and the
      end of the request line had arrived before the tripping receipt in both of them or in neither. */
  lemma {:induction false} SplitsAgreeExactly(max: nat, lims: Limits, c: Conn<Request>, p: seq<string>, q: seq<string>)
    requires !c.failed && p != [] && q != [] && Concat(p) == Concat(q)
    ensures SameEnd(GuardedAll(max, lims, c, p), GuardedAll(max, lims, c, q)) <==>
            if TripsAll(max, lims, c, p)
            then TripsAll(max, lims, c, q) && (TripsInLine(max, lims, c, p) <==> TripsInLine(max, lims, c, q))
            else !TripsAll(max, lims, c, q)
  {
    hide GuardedAll, TripsAll, TripsInLine, LineMove, Concat, SameEnd;
    SplitsAgreeByPhase(max, lims, c, p, q);
    if TripsAll(max, lims, c, p) && TripsAll(max, lims, c, q) {
      TripPhase(max, lims, c, p);
      TripPhase(max, lims, c, q);
      TrippedState(max, lims, c, p);
      TrippedState(max, lims, c, q);
    }
  }
}
