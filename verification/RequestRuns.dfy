/** Runs of the whole parser: pieces arrive, the phases run, sizes are checked. */
module RequestRuns {
  import opened StringOps
  import opened Http
  import opened Incremental
  import opened RequestHead
  import opened RequestBody
  import opened RequestMachine

  // ---------- what every run keeps ----------

  /** Before the body phase nothing of the body is there; in it the limit is the one of the
      path and the body bound holds; a finished request has a body within the limit. */
  ghost predicate Kept(lims: Limits, r: Request) {
    && r.f.code == 0
    && (r.phase in {LinePhase, HeadersPhase, LimitsPhase} ==> r.f == FRESH_BODY)
    && (r.phase == BodyPhase && r.code == 0 ==>
          && r.limit == lims.bodySize(r.path) && Admitted(r.headers, r.limit)
          && !r.f.state.Complete? && Bounded(r.headers, r.limit, r.f))
    && (r.phase in {BodyPhase, DonePhase} ==> |r.f.body| <= lims.bodySize(r.path))
  }

  lemma {:induction false} BodyMoveKept(lims: Limits, r: Request, buf: string)
    requires r.phase.BodyPhase? && r.code == 0 && Kept(lims, r)
    requires !RequestMove(lims, r, buf).Stuck?
    ensures Kept(lims, RequestMove(lims, r, buf).next)
  {
    MoveKeepsBound(r.headers, r.limit, r.f, buf);
    MoveKeepsCode(r.headers, r.limit, r.f, buf);
  }

  lemma {:induction false} MoveKept(lims: Limits, r: Request, buf: string)
    requires r.code == 0 && Kept(lims, r) && !RequestMove(lims, r, buf).Stuck?
    ensures Kept(lims, RequestMove(lims, r, buf).next)
    ensures RequestMove(lims, r, buf).Took? ==> RequestMove(lims, r, buf).next.code == 0
  {
    if r.phase.BodyPhase? {
      BodyMoveKept(lims, r, buf);
      MoveKeepsCode(r.headers, r.limit, r.f, buf);
    }
  }

  /** Over every run from the start, whatever arrives, however it is cut, also after errors. */
  lemma {:induction false} BoundOverRuns(lims: Limits, limit: nat, pieces: seq<string>)
    ensures Progress(Machine(lims), Height)
    ensures Kept(lims, ReceiveAll(Machine(lims), Height, Conn(Start(limit), "", false), pieces).s)
  {
    MachineProgress(lims);
    var fin := (r: Request) => Kept(lims, r);
    var inv := (r: Request) => Kept(lims, r) && r.code == 0;
    assert Keeps(Machine(lims), inv, fin) by {
      forall r, b | inv(r) && !RequestMove(lims, r, b).Stuck?
        ensures Kept(lims, RequestMove(lims, r, b).next)
        ensures RequestMove(lims, r, b).Took? ==> RequestMove(lims, r, b).next.code == 0
      {
        MoveKept(lims, r, b);
      }
    }
    ReceiveAllKeeps(Machine(lims), Height, inv, fin, Conn(Start(limit), "", false), pieces);
  }

  // ---------- the size checks ----------

  /** The receive buffer limit is exceeded on arrival in the line phase, or by what is left
      while the end of the headers has not arrived. */
  ghost predicate Trips(max: nat, lims: Limits, c: Conn<Request>, piece: string) {
    var buf := c.buffer + piece;
    var o := RunRequest(lims, c.s, buf);
    && !c.failed
    && (|| (c.s.phase.LinePhase? && max < |buf|)
        || (!o.failed && o.s.phase.HeadersPhase? && max < |buf| - o.consumed))
  }

  /** One receipt with the checks of parseRequestLine and parseHeaders. */
  ghost function Guarded(max: nat, lims: Limits, c: Conn<Request>, piece: string): Conn<Request> {
    MachineProgress(lims);
    if Trips(max, lims, c, piece) then
      Conn((if c.s.phase.LinePhase? && max < |c.buffer + piece| then c.s
            else RunRequest(lims, c.s, c.buffer + piece).s).(code := HEADER_FIELDS_TOO_LARGE),
           c.buffer + piece, true)
    else Receive(Machine(lims), Height, c, piece)
  }

  ghost function GuardedAll(max: nat, lims: Limits, c: Conn<Request>, pieces: seq<string>): Conn<Request>
    decreases |pieces|
  {
    if pieces == [] then c else GuardedAll(max, lims, Guarded(max, lims, c, pieces[0]), pieces[1..])
  }

  ghost predicate TripsAll(max: nat, lims: Limits, c: Conn<Request>, pieces: seq<string>)
    decreases |pieces|
  {
    pieces != [] &&
    (Trips(max, lims, c, pieces[0]) || TripsAll(max, lims, Guarded(max, lims, c, pieces[0]), pieces[1..]))
  }

  lemma {:induction false} FailedStaysFailed(max: nat, lims: Limits, c: Conn<Request>, pieces: seq<string>)
    requires c.failed
    ensures var d := GuardedAll(max, lims, c, pieces); d.failed && d.s == c.s
    ensures !TripsAll(max, lims, c, pieces)
    decreases |pieces|
  {
    if pieces != [] { FailedStaysFailed(max, lims, Guarded(max, lims, c, pieces[0]), pieces[1..]); }
  }

  /** A run trips and ends with 431, or it ends exactly as the run without checks. */
  lemma {:induction false} GuardedOrTripped(max: nat, lims: Limits, c: Conn<Request>, pieces: seq<string>)
    ensures Progress(Machine(lims), Height)
    ensures var d := GuardedAll(max, lims, c, pieces);
            if TripsAll(max, lims, c, pieces) then d.failed && d.s.code == 431
            else d == ReceiveAll(Machine(lims), Height, c, pieces)
    decreases |pieces|
  {
    MachineProgress(lims);
    if pieces != [] {
      var d := Guarded(max, lims, c, pieces[0]);
      if Trips(max, lims, c, pieces[0]) {
        FailedStaysFailed(max, lims, d, pieces[1..]);
      } else {
        GuardedOrTripped(max, lims, d, pieces[1..]);
      }
    }
  }

  /** The size checks are all that makes the segmentation matter: two splits of the same
      bytes that both stay below the limit end alike. */
  lemma {:induction false} SplitsAgreeUnlessTripped(
      max: nat, lims: Limits, c: Conn<Request>, p: seq<string>, q: seq<string>)
    requires !c.failed && p != [] && q != [] && Concat(p) == Concat(q)
    requires !TripsAll(max, lims, c, p) && !TripsAll(max, lims, c, q)
    ensures SameEnd(GuardedAll(max, lims, c, p), GuardedAll(max, lims, c, q))
  {
    MachineProgress(lims);
    MachineStable(lims);
    GuardedOrTripped(max, lims, c, p);
    GuardedOrTripped(max, lims, c, q);
    SegmentationIndependent(Machine(lims), Height, c, p);
    SegmentationIndependent(Machine(lims), Height, c, q);
  }

  /** When all bytes together fit the limit, no split of them trips. */
  lemma {:induction false} SmallNeverTrips(max: nat, lims: Limits, c: Conn<Request>, pieces: seq<string>)
    requires |c.buffer| + |Concat(pieces)| <= max
    ensures !TripsAll(max, lims, c, pieces)
    decreases |pieces|
  {
    if pieces != [] {
      MachineProgress(lims);
      var d := Guarded(max, lims, c, pieces[0]);
      assert |d.buffer| <= |c.buffer + pieces[0]|;
      SmallNeverTrips(max, lims, d, pieces[1..]);
    }
  }
}
