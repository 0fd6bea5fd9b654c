/** Where a printed request may be cut: with the size checks of the receive buffer it comes back
    from exactly the splits that never show more than the limit of line or headers at a time. */
module RequestCuts {
  import opened StringOps
  import opened Http
  import opened Incremental
  import opened RequestHead
  import opened RequestBody
  import opened RequestMachine
  import opened RequestRuns

  /** The lengths of the request line with its end, and of that with the header block. */
  function LineEnd(m: Message): nat {
    |LineText(m)| + 2
  }

  function HeadEnd(m: Message): nat {
    LineEnd(m) + if m.fields == [] then 0 else |PrintFields(m.fields)| + 4
  }

  /** A receipt that takes the received bytes from `a` to `b` shows too much: all of them while the
      line, ending at `l`, is incomplete, or those behind it while the headers, ending at `h`, are. */
  predicate ShowsTooMuch(max: nat, l: nat, h: nat, a: nat, b: nat) {
    (a < l && b > max) || (l <= b < h && b - l > max)
  }

  /** Some piece of the split shows too much. */
  ghost predicate BadCut(max: nat, m: Message, pieces: seq<string>) {
    exists k | 0 <= k < |pieces| ::
      ShowsTooMuch(max, LineEnd(m), HeadEnd(m), Arrived(pieces, k), Arrived(pieces, k + 1))
  }

  /** The number of bytes in the first `k` pieces. */
  function Arrived(pieces: seq<string>, k: nat): nat
    requires k <= |pieces|
  {
    |Concat(pieces[..k])|
  }

  // ---------- the machine on the beginning of a request ----------

  ghost function After(lims: Limits, limit: nat, text: string, a: nat): Outcome<Request>
    requires a <= |text|
  {
    RunRequest(lims, Start(limit), text[..a])
  }

  lemma {:induction false} PrefixNeverFails(lims: Limits, m: Message, limit: nat, rest: string, a: nat)
    requires m.fields != [] && GoodMessage(m, lims) && a <= |Print(m) + rest|
    ensures !After(lims, limit, Print(m) + rest, a).failed
  {
    hide GoodMessage, Print, RunRequest;
    var text := Print(m) + rest;
    RequestRoundTrip(lims, m, limit, rest);
    FailureStays(lims, Start(limit), text[..a], text[a..]);
    assert text[..a] + text[a..] == text;
  }

  lemma {:induction false} FailureStays(lims: Limits, r: Request, x: string, y: string)
    ensures RunRequest(lims, r, x).failed ==> RunRequest(lims, r, x + y).failed
  {
    MachineProgress(lims);
    MachineStable(lims);
    RunSplits(Machine(lims), Height, r, x, y);
  }

  /** A move that takes `n` bytes cannot be made with fewer. */
  lemma {:induction false} StuckBefore(lims: Limits, r: Request, text: string, a: nat)
    requires a <= |text| && RequestMove(lims, r, text).Took? && a < RequestMove(lims, r, text).n
    ensures RequestMove(lims, r, text[..a]).Stuck?
  {
    hide RequestMove;
    var move := Machine(lims);
    MachineProgress(lims);
    MachineStable(lims);
    assert move(r, text) == RequestMove(lims, r, text) && move(r, text[..a]) == RequestMove(lims, r, text[..a]);
    assert text[..a] + text[a..] == text;
    assert Unmoved(move, r, text[..a], text[a..]);
  }

  ghost function AfterLine(m: Message, limit: nat): Request {
    Start(limit).(phase := HeadersPhase, name := m.name, path := m.path, version := m.version)
  }

  ghost function AfterHead(m: Message, limit: nat): Request
    requires m.fields != []
  {
    AfterLine(m, limit).(headers := Meaning(m.fields, map[]), headerBytes := |PrintFields(m.fields)| + 4,
                         phase := LimitsPhase)
  }

  lemma {:induction false} LineMoves(lims: Limits, m: Message, limit: nat, text: string, rest: string, a: nat)
    requires m.fields != [] && GoodMessage(m, lims) && text == Print(m) + rest && a <= |text|
    ensures if a < LineEnd(m) then RequestMove(lims, Start(limit), text[..a]).Stuck?
            else RequestMove(lims, Start(limit), text[..a]) == Took(AfterLine(m, limit), LineEnd(m))
  {
    hide GoodMessage, RequestMove, LineText, PrintFields, BodyText;
    var start := LineText(m) + CRLF;
    assert |start| == LineEnd(m) && text[..|start|] == start && text == start + text[|start|..];
    if a < LineEnd(m) {
      LineTaken(lims, m, limit, text[|start|..]);
      StuckBefore(lims, Start(limit), text, a);
    } else {
      LineTaken(lims, m, limit, text[|start|..a]);
      assert text[..a] == start + text[|start|..a];
    }
  }

  lemma {:induction false} TextParts(m: Message, rest: string, head: string, tail: string)
    requires m.fields != [] && head == PrintFields(m.fields) + END_OF_HEAD && tail == BodyText(m.body) + rest
    ensures Print(m) + rest == LineText(m) + CRLF + (head + tail) && LineEnd(m) + |head| == HeadEnd(m)
  {
    hide LineText, PrintFields, BodyText;
  }

  lemma {:induction false} HeadersPhaseMoves(lims: Limits, m: Message, limit: nat, buf: string)
    ensures RequestMove(lims, AfterLine(m, limit), buf) == HeadersMove(AfterLine(m, limit), buf)
  {
  }

  lemma {:induction false} HeadMovesOn(lims: Limits, m: Message, limit: nat, head: string, tail: string, n: nat)
    requires m.fields != [] && GoodFields(m.fields, map[]) && head == PrintFields(m.fields) + END_OF_HEAD
    requires n <= |head + tail|
    ensures var r := AfterLine(m, limit);
            if n < |head| then RequestMove(lims, r, (head + tail)[..n]).Stuck?
            else RequestMove(lims, r, (head + tail)[..n]) == Took(AfterHead(m, limit), |head|)
  {
    hide PrintFields, RequestMove, GoodFields, AfterLine, AfterHead, HeadersMove;
    if n < |head| {
      HeadersPhaseMoves(lims, m, limit, head + tail);
      HeadTaken(m, limit, tail);
      StuckBefore(lims, AfterLine(m, limit), head + tail, n);
    } else {
      HeadersPhaseMoves(lims, m, limit, (head + tail)[..n]);
      HeadTaken(m, limit, tail[..n - |head|]);
      assert (head + tail)[..n] == head + tail[..n - |head|];
    }
  }

  lemma {:induction false} HeadMoves(lims: Limits, m: Message, limit: nat, text: string, rest: string, a: nat)
    requires m.fields != [] && GoodMessage(m, lims) && text == Print(m) + rest && LineEnd(m) <= a <= |text|
    ensures if a < HeadEnd(m) then RequestMove(lims, AfterLine(m, limit), text[LineEnd(m)..a]).Stuck?
            else RequestMove(lims, AfterLine(m, limit), text[LineEnd(m)..a])
                 == Took(AfterHead(m, limit), HeadEnd(m) - LineEnd(m))
  {
    hide GoodMessage, LineText, PrintFields, BodyText, RequestMove, GoodFields, Print, AfterLine, AfterHead, HeadEnd;
    GoodMessageFields(lims, m);
    var head, tail := PrintFields(m.fields) + END_OF_HEAD, BodyText(m.body) + rest;
    TextParts(m, rest, head, tail);
    SliceBehind(text, LineText(m) + CRLF, head + tail, a);
    HeadMovesOn(lims, m, limit, head, tail, a - LineEnd(m));
  }

  lemma {:induction false} GoodMessageFields(lims: Limits, m: Message)
    requires m.fields != [] && GoodMessage(m, lims)
    ensures GoodFields(m.fields, map[])
  {
  }

  lemma {:induction false} SliceBehind(text: string, start: string, t: string, a: nat)
    requires text == start + t && |start| <= a <= |text|
    ensures text[|start|..a] == t[..a - |start|]
  {
  }

  lemma {:induction false} HeadTaken(m: Message, limit: nat, tail: string)
    requires m.fields != [] && GoodFields(m.fields, map[])
    ensures HeadersMove(AfterLine(m, limit), PrintFields(m.fields) + END_OF_HEAD + tail)
         == Took(AfterHead(m, limit), |PrintFields(m.fields)| + 4)
  {
    hide GoodFields, PrintFields, AddLines, Find, HeadersMove, Meaning;
    var block := PrintFields(m.fields);
    HeadRoundTrip(HeadOf(AfterLine(m, limit)), m.fields);
    EndOfPrintedFields(m.fields, map[], tail);
    HeadersMoveAt(AfterLine(m, limit), block + END_OF_HEAD + tail, block, Meaning(m.fields, map[]));
  }

  /** What the first `a` bytes of a request come to. */
  lemma {:induction false} PrefixState(lims: Limits, m: Message, limit: nat, text: string, rest: string, a: nat)
    requires m.fields != [] && GoodMessage(m, lims) && text == Print(m) + rest && a <= |text|
    ensures var o := After(lims, limit, text, a);
            && !o.failed
            && (a < LineEnd(m) ==> o == Outcome(Start(limit), 0, false))
            && (LineEnd(m) <= a < HeadEnd(m) ==> o == Outcome(AfterLine(m, limit), LineEnd(m), false))
            && (HeadEnd(m) <= a ==> Stage(o.s.phase) >= 2)
  {
    hide GoodMessage, RequestMove, LineText, PrintFields, BodyText, RunRequest, Print, LineEnd, HeadEnd, AfterLine, AfterHead;
    var start, line := Start(limit), AfterLine(m, limit);
    AfterHeadPhase(m, limit);
    PrefixNeverFails(lims, m, limit, rest, a);
    LineMoves(lims, m, limit, text, rest, a);
    if a < LineEnd(m) {
      RunStuck(lims, start, text[..a]);
    } else {
      var l := LineEnd(m);
      HeadMoves(lims, m, limit, text, rest, a);
      assert text[..a][l..] == text[l..a];
      RequestTakes(lims, start, text[..a], line, l, text[l..a]);
      if a < HeadEnd(m) {
        RunStuck(lims, line, text[l..a]);
      } else {
        var n := HeadEnd(m) - l;
        RequestTakes(lims, line, text[l..a], AfterHead(m, limit), n, text[l..a][n..]);
        PhaseOnlyForward(lims, AfterHead(m, limit), text[l..a][n..]);
      }
    }
  }

  lemma {:induction false} AfterHeadPhase(m: Message, limit: nat)
    requires m.fields != []
    ensures Stage(AfterHead(m, limit).phase) == 2 && LineEnd(m) <= HeadEnd(m)
  {
  }

  lemma {:induction false} RunStuck(lims: Limits, r: Request, buf: string)
    requires RequestMove(lims, r, buf).Stuck?
    ensures RunRequest(lims, r, buf) == Outcome(r, 0, false)
  {
    MachineProgress(lims);
  }

  // ---------- one receipt ----------

  /** The connection when the bytes `x` have arrived without a trip. */
  ghost function Standing(lims: Limits, limit: nat, x: string): Conn<Request> {
    var o := RunRequest(lims, Start(limit), x);
    Conn(o.s, x[o.consumed..], false)
  }

  /** The bytes `x` do not fail, and lead to the phase that their number says. */
  ghost predicate Known(lims: Limits, limit: nat, l: nat, h: nat, x: string) {
    var o := RunRequest(lims, Start(limit), x);
    && !o.failed
    && (|x| < l ==> o.s.phase.LinePhase? && o.consumed == 0)
    && (l <= |x| < h ==> o.s.phase.HeadersPhase? && o.consumed == l)
    && (h <= |x| ==> Stage(o.s.phase) >= 2)
  }

  ghost predicate AllKnown(lims: Limits, limit: nat, l: nat, h: nat, text: string) {
    l <= h && forall x | x <= text :: Known(lims, limit, l, h, x)
  }

  lemma {:induction false} RequestIsKnown(lims: Limits, m: Message, limit: nat, rest: string)
    requires m.fields != [] && GoodMessage(m, lims)
    ensures AllKnown(lims, limit, LineEnd(m), HeadEnd(m), Print(m) + rest)
  {
    hide GoodMessage, Print, RunRequest, PrintFields, LineText, BodyText;
    var text := Print(m) + rest;
    forall x | x <= text ensures Known(lims, limit, LineEnd(m), HeadEnd(m), x) {
      PrefixState(lims, m, limit, text, rest, |x|);
      assert text[..|x|] == x;
    }
  }

  lemma {:induction false} RunRequestSplits(lims: Limits, r: Request, x: string, y: string)
    requires !RunRequest(lims, r, x).failed
    ensures var o := RunRequest(lims, r, x);
            var p := RunRequest(lims, o.s, x[o.consumed..] + y);
            RunRequest(lims, r, x + y) == Outcome(p.s, o.consumed + p.consumed, p.failed)
  {
    MachineProgress(lims);
    MachineStable(lims);
    RunSplits(Machine(lims), Height, r, x, y);
  }

  lemma {:induction false} TripsIs(max: nat, lims: Limits, c: Conn<Request>, piece: string, buf: string, p: Outcome<Request>)
    requires !c.failed && c.buffer + piece == buf && RunRequest(lims, c.s, buf) == p && !p.failed
    ensures Trips(max, lims, c, piece)
       <==> (c.s.phase.LinePhase? && max < |buf|) || (p.s.phase.HeadersPhase? && max < |buf| - p.consumed)
    ensures !Trips(max, lims, c, piece) ==> Guarded(max, lims, c, piece) == Conn(p.s, buf[p.consumed..], false)
  {
    MachineProgress(lims);
  }

  /** A receipt trips exactly if it shows too much; otherwise the connection stands where all
      bytes so far lead. */
  lemma {:induction false} ReceiptTrips(max: nat, lims: Limits, limit: nat, l: nat, h: nat, x: string, piece: string)
    requires l <= h && Known(lims, limit, l, h, x) && Known(lims, limit, l, h, x + piece)
    ensures var c := Standing(lims, limit, x);
            && (Trips(max, lims, c, piece) <==> ShowsTooMuch(max, l, h, |x|, |x + piece|))
            && (!Trips(max, lims, c, piece) ==> Guarded(max, lims, c, piece) == Standing(lims, limit, x + piece))
  {
    hide RunRequest, Guarded, Trips;
    RunRequestSplits(lims, Start(limit), x, piece);
    var o, w := RunRequest(lims, Start(limit), x), RunRequest(lims, Start(limit), x + piece);
    var buf := x[o.consumed..] + piece;
    TripsIs(max, lims, Standing(lims, limit, x), piece, buf, RunRequest(lims, o.s, buf));
    assert (x + piece)[o.consumed..] == buf;
    assert buf[w.consumed - o.consumed..] == (x + piece)[w.consumed..];
  }

  ghost predicate BadFrom(max: nat, l: nat, h: nat, a: nat, pieces: seq<string>)
    decreases |pieces|
  {
    pieces != [] &&
    (ShowsTooMuch(max, l, h, a, a + |pieces[0]|) || BadFrom(max, l, h, a + |pieces[0]|, pieces[1..]))
  }

  lemma {:induction false} ArrivedNext(pieces: seq<string>, k: nat)
    requires 0 < k <= |pieces|
    ensures Arrived(pieces, k) == |pieces[0]| + Arrived(pieces[1..], k - 1)
  {
    assert pieces[..k][1..] == pieces[1..][..k - 1];
  }

  lemma {:induction false} NothingArrived(pieces: seq<string>)
    ensures Arrived(pieces, 0) == 0
  {
  }

  lemma {:induction false} BadFromIs(max: nat, l: nat, h: nat, a: nat, pieces: seq<string>)
    ensures BadFrom(max, l, h, a, pieces) <==>
            exists k | 0 <= k < |pieces| :: ShowsTooMuch(max, l, h, a + Arrived(pieces, k), a + Arrived(pieces, k + 1))
    decreases |pieces|
  {
    hide ShowsTooMuch, Arrived;
    if pieces != [] {
      var b, tail := a + |pieces[0]|, pieces[1..];
      BadFromIs(max, l, h, b, tail);
      NothingArrived(pieces);
      NothingArrived(tail);
      forall k | 0 < k <= |pieces| ensures Arrived(pieces, k) == |pieces[0]| + Arrived(tail, k - 1) {
        ArrivedNext(pieces, k);
      }
      if k :| 0 <= k < |tail| && ShowsTooMuch(max, l, h, b + Arrived(tail, k), b + Arrived(tail, k + 1)) {
        assert ShowsTooMuch(max, l, h, a + Arrived(pieces, k + 1), a + Arrived(pieces, k + 2));
      }
      if k :| 0 < k < |pieces| && ShowsTooMuch(max, l, h, a + Arrived(pieces, k), a + Arrived(pieces, k + 1)) {
        assert ShowsTooMuch(max, l, h, b + Arrived(tail, k - 1), b + Arrived(tail, k - 1 + 1));
      }
      assert Arrived(pieces, 0 + 1) == |pieces[0]|;
      assert ShowsTooMuch(max, l, h, a, b) <==> ShowsTooMuch(max, l, h, a + Arrived(pieces, 0), a + Arrived(pieces, 0 + 1));
    }
  }

  lemma {:induction false} CutsDecide(max: nat, lims: Limits, limit: nat, l: nat, h: nat, text: string, x: string,
                                      pieces: seq<string>)
    requires AllKnown(lims, limit, l, h, text) && x + Concat(pieces) == text
    ensures var c := Standing(lims, limit, x);
            if BadFrom(max, l, h, |x|, pieces) then TripsAll(max, lims, c, pieces)
            else GuardedAll(max, lims, c, pieces) == Standing(lims, limit, text) && !TripsAll(max, lims, c, pieces)
    decreases |pieces|
  {
    hide Trips, Guarded, Standing, ShowsTooMuch, Known;
    if pieces == [] {
      assert x == text;
    } else {
      var y := x + pieces[0];
      assert y + Concat(pieces[1..]) == x + Concat(pieces);
      assert x <= text && y <= text;
      ReceiptTrips(max, lims, limit, l, h, x, pieces[0]);
      if !Trips(max, lims, Standing(lims, limit, x), pieces[0]) {
        CutsDecide(max, lims, limit, l, h, text, y, pieces[1..]);
      }
    }
  }

  // ---------- main results ----------

  /** The request is given back, and the bytes behind it are still in the buffer. */
  ghost predicate ComesBack(d: Conn<Request>, m: Message, rest: string) {
    && !d.failed && d.buffer == rest && d.s.phase == DonePhase
    && d.s.name == m.name && d.s.path == m.path && d.s.version == m.version
    && d.s.headers == Meaning(m.fields, map[]) && d.s.f.body == BodyData(m.body)
  }

  lemma {:induction false} WholeComesBack(lims: Limits, m: Message, limit: nat, rest: string)
    requires m.fields != [] && GoodMessage(m, lims)
    ensures ComesBack(Standing(lims, limit, Print(m) + rest), m, rest)
  {
    RequestRoundTrip(lims, m, limit, rest);
    hide GoodMessage, Print, RunRequest, Meaning, BodyData;
    assert (Print(m) + rest)[|Print(m)|..] == rest;
  }

  lemma {:induction false} NothingStands(lims: Limits, limit: nat)
    ensures Standing(lims, limit, "") == Conn(Start(limit), "", false)
  {
    MachineProgress(lims);
  }

  /** Print a request and cut it anywhere: it comes back exactly from the splits without a bad
      cut, and a bad cut ends with 431. Body and following bytes may be of any size. */
  lemma {:induction false} RequestComesBackExactly(
      max: nat, lims: Limits, m: Message, limit: nat, rest: string, pieces: seq<string>)
    requires m.fields != [] && GoodMessage(m, lims) && Concat(pieces) == Print(m) + rest
    ensures var c := Conn(Start(limit), "", false);
            && (TripsAll(max, lims, c, pieces) <==> BadCut(max, m, pieces))
            && (ComesBack(GuardedAll(max, lims, c, pieces), m, rest) <==> !BadCut(max, m, pieces))
            && (BadCut(max, m, pieces) ==>
                  GuardedAll(max, lims, c, pieces).failed && GuardedAll(max, lims, c, pieces).s.code == 431)
  {
    hide GoodMessage, Print, Standing, ShowsTooMuch, Arrived, AllKnown, GuardedAll, TripsAll, LineEnd, HeadEnd;
    WholeComesBack(lims, m, limit, rest);
    NothingStands(lims, limit);
    RequestIsKnown(lims, m, limit, rest);
    assert "" + Concat(pieces) == Print(m) + rest;
    CutsDecide(max, lims, limit, LineEnd(m), HeadEnd(m), Print(m) + rest, "", pieces);
    BadFromIs(max, LineEnd(m), HeadEnd(m), 0, pieces);
    GuardedOrTripped(max, lims, Conn(Start(limit), "", false), pieces);
    forall k | 0 <= k < |pieces|
      ensures ShowsTooMuch(max, LineEnd(m), HeadEnd(m), 0 + Arrived(pieces, k), 0 + Arrived(pieces, k + 1))
         <==> ShowsTooMuch(max, LineEnd(m), HeadEnd(m), Arrived(pieces, k), Arrived(pieces, k + 1))
    {
    }
  }

  /** Below the limit every split gives the request back. */
  lemma {:induction false} RequestRoundTripAnySplit(
      max: nat, lims: Limits, m: Message, limit: nat, rest: string, pieces: seq<string>)
    requires m.fields != [] && GoodMessage(m, lims) && Concat(pieces) == Print(m) + rest && |Print(m) + rest| <= max
    ensures ComesBack(GuardedAll(max, lims, Conn(Start(limit), "", false), pieces), m, rest)
  {
    hide GoodMessage, ComesBack, TripsAll, GuardedAll;
    SmallNeverTrips(max, lims, Conn(Start(limit), "", false), pieces);
    RequestComesBackExactly(max, lims, m, limit, rest, pieces);
  }

  lemma {:induction false} Concats(a: string, b: string)
    ensures Concat([a]) == a && Concat([a, b]) == a + b
    ensures Arrived([a], 0) == 0 && Arrived([a], 1) == |a|
    ensures Arrived([a, b], 0) == 0 && Arrived([a, b], 1) == |a| && Arrived([a, b], 2) == |a| + |b|
  {
    assert [a][1..] == [] && [a, b][1..] == [b] && [b][1..] == [];
    assert [a][..1] == [a] && [a, b][..1] == [a] && [a, b][..2] == [a, b] && [a, b][..0] == [] && [a][..0] == [];
    assert Concat([b]) == b + "" == b && Concat([a]) == a + "" == a;
  }

  /** Above the limit segmentation does matter: a request whose line alone fits is refused
      when it arrives at once and comes back when its line arrives first. */
  lemma {:induction false} ArrivingAtOnceCanFail(max: nat, lims: Limits, m: Message, limit: nat)
    requires m.fields != [] && GoodMessage(m, lims) && LineEnd(m) <= max < |Print(m)|
    ensures var c := Conn(Start(limit), "", false);
            var line, tail := LineText(m) + CRLF, PrintFields(m.fields) + END_OF_HEAD + BodyText(m.body);
            && line + tail == Print(m)
            && GuardedAll(max, lims, c, [Print(m)]).s.code == 431
            && ComesBack(GuardedAll(max, lims, c, [line, tail]), m, "")
  {
    hide GoodMessage, ComesBack, TripsAll, GuardedAll, Concat, Arrived, LineText, PrintFields, BodyText;
    var line, tail := LineText(m) + CRLF, PrintFields(m.fields) + END_OF_HEAD + BodyText(m.body);
    assert line + tail == Print(m) && Print(m) + "" == Print(m);
    Concats(line, tail);
    Concats(Print(m), "");
    RequestComesBackExactly(max, lims, m, limit, "", [Print(m)]);
    RequestComesBackExactly(max, lims, m, limit, "", [line, tail]);
    assert ShowsTooMuch(max, LineEnd(m), HeadEnd(m), Arrived([Print(m)], 0), Arrived([Print(m)], 0 + 1));
  }
}
