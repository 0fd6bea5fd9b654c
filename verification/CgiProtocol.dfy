/** The completion protocol of one CGI worker: src/Cgi/CgiWorker.cpp, the reaping loop and
    the reply of src/Cgi/CgiManager.cpp, and src/Server/Client/Events/CgiEndEvent.cpp.
    Reads, end of output, body writes and reaping arrive in any order. */
module CgiProtocol {
  import opened StringOps
  import CgiResponse

  datatype State = SendingBody | Receiving | Completed | Errored | TimedOut

  datatype Exit = Exited(code: nat) | Signaled(signal: nat)

  const MAX_RESPONSE := 10 * 1024 * 1024

  /** The fields the events change. `signals` counts the bytes written to the completion pipe. */
  datatype Worker = Worker(
    state: State, readOpen: bool, writeOpen: bool, body: string, bytesSent: nat,
    buffer: string, parsed: CgiResponse.Reply,
    outputComplete: bool, exitStatusSet: bool, signals: nat)

  datatype Event =
    | Data(piece: string)
    | Eof
    | ReadError
    | Wrote(count: nat)
    | WriteError
    | Reaped(exit: Exit)

  /** A worker whose program has been started. */
  function Started(body: string): Worker {
    Worker(if body == "" then Receiving else SendingBody, true, body != "", body, 0,
           "", CgiResponse.NOTHING, false, false, 0)
  }

  predicate Finished(w: Worker) {
    w.state.TimedOut? || (w.outputComplete && w.exitStatusSet)
  }

  function Signal(w: Worker): Worker {
    if Finished(w) then w.(signals := w.signals + 1) else w
  }

  /** read returned 0: parse, judge, and signal when the exit status is there already. */
  function OnEof(w: Worker): Worker {
    var p := CgiResponse.Parse(w.buffer);
    var s := if !p.found then Errored else if w.state in {Errored, TimedOut} then w.state else Completed;
    Signal(w.(readOpen := false, parsed := p, state := s, outputComplete := true))
  }

  /** A failing or oversized read closes the pipe and does not signal. */
  function OnBroken(w: Worker): Worker {
    w.(readOpen := false, state := Errored, outputComplete := true)
  }

  function OnData(w: Worker, piece: string): Worker {
    if MAX_RESPONSE < |w.buffer| + |piece| then OnBroken(w) else w.(buffer := w.buffer + piece)
  }

  /** One write offers at most 4096 of the remaining bytes. */
  function Capped(body: string, sent: nat, count: nat): nat {
    var left := if sent < |body| then |body| - sent else 0;
    var most := if left < 4096 then left else 4096;
    if count < most then count else most
  }

  /** write accepted some bytes; the last byte moves the state to Receiving. */
  function OnWrote(w: Worker, count: nat): Worker {
    if w.state in {Errored, TimedOut} then w.(writeOpen := false)
    else if w.body == "" then w.(writeOpen := false, state := Receiving)
    else
      var sent := w.bytesSent + Capped(w.body, w.bytesSent, count);
      if sent >= |w.body| then w.(bytesSent := sent, writeOpen := false, state := Receiving)
      else w.(bytesSent := sent)
  }

  function OnWriteError(w: Worker): Worker {
    if w.state in {Errored, TimedOut} then w.(writeOpen := false)
    else if w.body == "" then w.(writeOpen := false, state := Receiving)
    else w.(writeOpen := false, state := Errored)
  }

  /** The reaping loop meets this worker's pid. */
  function OnReaped(w: Worker, exit: Exit): Worker {
    var bad := match exit case Signaled(_) => true case Exited(c) => c != 0 && !CgiResponse.HasStatus(w.parsed);
    Signal(w.(exitStatusSet := true, state := if bad && !w.state.TimedOut? then Errored else w.state))
  }

  /** Events on a closed pipe do nothing. */
  function Step(w: Worker, e: Event): Worker {
    match e
    case Data(piece) => if w.readOpen then OnData(w, piece) else w
    case Eof => if w.readOpen then OnEof(w) else w
    case ReadError => if w.readOpen then OnBroken(w) else w
    case Wrote(count) => if w.writeOpen then OnWrote(w, count) else w
    case WriteError => if w.writeOpen then OnWriteError(w) else w
    case Reaped(exit) => OnReaped(w, exit)
  }

  /** The state after a history, the latest event last. */
  function After(w: Worker, es: seq<Event>): Worker {
    if es == [] then w else Step(After(w, es[..|es| - 1]), es[|es| - 1])
  }

  // ---------- the reply ----------

  datatype Response = FromProgram(p: CgiResponse.Reply) | InternalServerError | GatewayTimeout

  /** CgiManager::isCgiComplete on a finished worker. */
  function ResponseOf(w: Worker): Response {
    if w.state.Completed? then FromProgram(w.parsed)
    else if w.state.TimedOut? then GatewayTimeout
    else if CgiResponse.HasStatus(w.parsed) then FromProgram(w.parsed)
    else InternalServerError
  }

  /** What the output and the exit status alone call for. */
  function Intended(output: string, exit: Exit): Response {
    var p := CgiResponse.Parse(output);
    if CgiResponse.HasStatus(p) || (p.found && exit == Exited(0)) then FromProgram(p) else InternalServerError
  }

  // ---------- histories ----------

  function Front(es: seq<Event>): seq<Event>
    requires es != []
  {
    es[..|es| - 1]
  }

  function Last(es: seq<Event>): Event
    requires es != []
  {
    es[|es| - 1]
  }

  predicate EofSeen(es: seq<Event>) {
    es != [] && (Last(es).Eof? || EofSeen(Front(es)))
  }

  predicate ReapSeen(es: seq<Event>) {
    es != [] && (Last(es).Reaped? || ReapSeen(Front(es)))
  }

  function Output(es: seq<Event>): string {
    if es == [] then ""
    else Output(Front(es)) + match Last(es) case Data(piece) => piece case _ => ""
  }

  /** Body bytes the program has taken, if every write was offered to it. */
  function Sent(body: string, es: seq<Event>): (n: nat)
    ensures n <= |body|
  {
    if es == [] then 0
    else
      var n := Sent(body, Front(es));
      match Last(es) case Wrote(count) => n + Capped(body, n, count) case _ => n
  }

  function SentAtEof(body: string, es: seq<Event>): nat {
    if es == [] then 0
    else if Last(es).Eof? then Sent(body, Front(es))
    else SentAtEof(body, Front(es))
  }

  /** The write of the last body byte comes after the end of the output. */
  predicate LateWrite(body: string, es: seq<Event>) {
    EofSeen(es) && SentAtEof(body, es) < |body| == Sent(body, es)
  }

  /** The program writes its output, then closes it; it is reaped at any time, once, with
      `exit`; no call fails and the output fits. Body writes come whenever they like. */
  predicate Regular(es: seq<Event>, exit: Exit) {
    es != [] ==>
      && Regular(Front(es), exit)
      && match Last(es)
         case Data(_) => !EofSeen(Front(es)) && |Output(es)| <= MAX_RESPONSE
         case Eof => !EofSeen(Front(es))
         case Reaped(x) => x == exit && !ReapSeen(Front(es))
         case Wrote(_) => true
         case _ => false
  }

  // ---------- what every history keeps ----------

  /** The part of the state that does not depend on how the program fared. */
  ghost predicate Tracks(body: string, es: seq<Event>, w: Worker) {
    && w.body == body && w.buffer == Output(es)
    && w.outputComplete == EofSeen(es) && w.readOpen == !EofSeen(es)
    && w.exitStatusSet == ReapSeen(es)
    && w.signals == (if EofSeen(es) && ReapSeen(es) then 1 else 0)
    && w.parsed == (if EofSeen(es) then CgiResponse.Parse(w.buffer) else CgiResponse.NOTHING)
    && !w.state.TimedOut?
  }

  /** Nothing has gone wrong so far: no bad exit status, and headers if the output ended. */
  predicate Calm(es: seq<Event>, exit: Exit) {
    && (ReapSeen(es) ==> exit == Exited(0))
    && (EofSeen(es) ==> CgiResponse.Parse(Output(es)).found)
  }

  /** While calm the state tells how far output and body are; a late write hides Completed. */
  ghost predicate CalmState(body: string, es: seq<Event>, w: Worker) {
    && w.bytesSent == Sent(body, es) && w.writeOpen == (Sent(body, es) < |body|)
    && w.state == (if EofSeen(es) then if LateWrite(body, es) then Receiving else Completed
                   else if Sent(body, es) < |body| then SendingBody else Receiving)
  }

  /** Once not calm the worker is in error, unless the program gave a status of its own. */
  ghost predicate Judged(es: seq<Event>, w: Worker) {
    !(EofSeen(es) && CgiResponse.HasStatus(w.parsed)) ==> w.state == Errored
  }

  lemma {:induction false} TracksStep(body: string, es: seq<Event>, exit: Exit, w: Worker)
    requires es != [] && Regular(es, exit) && Tracks(body, Front(es), w)
    ensures Tracks(body, es, Step(w, Last(es)))
  {
    assert w.buffer + "" == w.buffer;
  }

  lemma {:induction false} CalmStep(body: string, es: seq<Event>, exit: Exit, w: Worker)
    requires es != [] && Regular(es, exit) && Tracks(body, Front(es), w)
    requires Calm(es, exit) && Calm(Front(es), exit) && CalmState(body, Front(es), w)
    ensures CalmState(body, es, Step(w, Last(es)))
  {
    assert w.buffer + "" == w.buffer;
    SentAtEofSmall(body, Front(es));
  }

  lemma {:induction false} SentAtEofSmall(body: string, es: seq<Event>)
    ensures SentAtEof(body, es) <= Sent(body, es)
  {
    if es != [] { SentAtEofSmall(body, Front(es)); }
  }

  lemma {:induction false} JudgedStep(body: string, es: seq<Event>, exit: Exit, w: Worker)
    requires es != [] && Regular(es, exit) && Tracks(body, Front(es), w)
    requires if Calm(Front(es), exit) then CalmState(body, Front(es), w) else Judged(Front(es), w)
    requires !Calm(es, exit)
    ensures Judged(es, Step(w, Last(es)))
  {
    assert w.buffer + "" == w.buffer;
    CgiResponse.StatusNeedsHeaders(w.buffer);
  }

  lemma {:induction false} CalmBefore(es: seq<Event>, exit: Exit)
    requires es != [] && Regular(es, exit) && Calm(es, exit)
    ensures Calm(Front(es), exit)
  {
    assert Output(Front(es)) + "" == Output(Front(es));
  }

  /** Whatever the interleaving. */
  lemma {:induction false} HistoryKeeps(body: string, es: seq<Event>, exit: Exit)
    requires Regular(es, exit)
    ensures var w := After(Started(body), es);
            && Tracks(body, es, w)
            && if Calm(es, exit) then CalmState(body, es, w) else Judged(es, w)
    decreases |es|
  {
    if es != [] {
      HistoryKeeps(body, Front(es), exit);
      var w := After(Started(body), Front(es));
      TracksStep(body, es, exit, w);
      if Calm(es, exit) {
        CalmBefore(es, exit);
        CalmStep(body, es, exit, w);
      } else {
        JudgedStep(body, es, exit, w);
      }
    }
  }

  // ---------- main results ----------

  /** Exactly one completion byte, written by the later of end of output and reaping. */
  lemma {:induction false} SignalledOnce(body: string, es: seq<Event>, exit: Exit)
    requires Regular(es, exit)
    ensures After(Started(body), es).signals == if EofSeen(es) && ReapSeen(es) then 1 else 0
    ensures Finished(After(Started(body), es)) <==> EofSeen(es) && ReapSeen(es)
  {
    HistoryKeeps(body, es, exit);
  }

  /** The reply is the intended one, in every interleaving, except in one situation: the
      last body byte was written after the end of the output, and nothing but the
      forgotten Completed state would have let the output through. */
  lemma {:induction false} ReplyExact(body: string, es: seq<Event>, exit: Exit)
    requires Regular(es, exit) && EofSeen(es) && ReapSeen(es)
    ensures ResponseOf(After(Started(body), es)) == Intended(Output(es), exit)
       <==> !(LateWrite(body, es) && exit == Exited(0)
              && CgiResponse.Parse(Output(es)).found && !CgiResponse.HasStatus(CgiResponse.Parse(Output(es))))
  {
    HistoryKeeps(body, es, exit);
    CgiResponse.StatusNeedsHeaders(Output(es));
  }

  /** Confluence: with the body delivered in time, the reply depends on the output and the
      exit status alone. */
  lemma {:induction false} Confluent(
      b1: string, es1: seq<Event>, b2: string, es2: seq<Event>, exit: Exit)
    requires Regular(es1, exit) && EofSeen(es1) && ReapSeen(es1) && !LateWrite(b1, es1)
    requires Regular(es2, exit) && EofSeen(es2) && ReapSeen(es2) && !LateWrite(b2, es2)
    requires Output(es1) == Output(es2)
    ensures ResponseOf(After(Started(b1), es1)) == ResponseOf(After(Started(b2), es2))
  {
    ReplyExact(b1, es1, exit);
    ReplyExact(b2, es2, exit);
  }

  // ---------- failing reads ----------

  predicate Breaks(w: Worker, e: Event) {
    w.readOpen && (e.ReadError? || (e.Data? && MAX_RESPONSE < |w.buffer| + |e.piece|))
  }

  /** A read fails, or brings too much, when the program has been reaped already. */
  predicate Lost(w0: Worker, es: seq<Event>) {
    es != [] && (Lost(w0, Front(es)) || (ReapSeen(Front(es)) && Breaks(After(w0, Front(es)), Last(es))))
  }

  predicate ReapedOnce(es: seq<Event>) {
    es != [] ==> ReapedOnce(Front(es)) && (Last(es).Reaped? ==> !ReapSeen(Front(es)))
  }

  /** For all histories, failing calls included: a finished worker is announced exactly once
      unless its output broke after the reaping; then it is never announced. */
  lemma {:induction false} AnnouncedUnlessLost(body: string, es: seq<Event>)
    requires ReapedOnce(es)
    ensures var w := After(Started(body), es);
            && w.signals == (if Finished(w) && !Lost(Started(body), es) then 1 else 0)
            && w.outputComplete == !w.readOpen && w.exitStatusSet == ReapSeen(es) && !w.state.TimedOut?
            && (Lost(Started(body), es) ==> Finished(w))
    decreases |es|
  {
    if es != [] {
      AnnouncedUnlessLost(body, Front(es));
    }
  }

  // ---------- two runs that go wrong ----------

  lemma {:induction false} EmptyHeaderBlock()
    ensures var p := CgiResponse.Parse("\n\n"); p.found && !CgiResponse.HasStatus(p)
  {
    var raw := "\n\n";
    FindIs(raw, "\n\n", 0, 0);
    assert raw[..0] == "";
    assert UpTo("", '\n') == "";
    assert Split("", '\n') == [""];
    assert raw[2..] == "";
    var p := CgiResponse.NOTHING.(found := true, body := "");
    assert CgiResponse.TakeLine(p, "") == p && CgiResponse.TakeLines(p, []) == p;
    assert [""][1..] == [];
  }

  /** Good output, then its end, then the last body byte, then a clean exit: the answer is an error. */
  lemma {:induction false} LateWriteAnswersError()
    ensures var es := [Data("\n\n"), Eof, Wrote(1), Reaped(Exited(0))];
            Regular(es, Exited(0)) && EofSeen(es) && ReapSeen(es)
            && ResponseOf(After(Started("x"), es)) != Intended(Output(es), Exited(0))
  {
    hide CgiResponse.Parse;
    var e1, e2, e3 := [Data("\n\n")], [Data("\n\n"), Eof], [Data("\n\n"), Eof, Wrote(1)];
    var es := [Data("\n\n"), Eof, Wrote(1), Reaped(Exited(0))];
    assert Front(es) == e3 && Front(e3) == e2 && Front(e2) == e1 && Front(e1) == [];
    assert Output(e1) == "\n\n" && Regular(e1, Exited(0)) && !EofSeen(e1) && !ReapSeen(e1) && Sent("x", e1) == 0;
    assert Regular(e2, Exited(0)) && EofSeen(e2) && !ReapSeen(e2) && SentAtEof("x", e2) == 0 && Sent("x", e2) == 0;
    assert Regular(e3, Exited(0)) && EofSeen(e3) && !ReapSeen(e3) && SentAtEof("x", e3) == 0 && Sent("x", e3) == 1;
    assert Output(e2) == "\n\n" && Output(e3) == "\n\n" && Output(es) == "\n\n";
    assert LateWrite("x", es);
    EmptyHeaderBlock();
    ReplyExact("x", es, Exited(0));
  }

  /** A read that fails after the program was reaped finishes the worker without telling anyone. */
  lemma {:induction false} BrokenReadIsSilent()
    ensures var w := After(Started(""), [Reaped(Exited(0)), ReadError]); Finished(w) && w.signals == 0
  {
    var es := [Reaped(Exited(0)), ReadError];
    assert es[..1] == [Reaped(Exited(0))] && es[..1][..0] == [];
    assert After(Started(""), es[..1]) == OnReaped(Started(""), Exited(0));
  }

  // ---------- workers given up ----------

  /** CgiManager::cleanupTimedOutWorkers: besides, the process entry goes, so no Reaped follows. */
  function Expire(w: Worker): Worker {
    w.(state := TimedOut)
  }

  /** What the registry must be able to reap: running, and not yet given up. */
  predicate Live(w: Worker) {
    !w.exitStatusSet && !w.state.Errored? && !w.state.TimedOut?
  }

  /** No event revives a worker. */
  lemma {:induction false} LiveOnlyBefore(w: Worker, e: Event)
    ensures Live(Step(w, e)) ==> Live(w)
    ensures !Live(Expire(w))
  {
  }

  /** What befalls a worker: an event of its own, or a sweep of the server loop that finds it idle.
      A worker given up stays in the registry, so later sweeps find it again. */
  datatype Turn = Happens(event: Event) | Sweep

  function Turned(w: Worker, t: Turn): Worker {
    match t
    case Happens(e) => Step(w, e)
    case Sweep => Expire(w)
  }

  /** The state after a history of turns, the latest turn last. */
  function AfterTurns(w: Worker, ts: seq<Turn>): Worker {
    if ts == [] then w else Turned(AfterTurns(w, ts[..|ts| - 1]), ts[|ts| - 1])
  }

  function Earlier(ts: seq<Turn>): seq<Turn>
    requires ts != []
  {
    ts[..|ts| - 1]
  }

  function Latest(ts: seq<Turn>): Turn
    requires ts != []
  {
    ts[|ts| - 1]
  }

  /** A worker that was announced is finished, and its output or its process has ended. */
  ghost predicate Announced(w: Worker) {
    && w.outputComplete == !w.readOpen
    && (w.signals > 0 ==> Finished(w) && (w.exitStatusSet || !w.readOpen))
  }

  lemma {:induction false} AnnouncedStays(w: Worker, e: Event)
    requires Announced(w)
    ensures Announced(Step(w, e)) && Announced(Expire(w))
  {
    match e
    case Reaped(exit) =>
    case _ =>
  }

  lemma {:induction false} StartedAnnounced(body: string)
    ensures Announced(Started(body))
  {
  }

  /** In every history of events and sweeps: whoever was announced is, and stays, finished. */
  lemma {:induction false} AnnouncedAlways(body: string, ts: seq<Turn>)
    ensures Announced(AfterTurns(Started(body), ts))
    decreases |ts|
  {
    if ts == [] {
      StartedAnnounced(body);
    } else {
      AnnouncedAlways(body, Earlier(ts));
      match Latest(ts)
      case Happens(e) => AnnouncedStays(AfterTurns(Started(body), Earlier(ts)), e);
      case Sweep => AnnouncedStays(AfterTurns(Started(body), Earlier(ts)), Eof);
    }
  }

  /** The read side fails, or ends without a header block. */
  predicate Derails(w: Worker, e: Event) {
    Breaks(w, e) || (w.readOpen && e.Eof? && !CgiResponse.Parse(w.buffer).found)
  }

  /** The output closes without a completion byte for a worker given up. */
  predicate Silences(w: Worker, e: Event) {
    Breaks(w, e) || (Derails(w, e) && !w.exitStatusSet)
  }

  predicate Silenced(w0: Worker, ts: seq<Turn>) {
    ts != [] && (Silenced(w0, Earlier(ts))
                 || (Latest(ts).Happens? && Silences(AfterTurns(w0, Earlier(ts)), Latest(ts).event)))
  }

  /** The output has derailed, and no sweep has come since. */
  predicate Unswept(w0: Worker, ts: seq<Turn>) {
    ts != [] && Latest(ts).Happens?
    && (Unswept(w0, Earlier(ts)) || Derails(AfterTurns(w0, Earlier(ts)), Latest(ts).event))
  }

  predicate ReapTurned(ts: seq<Turn>) {
    ts != [] && ((Latest(ts).Happens? && Latest(ts).event.Reaped?) || ReapTurned(Earlier(ts)))
  }

  /** A worker given up, over every history of its events and of later sweeps. Its process entry is gone,
      so it is not reaped any more. It is announced exactly when its output ends otherwise than in silence,
      and while it was not reaped before it is finished exactly unless its output derailed after the last sweep. */
  lemma {:induction false} GivenUpExactly(w0: Worker, ts: seq<Turn>)
    requires Announced(w0) && w0.state.TimedOut? && !ReapTurned(ts)
    ensures var w := AfterTurns(w0, ts);
            && w.signals == w0.signals + (if w0.readOpen && !w.readOpen && !Silenced(w0, ts) then 1 else 0)
            && (Finished(w) <==> w0.exitStatusSet || !Unswept(w0, ts))
            && (w.state.TimedOut? <==> !Unswept(w0, ts))
            && (Silenced(w0, ts) ==> w0.readOpen && !w.readOpen)
            && (Unswept(w0, ts) ==> !w.readOpen)
            && w.exitStatusSet == w0.exitStatusSet && w.outputComplete == !w.readOpen && (w.readOpen ==> w0.readOpen)
    decreases |ts|
  {
    hide CgiResponse.Parse, Step;
    if ts != [] {
      GivenUpExactly(w0, Earlier(ts));
      if Latest(ts).Happens? {
        GivenUpStep(AfterTurns(w0, Earlier(ts)), Latest(ts).event);
      }
    }
  }

  lemma {:induction false} GivenUpStep(w: Worker, e: Event)
    requires !e.Reaped? && w.outputComplete == !w.readOpen && (w.state.TimedOut? || !w.readOpen)
    ensures var v := Step(w, e);
            && v.exitStatusSet == w.exitStatusSet && v.outputComplete == !v.readOpen && (v.readOpen ==> w.readOpen)
            && (w.state.TimedOut? ==> (v.state.TimedOut? <==> !Derails(w, e)))
            && (!w.state.TimedOut? ==> !v.state.TimedOut?)
            && (Derails(w, e) ==> w.readOpen && !v.readOpen)
            && v.signals == w.signals + (if w.readOpen && !v.readOpen && !Silences(w, e) then 1 else 0)
  {
    hide CgiResponse.Parse;
  }

  /** Silence lasts: whatever follows, sweeps included, a worker that went silent is not announced. */
  lemma {:induction false} SilenceLasts(w0: Worker, ts: seq<Turn>, more: seq<Turn>)
    requires Announced(w0) && w0.state.TimedOut? && !ReapTurned(ts + more) && Silenced(w0, ts)
    ensures Silenced(w0, ts + more) && AfterTurns(w0, ts + more).signals == w0.signals
    decreases |more|
  {
    GivenUpExactly(w0, ts + more);
    if more == [] {
      assert ts + more == ts;
    } else {
      assert Earlier(ts + more) == ts + Earlier(more);
      SilenceLasts(w0, ts, Earlier(more));
    }
  }

  /** A program killed for its timeout before it printed a header block: however often the sweep declares
      its worker finished again, nobody is told. */
  lemma {:induction false} SilentTimeout(body: string, ts: seq<Turn>)
    requires !ReapTurned([Happens(Eof)] + ts)
    ensures var w := AfterTurns(Expire(Started(body)), [Happens(Eof)] + ts);
            w.signals == 0 && (Finished(w) <==> Sweep in ts)
  {
    var w0 := Expire(Started(body));
    var first := [Happens(Eof)];
    StartedAnnounced(body);
    NoHeaderBlock();
    assert Earlier(first) == [] && AfterTurns(w0, []) == w0;
    SilenceLasts(w0, first, ts);
    GivenUpExactly(w0, first + ts);
    UnsweptUntil(w0, first, ts);
  }

  lemma {:induction false} UnsweptUntil(w0: Worker, ts: seq<Turn>, more: seq<Turn>)
    requires Announced(w0) && w0.state.TimedOut? && !ReapTurned(ts + more) && Unswept(w0, ts)
    ensures Unswept(w0, ts + more) <==> Sweep !in more
    decreases |more|
  {
    hide CgiResponse.Parse, Step;
    if more == [] {
      assert ts + more == ts;
    } else {
      assert Earlier(ts + more) == ts + Earlier(more) && more == Earlier(more) + [Latest(more)];
      UnsweptUntil(w0, ts, Earlier(more));
      StaysClosed(w0, ts, Earlier(more));
    }
  }

  /** A closed output stays closed. */
  lemma {:induction false} StaysClosed(w0: Worker, ts: seq<Turn>, more: seq<Turn>)
    requires Announced(w0) && w0.state.TimedOut? && !ReapTurned(ts + more) && Unswept(w0, ts)
    ensures !AfterTurns(w0, ts + more).readOpen
    decreases |more|
  {
    hide CgiResponse.Parse;
    if more == [] {
      assert ts + more == ts;
      GivenUpExactly(w0, ts);
    } else {
      assert Earlier(ts + more) == ts + Earlier(more);
      StaysClosed(w0, ts, Earlier(more));
    }
  }

  lemma {:induction false} NoHeaderBlock()
    ensures !CgiResponse.Parse("").found
  {
  }

  // ---------- what a worker given up is answered, and the two sizes ----------

  /** A worker given up that is finished is answered with the gateway timeout, or, if its output derailed after its
      process was reaped and no sweep has come since, as a failed program. */
  lemma {:induction false} GivenUpAnswer(w0: Worker, ts: seq<Turn>)
    requires Announced(w0) && w0.state.TimedOut? && !ReapTurned(ts) && Finished(AfterTurns(w0, ts))
    requires w0.readOpen ==> w0.parsed == CgiResponse.NOTHING
    ensures ResponseOf(AfterTurns(w0, ts)) == if Unswept(w0, ts) then InternalServerError else GatewayTimeout
  {
    hide CgiResponse.Parse, Step, Finished;
    GivenUpExactly(w0, ts);
    GivenUpState(w0, ts);
  }

  lemma {:induction false} GivenUpState(w0: Worker, ts: seq<Turn>)
    requires Announced(w0) && w0.state.TimedOut? && !ReapTurned(ts)
    requires w0.readOpen ==> w0.parsed == CgiResponse.NOTHING
    ensures var w := AfterTurns(w0, ts);
            && (w.readOpen ==> w.parsed == CgiResponse.NOTHING)
            && (Unswept(w0, ts) ==> w.state.Errored? && !w.parsed.hasStatus)
    decreases |ts|
  {
    hide CgiResponse.Parse;
    if ts != [] {
      GivenUpState(w0, Earlier(ts));
      GivenUpExactly(w0, Earlier(ts));
      var w := AfterTurns(w0, Earlier(ts));
      CgiResponse.StatusNeedsHeaders(w.buffer);
    }
  }

  /** The output of a program may be 10485760 bytes long, and no longer. */
  lemma {:induction false} LongestOutput(w: Worker, piece: string)
    requires w.readOpen
    ensures var v := Step(w, Data(piece));
            if |w.buffer| + |piece| <= 10485760 then v == w.(buffer := w.buffer + piece)
            else !v.readOpen && v.state == Errored && v.outputComplete && v.buffer == w.buffer
  {
  }

  /** One write takes what was accepted, but at most 4096 bytes and at most what is left. */
  lemma {:induction false} OneWrite(w: Worker, count: nat)
    requires w.writeOpen && !w.state.Errored? && !w.state.TimedOut? && w.bytesSent <= |w.body| && w.body != ""
    ensures var v, left := Step(w, Wrote(count)), |w.body| - w.bytesSent;
            && v.bytesSent == w.bytesSent + (if count <= 4096 && count <= left then count else if left <= 4096 then left else 4096)
            && (v.writeOpen <==> v.bytesSent < |w.body|)
            && (v.bytesSent == |w.body| ==> v.state == Receiving) && (v.bytesSent < |w.body| ==> v.state == w.state)
  {
  }

  // ---------- failing calls ----------

  /** A failing call closes its pipe and leaves the worker in error, unless there was nothing to write any more
      or it was given up. */
  lemma {:induction false} FailingCalls(w: Worker)
    ensures w.readOpen ==>
              var v := Step(w, ReadError); !v.readOpen && v.outputComplete && v.state.Errored? && v.signals == w.signals
    ensures w.writeOpen && w.body != "" ==>
              var v := Step(w, WriteError);
              !v.writeOpen && v.bytesSent == w.bytesSent && v.state == if w.state.TimedOut? then TimedOut else Errored
    ensures w.writeOpen && w.state in {Errored, TimedOut} ==>
              forall n: nat :: Step(w, Wrote(n)) == w.(writeOpen := false)
  {
  }

  /** An error is never forgotten: whatever events follow, the answer is the program's own if its output gave a
      status, and 500 otherwise. */
  lemma {:induction false} ErrorStays(w0: Worker, es: seq<Event>)
    requires w0.state.Errored?
    ensures var w := After(w0, es);
            w.state.Errored? && ResponseOf(w) == if w.parsed.hasStatus then FromProgram(w.parsed) else InternalServerError
    decreases |es|
  {
    hide CgiResponse.Parse, CgiResponse.StatusCode;
    if es != [] { ErrorStays(w0, Front(es)); }
  }
}
