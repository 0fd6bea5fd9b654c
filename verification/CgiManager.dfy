/** The workers as objects and the registry that finds them by client and by process:
    src/Cgi/CgiWorker.cpp, src/Cgi/CgiManager.cpp and
    src/Server/Client/Events/CgiEndEvent.cpp. */
module CgiManager {
  import opened StringOps
  import opened CgiProtocol
  import CgiResponse

  /** What a read or a write on a non-blocking pipe gave. */
  datatype ReadResult = ReadAgain | ReadFailed | Bytes(data: string)
  datatype WriteResult = WriteAgain | WriteFailed | Accepted(count: nat)

  /** What an outcome of read or write does to a worker, as steps of the protocol. */
  function AfterRead(w: Worker, r: ReadResult): Worker {
    match r
    case ReadAgain => w
    case ReadFailed => Step(w, ReadError)
    case Bytes(data) => Step(w, if data == "" then Eof else Data(data))
  }

  /** A read that fails or brings too much lets the manager reap at once. */
  predicate Breaking(w: Worker, r: ReadResult) {
    w.readOpen && match r
                  case ReadAgain => false
                  case ReadFailed => true
                  case Bytes(data) => data != "" && Breaks(w, Data(data))
  }

  function AfterWrite(w: Worker, r: WriteResult): Worker {
    match r
    case WriteAgain => if w.state in {Errored, TimedOut} || w.body == "" then Step(w, Wrote(0)) else w
    case WriteFailed => Step(w, WriteError)
    case Accepted(count) => Step(w, Wrote(count))
  }

  /** What failing and blocked calls do to the fields. */
  lemma {:induction false} CallsThatFail(w: Worker)
    ensures AfterRead(w, ReadAgain) == w
    ensures w.readOpen ==>
              var v := AfterRead(w, ReadFailed); !v.readOpen && v.outputComplete && v.state.Errored? && v.buffer == w.buffer
    ensures w.writeOpen && w.body != "" && w.state !in {Errored, TimedOut} ==>
              && AfterWrite(w, WriteAgain) == w
              && var v := AfterWrite(w, WriteFailed); !v.writeOpen && v.state.Errored? && v.bytesSent == w.bytesSent
    ensures w.writeOpen && w.state in {Errored, TimedOut} ==>
              forall r :: AfterWrite(w, r) == w.(writeOpen := false)
  {
  }

  lemma {:induction false} LiveBeforeReadOrWrite(w: Worker, r: ReadResult, s: WriteResult)
    ensures (Live(AfterRead(w, r)) ==> Live(w)) && (Live(AfterWrite(w, s)) ==> Live(w))
  {
    hide Step, Live;
    match r {
      case ReadAgain =>
      case ReadFailed => LiveOnlyBefore(w, ReadError);
      case Bytes(data) => LiveOnlyBefore(w, if data == "" then Eof else Data(data));
    }
    match s {
      case WriteAgain => LiveOnlyBefore(w, Wrote(0));
      case WriteFailed => LiveOnlyBefore(w, WriteError);
      case Accepted(count) => LiveOnlyBefore(w, Wrote(count));
    }
  }

  /** A worker whose start failed: with a process, killed at once, or without one. */
  function Orphaned(pid: int): Worker {
    Worker(Errored, false, false, "", 0, "", CgiResponse.NOTHING, true, pid <= 0, 0)
  }

  /** Without a process such a worker counts as finished at once, with one only when it is given up. */
  lemma {:induction false} OrphanFinished(pid: int)
    ensures Finished(Orphaned(pid)) <==> pid <= 0
    ensures Finished(Expire(Orphaned(pid))) && Orphaned(pid).signals == 0
  {
  }

  class CgiWorker {
    const clientFd: int
    const pid: int
    const requestBody: string
    const responseParser: CgiResponse.CgiResponseParser
    /** Whether its descriptors were handed to the event loop, which happens after the start worked. */
    const registered: bool
    var state: State
    var readOpen: bool
    var writeOpen: bool
    var bytesSent: nat
    var responseBuffer: string
    var outputComplete: bool
    var exitStatusSet: bool
    var signals: nat
    var completionNotified: bool

    /** The worker as it is when fork, the pipes and their flags have all worked. */
    constructor (clientFd: int, pid: int, body: string)
      ensures this.clientFd == clientFd && this.pid == pid && registered && !completionNotified
      ensures fresh(responseParser) && View() == Started(body) && Valid()
    {
      this.clientFd, this.pid, requestBody, registered := clientFd, pid, body, true;
      responseParser := new CgiResponse.CgiResponseParser();
      state, readOpen, writeOpen := (if body == "" then Receiving else SendingBody), true, body != "";
      bytesSent, responseBuffer := 0, "";
      outputComplete, exitStatusSet, signals, completionNotified := false, false, 0, false;
    }

    /** The worker that stays behind when starting failed: before there was a process, or after, in which
        case the process is killed and its exit status is not known. */
    constructor Unstarted(clientFd: int, pid: int)
      ensures this.clientFd == clientFd && this.pid == pid && !registered
      ensures fresh(responseParser) && View() == Orphaned(pid) && Valid()
    {
      this.clientFd, this.pid, requestBody, registered := clientFd, pid, "", false;
      responseParser := new CgiResponse.CgiResponseParser();
      state, readOpen, writeOpen, bytesSent, responseBuffer := Errored, false, false, 0, "";
      outputComplete, exitStatusSet, signals, completionNotified := true, pid <= 0, 0, false;
    }

    function View(): Worker
      reads this, responseParser
    {
      Worker(state, readOpen, writeOpen, requestBody, bytesSent, responseBuffer, responseParser.held,
             outputComplete, exitStatusSet, signals)
    }

    /** The response parser is used once, at the end of the output. */
    predicate Valid()
      reads this, responseParser
    {
      readOpen ==> responseParser.held == CgiResponse.NOTHING
    }

    predicate IsFinished()
      reads this
    {
      state.TimedOut? || (outputComplete && exitStatusSet)
    }

    /** Its process runs, as far as the worker knows, and somebody waits for the result. */
    predicate IsLive()
      reads this
    {
      registered && !exitStatusSet && !state.Errored? && !state.TimedOut?
    }

    /** CgiWorker::handleRead; `sweep` tells the manager to reap at once. */
    method HandleRead(r: ReadResult) returns (sweep: bool)
      requires Valid()
      modifies this, responseParser
      ensures Valid() && completionNotified == old(completionNotified)
      ensures View() == AfterRead(old(View()), r)
      ensures sweep <==> Breaking(old(View()), r)
    {
      sweep := false;
      if !readOpen || r.ReadAgain? {
        return;
      }
      if r.ReadFailed? {
        state, readOpen, outputComplete := Errored, false, true;
        return true;
      }
      if r.data == "" {
        readOpen := false;
        responseParser.ParseResponse(responseBuffer);
        if !responseParser.held.found {
          state := Errored;
        } else if state != Errored && state != TimedOut {
          state := Completed;
        }
        outputComplete := true;
        if IsFinished() {
          signals := signals + 1;
        }
      } else {
        if MAX_RESPONSE < |responseBuffer| + |r.data| {
          state, readOpen, outputComplete := Errored, false, true;
          return true;
        }
        responseBuffer := responseBuffer + r.data;
      }
    }

    /** CgiWorker::handleWrite. */
    method HandleWrite(r: WriteResult)
      requires Valid() && bytesSent <= |requestBody|
      modifies this`state, this`writeOpen, this`bytesSent
      ensures Valid() && bytesSent <= |requestBody|
      ensures View() == AfterWrite(old(View()), r)
    {
      hide OnEof, OnData, OnBroken, OnReaped;
      if !writeOpen {
        return;
      }
      if state == Errored || state == TimedOut {
        writeOpen := false;
        return;
      }
      if requestBody == "" {
        writeOpen, state := false, Receiving;
        return;
      }
      var left := |requestBody| - bytesSent;
      var bytesToWrite := if left < 4096 then left else 4096;
      match r
      case WriteAgain =>
      case WriteFailed =>
        state, writeOpen := Errored, false;
      case Accepted(count) =>
        bytesSent := bytesSent + if count < bytesToWrite then count else bytesToWrite;
        if bytesSent >= |requestBody| {
          writeOpen, state := false, Receiving;
        }
    }

    /** The part of cleanupFinishedWorkers that concerns the worker found. */
    method Reap(exit: Exit)
      modifies this`state, this`exitStatusSet, this`signals
      ensures View() == Step(old(View()), Reaped(exit))
    {
      exitStatusSet := true;
      if state != TimedOut {
        match exit
        case Signaled(_) => state := Errored;
        case Exited(code) =>
          if code != 0 && !CgiResponse.HasStatus(responseParser.held) {
            state := Errored;
          }
      }
      if IsFinished() {
        signals := signals + 1;
      }
    }
  }

  /** What starting a program for a request comes to before and in the worker's constructor. A start can
      fail without a process, whose id is then -1, or with one. */
  datatype Launch = Refused(status: nat) | StartFailed(pid: int) | Forked(pid: int, body: string)

  /** What the first or a later event on the completion pipe puts into the send buffer. */
  datatype Sent = Nothing | DefaultPage | Page(response: Response)

  // ---------- what waitpid reports ----------

  /** The exit status under which waitpid first reported a process, if it did. */
  function ExitOf(reaped: seq<(int, Exit)>, pid: int): Option<Exit> {
    if reaped == [] then None
    else if ExitOf(reaped[..|reaped| - 1], pid).Some? then ExitOf(reaped[..|reaped| - 1], pid)
    else if reaped[|reaped| - 1].0 == pid then Some(reaped[|reaped| - 1].1)
    else None
  }

  function Reported(reaped: seq<(int, Exit)>): set<int> {
    set i | 0 <= i < |reaped| :: reaped[i].0
  }

  lemma {:induction false} NoneReaped(reaped: seq<(int, Exit)>, pid: int)
    ensures ExitOf(reaped[..0], pid) == None && Reported(reaped[..0]) == {}
  {
  }

  lemma {:induction false} ExitOfNext(reaped: seq<(int, Exit)>, k: nat, pid: int)
    requires k < |reaped|
    ensures ExitOf(reaped[..k + 1], pid)
         == if ExitOf(reaped[..k], pid).Some? then ExitOf(reaped[..k], pid)
            else if reaped[k].0 == pid then Some(reaped[k].1) else None
  {
    var more := reaped[..k + 1];
    assert more[..|more| - 1] == reaped[..k] && more[|more| - 1] == reaped[k];
  }

  lemma {:induction false} ReportedNext(reaped: seq<(int, Exit)>, k: nat)
    requires k < |reaped|
    ensures Reported(reaped[..k + 1]) == Reported(reaped[..k]) + {reaped[k].0}
  {
    assert reaped[..k + 1] == reaped[..k] + [reaped[k]];
  }

  lemma {:induction false} ExitOfReported(reaped: seq<(int, Exit)>, pid: int)
    ensures ExitOf(reaped, pid).Some? <==> pid in Reported(reaped)
    decreases |reaped|
  {
    if reaped != [] {
      ExitOfReported(reaped[..|reaped| - 1], pid);
      ReportedNext(reaped, |reaped| - 1);
      assert reaped[..|reaped| - 1 + 1] == reaped;
    }
  }

  /** A worker after it was told its exit status, if any. */
  function Told(w: Worker, exit: Option<Exit>): Worker {
    if exit.None? then w else Step(w, Reaped(exit.value))
  }

  /** The exit status that reaches a worker: that of its process, if the process entry is its own. */
  function Due(known: map<int, CgiWorker>, reaped: seq<(int, Exit)>, w: CgiWorker): Option<Exit> {
    if Finds(known, w) then ExitOf(reaped, w.pid) else None
  }

  /** One more report reaches exactly the worker whose entry is still there. */
  lemma {:induction false} ToldNext(known: map<int, CgiWorker>, reaped: seq<(int, Exit)>, k: nat, w: CgiWorker, was: Worker)
    requires k < |reaped|
    ensures var (pid, exit) := reaped[k];
            Told(was, Due(known, reaped[..k + 1], w))
            == (if Finds(known - Reported(reaped[..k]), w) && w.pid == pid then Step(was, Reaped(exit))
                else Told(was, Due(known, reaped[..k], w)))
    ensures Finds(known - Reported(reaped[..k]), w) ==> Told(was, Due(known, reaped[..k], w)) == was
  {
    hide Step, ExitOf, Reported;
    ExitOfNext(reaped, k, w.pid);
    ExitOfReported(reaped[..k], w.pid);
  }

  lemma {:induction false} ToldNothing(known: map<int, CgiWorker>, reaped: seq<(int, Exit)>, w: CgiWorker, was: Worker)
    ensures Told(was, Due(known, reaped[..0], w)) == was
  {
    NoneReaped(reaped, w.pid);
  }

  // ---------- the two maps ----------

  /** The entry of its process is the worker's own. */
  predicate Finds(pids: map<int, CgiWorker>, w: CgiWorker) {
    w.pid in pids && pids[w.pid] == w
  }

  /** No entry dangles: every entry points to a registered worker that is still there and has that client
      or process. Every worker has a response parser of its own. */
  ghost predicate Consistent(ws: seq<CgiWorker>, clients: map<int, CgiWorker>, pids: map<int, CgiWorker>) {
    && (forall i, j | 0 <= i < j < |ws| :: ws[i] != ws[j] && ws[i].responseParser != ws[j].responseParser)
    && (forall w | w in ws && w.registered :: w.pid > 0)
    && (forall fd | fd in clients :: clients[fd] in ws && clients[fd].clientFd == fd && clients[fd].registered)
    && (forall pid | pid in pids :: pids[pid] in ws && pids[pid].pid == pid && pids[pid].registered)
  }

  /** Every registered worker can be found by its client. */
  ghost predicate AllTracked(ws: seq<CgiWorker>, clients: map<int, CgiWorker>) {
    forall w | w in ws && w.registered :: w.clientFd in clients && clients[w.clientFd] == w
  }

  /** No two workers share a process id. */
  ghost predicate DistinctPids(ws: seq<CgiWorker>) {
    forall v, w | v in ws && w in ws && v.pid > 0 && v.pid == w.pid :: v == w
  }

  function KeyOf(w: CgiWorker): set<int> {
    if w.pid > 0 then {w.pid} else {}
  }

  /** The process ids and the clients of some workers. */
  function PidsOf(ws: seq<CgiWorker>): set<int> {
    if ws == [] then {} else PidsOf(ws[..|ws| - 1]) + KeyOf(ws[|ws| - 1])
  }

  function ClientsOf(ws: seq<CgiWorker>): (clients: seq<int>)
    ensures |clients| == |ws| && forall i | 0 <= i < |ws| :: clients[i] == ws[i].clientFd
  {
    if ws == [] then [] else ClientsOf(ws[..|ws| - 1]) + [ws[|ws| - 1].clientFd]
  }

  lemma {:induction false} NobodyGivenUp(ws: seq<CgiWorker>)
    ensures PidsOf(ws[..0]) == {} && ClientsOf(ws[..0]) == []
  {
  }

  lemma {:induction false} GivenUpNext(ws: seq<CgiWorker>, k: nat)
    requires k < |ws|
    ensures PidsOf(ws[..k + 1]) == PidsOf(ws[..k]) + KeyOf(ws[k])
    ensures ClientsOf(ws[..k + 1]) == ClientsOf(ws[..k]) + [ws[k].clientFd]
    ensures forall v :: v in ws[..k + 1] <==> v in ws[..k] || v == ws[k]
  {
    assert ws[..k + 1][..k] == ws[..k] && ws[..k + 1] == ws[..k] + [ws[k]];
  }

  lemma {:induction false} PidOfSomeone(ws: seq<CgiWorker>, pid: int)
    ensures pid in PidsOf(ws) <==> pid > 0 && exists w :: w in ws && w.pid == pid
    decreases |ws|
  {
    if ws != [] {
      PidOfSomeone(ws[..|ws| - 1], pid);
      assert ws == ws[..|ws| - 1] + [ws[|ws| - 1]];
    }
  }

  /** std::remove followed by erase. */
  function Without(ws: seq<CgiWorker>, w: CgiWorker): (r: seq<CgiWorker>)
    requires forall i, j | 0 <= i < j < |ws| :: ws[i] != ws[j]
    ensures (forall v | v in r :: v in ws && v != w) && (forall v | v in ws && v != w :: v in r)
    ensures forall i, j | 0 <= i < j < |r| :: r[i] != r[j]
    ensures |r| == if w in ws then |ws| - 1 else |ws|
  {
    if ws == [] then []
    else
      assert ws == ws[..|ws| - 1] + [ws[|ws| - 1]];
      var r := Without(ws[..|ws| - 1], w);
      assert forall i | 0 <= i < |r| :: r[i] in ws[..|ws| - 1];
      if ws[|ws| - 1] == w then r else r + [ws[|ws| - 1]]
  }

  lemma {:induction false} ConsistentDistinct(ws: seq<CgiWorker>, clients: map<int, CgiWorker>, pids: map<int, CgiWorker>)
    requires Consistent(ws, clients, pids)
    ensures forall i, j | 0 <= i < j < |ws| :: ws[i] != ws[j]
    ensures forall v, w | v in ws && w in ws && v.responseParser == w.responseParser :: v == w
    ensures forall fd | fd in clients :: clients[fd] in ws && clients[fd].clientFd == fd && clients[fd].registered
    ensures forall pid | pid in pids :: pids[pid] in ws && pids[pid].pid == pid && pids[pid].registered
    ensures forall w | w in ws && w.registered :: w.pid > 0
  {
    forall v, w | v in ws && w in ws && v.responseParser == w.responseParser ensures v == w {
      var i :| 0 <= i < |ws| && ws[i] == v;
      var j :| 0 <= j < |ws| && ws[j] == w;
    }
  }

  lemma {:induction false} ConsistentFewerPids(
      ws: seq<CgiWorker>, clients: map<int, CgiWorker>, pids: map<int, CgiWorker>, gone: set<int>)
    requires Consistent(ws, clients, pids)
    ensures Consistent(ws, clients, pids - gone)
  {
  }

  lemma {:induction false} ConsistentMore(
      ws: seq<CgiWorker>, clients: map<int, CgiWorker>, pids: map<int, CgiWorker>, w: CgiWorker)
    requires Consistent(ws, clients, pids) && (w.registered ==> w.pid > 0)
    requires forall v | v in ws :: v != w && v.responseParser != w.responseParser
    ensures Consistent(ws + [w], clients, pids)
    ensures w.registered ==> Consistent(ws + [w], clients[w.clientFd := w], pids[w.pid := w])
  {
    var more := ws + [w];
    forall i, j | 0 <= i < j < |more| ensures more[i] != more[j] && more[i].responseParser != more[j].responseParser {
      assert more[i] == ws[i] && ws[i] in ws;
    }
    assert w in more;
  }

  lemma {:induction false} ConsistentWithout(
      ws: seq<CgiWorker>, clients: map<int, CgiWorker>, pids: map<int, CgiWorker>, w: CgiWorker)
    requires Consistent(ws, clients, pids)
    requires forall i, j | 0 <= i < j < |ws| :: ws[i] != ws[j]
    ensures Consistent(Without(ws, w), clients - {w.clientFd}, pids - KeyOf(w))
  {
    ConsistentDistinct(ws, clients, pids);
    var r := Without(ws, w);
    forall i, j | 0 <= i < j < |r| ensures r[i].responseParser != r[j].responseParser {
      assert r[i] in ws && r[j] in ws && r[i] != r[j];
    }
  }

  /** A client that starts a second program hides the first. */
  lemma {:induction false} TrackedMore(ws: seq<CgiWorker>, clients: map<int, CgiWorker>, w: CgiWorker)
    requires AllTracked(ws, clients) && w !in ws
    requires forall fd | fd in clients :: clients[fd] in ws && clients[fd].clientFd == fd && clients[fd].registered
    ensures !w.registered ==> AllTracked(ws + [w], clients)
    ensures w.registered ==> (AllTracked(ws + [w], clients[w.clientFd := w]) <==> w.clientFd !in clients)
  {
    if w.clientFd in clients {
      assert clients[w.clientFd] in ws + [w];
    }
  }

  lemma {:induction false} TrackedWithout(ws: seq<CgiWorker>, clients: map<int, CgiWorker>, w: CgiWorker)
    requires AllTracked(ws, clients) && w in ws && w.registered
    requires forall i, j | 0 <= i < j < |ws| :: ws[i] != ws[j]
    ensures AllTracked(Without(ws, w), clients - {w.clientFd})
  {
  }

  class CgiManager {
    const maxWorkers: nat
    var workers: seq<CgiWorker>
    var clientFdToWorker: map<int, CgiWorker>
    var pidToWorker: map<int, CgiWorker>
    var completedClients: seq<int>

    constructor (maxWorkers: nat)
      ensures Valid() && this.maxWorkers == maxWorkers && Tracked() && Reapable()
      ensures workers == [] && clientFdToWorker == map[] && pidToWorker == map[]
    {
      this.maxWorkers := maxWorkers;
      workers, clientFdToWorker, pidToWorker, completedClients := [], map[], map[], [];
    }

    /** The limit holds and no entry dangles. */
    ghost predicate Valid()
      reads this
    {
      |workers| <= maxWorkers && Consistent(workers, clientFdToWorker, pidToWorker)
    }

    /** Every registered worker can be found by its client. */
    ghost predicate Tracked()
      reads this
    {
      AllTracked(workers, clientFdToWorker)
    }

    /** Every registered worker that is neither reaped nor failed nor given up can be found by its process. */
    ghost predicate Reapable()
      reads this, workers
    {
      forall w | w in workers && w.IsLive() :: Finds(pidToWorker, w)
    }

    /** The live workers that cannot be found by their process are exactly those with one of these ids. */
    ghost predicate ReapableExcept(gone: set<int>)
      reads this, workers
    {
      forall w | w in workers && w.IsLive() :: Finds(pidToWorker, w) <==> w.pid !in gone
    }

    /** CgiManager::createWorker: the status of a refusal, 0 when the program runs. A live worker loses its
        process entry exactly if the new process has its id. */
    method CreateWorker(clientFd: int, launch: Launch) returns (status: nat)
      requires Valid() && (launch.Forked? ==> launch.pid > 0)
      modifies this`workers, this`clientFdToWorker, this`pidToWorker
      ensures Valid()
      ensures |old(workers)| >= maxWorkers ==>
                status == 503 && unchanged(`workers) && unchanged(`clientFdToWorker) && unchanged(`pidToWorker)
      ensures |old(workers)| < maxWorkers && launch.Refused? ==>
                status == launch.status && unchanged(`workers) && unchanged(`clientFdToWorker) && unchanged(`pidToWorker)
      ensures |old(workers)| < maxWorkers && launch.StartFailed? ==>
                && status == 500 && unchanged(`clientFdToWorker) && unchanged(`pidToWorker)
                && |workers| == |old(workers)| + 1
                && var w := workers[|old(workers)|];
                   && workers == old(workers) + [w] && fresh(w) && fresh(w.responseParser)
                   && w.View() == Orphaned(launch.pid) && w.Valid()
                   && w.pid == launch.pid && w.clientFd == clientFd && !w.registered
      ensures |old(workers)| < maxWorkers && launch.Forked? ==>
                && status == 0 && |workers| == |old(workers)| + 1
                && var w := workers[|old(workers)|];
                   && workers == old(workers) + [w] && fresh(w) && fresh(w.responseParser)
                   && w.View() == Started(launch.body) && w.Valid()
                   && w.pid == launch.pid && w.clientFd == clientFd && w.registered && w.IsLive()
                   && clientFdToWorker == old(clientFdToWorker)[clientFd := w]
                   && pidToWorker == old(pidToWorker)[launch.pid := w]
      ensures old(Tracked()) ==>
                (Tracked() <==> !(launch.Forked? && |old(workers)| < maxWorkers && clientFd in old(clientFdToWorker)))
      ensures old(Reapable()) ==>
                (Reapable() <==> !(launch.Forked? && |old(workers)| < maxWorkers
                                   && exists v | v in old(workers) :: v.IsLive() && v.pid == launch.pid))
    {
      if |workers| >= maxWorkers {
        return 503;
      }
      if launch.Refused? {
        return launch.status;
      }
      if launch.StartFailed? {
        Orphan(clientFd, launch.pid);
        return 500;
      }
      Register(clientFd, launch.pid, launch.body);
      status := 0;
    }

    /** A worker whose start failed is stored without entries. */
    method Orphan(clientFd: int, pid: int)
      requires Valid() && |workers| < maxWorkers
      modifies this`workers
      ensures Valid() && |workers| == |old(workers)| + 1
      ensures var w := workers[|old(workers)|];
              && workers == old(workers) + [w] && fresh(w) && fresh(w.responseParser)
              && w.View() == Orphaned(pid) && w.Valid()
              && w.pid == pid && w.clientFd == clientFd && !w.registered
      ensures (old(Tracked()) ==> Tracked()) && (old(Reapable()) ==> Reapable())
    {
      hide Consistent, AllTracked;
      var orphan := new CgiWorker.Unstarted(clientFd, pid);
      ConsistentDistinct(workers, clientFdToWorker, pidToWorker);
      ConsistentMore(workers, clientFdToWorker, pidToWorker, orphan);
      if Tracked() {
        TrackedMore(workers, clientFdToWorker, orphan);
      }
      workers := workers + [orphan];
    }

    /** The worker is stored and entered under its client and its process. */
    method Register(clientFd: int, pid: int, body: string)
      requires Valid() && |workers| < maxWorkers && pid > 0
      modifies this`workers, this`clientFdToWorker, this`pidToWorker
      ensures Valid() && |workers| == |old(workers)| + 1
      ensures var w := workers[|old(workers)|];
              && workers == old(workers) + [w] && fresh(w) && fresh(w.responseParser)
              && w.View() == Started(body) && w.Valid()
              && w.pid == pid && w.clientFd == clientFd && w.registered && w.IsLive()
              && clientFdToWorker == old(clientFdToWorker)[clientFd := w]
              && pidToWorker == old(pidToWorker)[pid := w]
      ensures old(Tracked()) ==> (Tracked() <==> clientFd !in old(clientFdToWorker))
      ensures old(Reapable()) ==>
                (Reapable() <==> !exists v | v in old(workers) :: v.IsLive() && v.pid == pid)
    {
      hide Consistent, AllTracked;
      var worker := new CgiWorker(clientFd, pid, body);
      ConsistentDistinct(workers, clientFdToWorker, pidToWorker);
      ConsistentMore(workers, clientFdToWorker, pidToWorker, worker);
      if Tracked() {
        TrackedMore(workers, clientFdToWorker, worker);
      }
      workers := workers + [worker];
      clientFdToWorker := clientFdToWorker[worker.clientFd := worker];
      pidToWorker := pidToWorker[worker.pid := worker];
    }

    /** The pointer is erased from the vector, and its two keys from the maps, whoever's they are: a live
        worker loses its process entry exactly if it has the id of the worker removed. */
    method RemoveWorker(worker: CgiWorker)
      requires Valid() && worker in workers
      modifies this`workers, this`clientFdToWorker, this`pidToWorker
      ensures Valid() && workers == Without(old(workers), worker)
      ensures clientFdToWorker == old(clientFdToWorker) - {worker.clientFd}
      ensures pidToWorker == old(pidToWorker) - KeyOf(worker)
      ensures old(Tracked()) && worker.registered ==> Tracked()
      ensures old(Reapable()) ==> ReapableExcept(KeyOf(worker))
      ensures old(Reapable()) && DistinctPids(old(workers)) ==> Reapable()
    {
      hide Consistent, AllTracked;
      ConsistentDistinct(workers, clientFdToWorker, pidToWorker);
      ConsistentWithout(workers, clientFdToWorker, pidToWorker, worker);
      if Tracked() && worker.registered {
        TrackedWithout(workers, clientFdToWorker, worker);
      }
      workers := Without(workers, worker);
      clientFdToWorker := clientFdToWorker - {worker.clientFd};
      if worker.pid > 0 {
        pidToWorker := pidToWorker - {worker.pid};
      } else {
        assert pidToWorker - {} == pidToWorker;
      }
    }

    /** CgiManager::isCgiComplete: None when there is nothing to answer. */
    method IsCgiComplete(clientFd: int) returns (res: Option<Response>)
      requires Valid()
      modifies this`workers, this`clientFdToWorker, this`pidToWorker
      ensures Valid()
      ensures if clientFd in old(clientFdToWorker) && old(clientFdToWorker[clientFd].IsFinished())
              then
                var w := old(clientFdToWorker)[clientFd];
                && res == Some(ResponseOf(w.View())) && w in old(workers) && workers == Without(old(workers), w)
                && clientFdToWorker == old(clientFdToWorker) - {clientFd} && pidToWorker == old(pidToWorker) - KeyOf(w)
                && (old(Reapable()) ==> ReapableExcept(KeyOf(w)))
              else
                res.None? && unchanged(`workers) && unchanged(`clientFdToWorker) && unchanged(`pidToWorker)
      ensures old(Tracked()) ==> Tracked()
      ensures old(Reapable()) && DistinctPids(old(workers)) ==> Reapable()
    {
      hide Consistent, AllTracked, Without;
      ConsistentDistinct(workers, clientFdToWorker, pidToWorker);
      if clientFd !in clientFdToWorker {
        return None;
      }
      var worker := clientFdToWorker[clientFd];
      if !worker.IsFinished() {
        return None;
      }
      var held := worker.responseParser.held;
      if worker.state == Completed {
        res := Some(FromProgram(held));
      } else if worker.state == TimedOut {
        res := Some(GatewayTimeout);
      } else if CgiResponse.HasStatus(held) {
        res := Some(FromProgram(held));
      } else {
        res := Some(InternalServerError);
      }
      RemoveWorker(worker);
    }

    /** CgiEndEvent::process after draining the pipe: the first event sends what isCgiComplete made of the
        response, which without a finished worker of the client is the untouched default; a second event finds
        the flag set. A byte in the pipe means an announced worker, and then it is that worker's response. */
    method EndEvent(worker: CgiWorker, clientFd: int) returns (sent: Sent)
      requires Valid()
      modifies this`workers, this`clientFdToWorker, this`pidToWorker, worker`completionNotified
      ensures Valid() && worker.completionNotified
      ensures if old(worker.completionNotified)
              then sent.Nothing? && unchanged(`workers) && unchanged(`clientFdToWorker) && unchanged(`pidToWorker)
              else if clientFd in old(clientFdToWorker) && old(clientFdToWorker[clientFd].IsFinished())
              then
                var w := old(clientFdToWorker)[clientFd];
                && sent == Page(old(ResponseOf(clientFdToWorker[clientFd].View())))
                && w in old(workers) && workers == Without(old(workers), w)
                && clientFdToWorker == old(clientFdToWorker) - {clientFd} && pidToWorker == old(pidToWorker) - KeyOf(w)
                && (old(Reapable()) ==> ReapableExcept(KeyOf(w)))
              else
                sent.DefaultPage? && unchanged(`workers) && unchanged(`clientFdToWorker) && unchanged(`pidToWorker)
      ensures !old(worker.completionNotified) && old(Tracked()) && worker in old(workers) && worker.registered
              && worker.clientFd == clientFd && old(worker.signals) > 0 && old(Announced(worker.View()))
              ==> sent == Page(old(ResponseOf(worker.View()))) && worker !in workers
      ensures old(Tracked()) ==> Tracked()
      ensures old(Reapable()) && DistinctPids(old(workers)) ==> Reapable()
    {
      hide Consistent, Without, ResponseOf;
      if worker.completionNotified {
        return Nothing;
      }
      worker.completionNotified := true;
      ConsistentDistinct(workers, clientFdToWorker, pidToWorker);
      var res := IsCgiComplete(clientFd);
      sent := if res.Some? then Page(res.value) else DefaultPage;
    }

    /** CgiManager::abortClient. */
    method AbortClient(clientFd: int)
      requires Valid()
      modifies this`workers, this`clientFdToWorker, this`pidToWorker
      ensures Valid()
      ensures if clientFd in old(clientFdToWorker)
              then
                var w := old(clientFdToWorker)[clientFd];
                && w in old(workers) && workers == Without(old(workers), w)
                && clientFdToWorker == old(clientFdToWorker) - {clientFd} && pidToWorker == old(pidToWorker) - KeyOf(w)
                && (old(Reapable()) ==> ReapableExcept(KeyOf(w)))
              else
                unchanged(`workers) && unchanged(`clientFdToWorker) && unchanged(`pidToWorker)
      ensures old(Tracked()) ==> Tracked()
      ensures old(Reapable()) && DistinctPids(old(workers)) ==> Reapable()
    {
      hide Consistent, AllTracked, Without;
      ConsistentDistinct(workers, clientFdToWorker, pidToWorker);
      if clientFd !in clientFdToWorker {
        return;
      }
      var worker := clientFdToWorker[clientFd];
      if worker.pid > 0 {
        ConsistentFewerPids(workers, clientFdToWorker, pidToWorker, {worker.pid});
        pidToWorker := pidToWorker - {worker.pid};
      }
      RemoveWorker(worker);
    }

    /** One turn of the reaping loop: the worker is looked up, forgotten and told. */
    method ReapOne(pid: int, exit: Exit)
      requires Valid()
      modifies this`pidToWorker, if pid in pidToWorker then {pidToWorker[pid]} else {}
      ensures Valid() && pidToWorker == old(pidToWorker) - {pid}
      ensures pid in old(pidToWorker) ==>
                old(pidToWorker)[pid].View() == Step(old(pidToWorker[pid].View()), Reaped(exit))
      ensures old(Reapable()) ==> Reapable()
    {
      hide Consistent, Step;
      ConsistentDistinct(workers, clientFdToWorker, pidToWorker);
      ConsistentFewerPids(workers, clientFdToWorker, pidToWorker, {pid});
      if pid in pidToWorker {
        var worker := pidToWorker[pid];
        pidToWorker := pidToWorker - {pid};
        ReapedIsNotLive(worker.View(), exit);
        worker.Reap(exit);
        assert worker.View().exitStatusSet;
      } else {
        assert pidToWorker - {pid} == pidToWorker;
      }
    }

    /** CgiManager::cleanupFinishedWorkers: what waitpid reports, process by process. */
    method CleanupFinishedWorkers(reaped: seq<(int, Exit)>)
      requires Valid()
      modifies this`pidToWorker, workers
      ensures Valid() && workers == old(workers) && clientFdToWorker == old(clientFdToWorker)
      ensures pidToWorker == old(pidToWorker) - Reported(reaped)
      ensures forall w | w in workers :: w.View() == Told(old(w.View()), Due(old(pidToWorker), reaped, w))
      ensures (old(Tracked()) ==> Tracked()) && (old(Reapable()) ==> Reapable())
    {
      hide Consistent, AllTracked, Reapable, Step, Told, Due, Reported;
      ghost var known := pidToWorker;
      forall w | w in workers ensures w.View() == Told(w.View(), Due(known, reaped[..0], w)) {
        ToldNothing(known, reaped, w, w.View());
      }
      NoneReaped(reaped, 0);
      for k := 0 to |reaped|
        invariant Valid() && workers == old(workers) && clientFdToWorker == old(clientFdToWorker)
        invariant pidToWorker == known - Reported(reaped[..k])
        invariant forall w | w in workers :: w.View() == Told(old(w.View()), Due(known, reaped[..k], w))
        invariant old(Reapable()) ==> Reapable()
      {
        var (pid, exit) := reaped[k];
        ConsistentDistinct(workers, clientFdToWorker, pidToWorker);
        label Before:
        ReapOne(pid, exit);
        forall w | w in workers ensures w.View() == Told(old(w.View()), Due(known, reaped[..k + 1], w)) {
          ToldNext(known, reaped, k, w, old(w.View()));
          if Finds(known - Reported(reaped[..k]), w) && w.pid == pid {
            assert w.View() == Step(old@Before(w.View()), Reaped(exit));
          } else {
            assert w.View() == old@Before(w.View());
          }
        }
        ReportedNext(reaped, k);
      }
      assert reaped[..|reaped|] == reaped;
    }

    /** One turn of the second loop: the process is killed and forgotten, whoever's its entry is. */
    method GiveUp(worker: CgiWorker)
      requires Valid() && worker in workers
      modifies this`pidToWorker, this`completedClients, worker`state
      ensures Valid() && worker.View() == Expire(old(worker.View()))
      ensures pidToWorker == old(pidToWorker) - KeyOf(worker)
      ensures completedClients == old(completedClients) + [worker.clientFd]
    {
      hide Consistent;
      ConsistentFewerPids(workers, clientFdToWorker, pidToWorker, KeyOf(worker));
      assert pidToWorker - {} == pidToWorker;
      if worker.pid > 0 {
        pidToWorker := pidToWorker - {worker.pid};
      }
      worker.state := TimedOut;
      completedClients := completedClients + [worker.clientFd];
    }

    /** CgiManager::cleanupTimedOutWorkers on the workers found idle for too long. Of the others exactly those
        lose their process entry that have the id of an idle one. */
    method CleanupTimedOutWorkers(idle: seq<CgiWorker>)
      requires Valid() && forall w | w in idle :: w in workers
      modifies this`pidToWorker, this`completedClients, workers
      ensures Valid() && workers == old(workers) && clientFdToWorker == old(clientFdToWorker)
      ensures forall w | w in workers :: w.View() == if w in idle then Expire(old(w.View())) else old(w.View())
      ensures pidToWorker == old(pidToWorker) - PidsOf(idle)
      ensures completedClients == old(completedClients) + ClientsOf(idle)
      ensures old(Tracked()) ==> Tracked()
      ensures old(Reapable()) ==> ReapableExcept(PidsOf(idle))
      ensures old(Reapable()) && DistinctPids(workers) ==> Reapable()
    {
      hide Consistent, AllTracked, PidsOf, ClientsOf, KeyOf, Reapable, ReapableExcept;
      NobodyGivenUp(idle);
      for k := 0 to |idle|
        invariant Valid() && workers == old(workers) && clientFdToWorker == old(clientFdToWorker)
        invariant forall w | w in workers ::
                    w.View() == if w in idle[..k] then Expire(old(w.View())) else old(w.View())
        invariant pidToWorker == old(pidToWorker) - PidsOf(idle[..k])
        invariant completedClients == old(completedClients) + ClientsOf(idle[..k])
      {
        assert idle[k] in idle;
        GivenUpNext(idle, k);
        GiveUp(idle[k]);
      }
      assert idle[..|idle|] == idle;
      if old(Reapable()) {
        LeftReapable(idle);
      }
    }

    /** What remains reapable when some workers were given up. */
    twostate lemma LeftReapable(idle: seq<CgiWorker>)
      requires old(Reapable()) && workers == old(workers) && pidToWorker == old(pidToWorker) - PidsOf(idle)
      requires forall w | w in idle :: w in workers
      requires forall w | w in workers :: w.IsLive() ==> old(w.IsLive()) && w !in idle
      ensures ReapableExcept(PidsOf(idle))
      ensures DistinctPids(workers) ==> Reapable()
    {
      hide PidsOf;
      forall w | w in workers && w.IsLive() && DistinctPids(workers) ensures w.pid !in PidsOf(idle) {
        PidOfSomeone(idle, w.pid);
      }
    }

    /** Events of single workers, which never bring one back to life, keep the registry reapable. */
    twostate lemma StillReapable()
      requires old(Reapable()) && workers == old(workers) && pidToWorker == old(pidToWorker)
      requires forall w | w in workers :: w.IsLive() ==> old(w.IsLive())
      ensures Reapable()
    {
      forall w | w in workers && w.IsLive() ensures Finds(pidToWorker, w) {
        assert old(w.IsLive());
      }
    }

    /** CgiReadEvent on a registered worker; a read that breaks lets the manager reap at once. */
    method OnRead(worker: CgiWorker, r: ReadResult, reaped: seq<(int, Exit)>)
      requires Valid() && worker in workers && worker.Valid()
      modifies this`pidToWorker, workers, worker.responseParser
      ensures Valid() && workers == old(workers) && clientFdToWorker == old(clientFdToWorker)
      ensures pidToWorker == old(pidToWorker) - (if old(Breaking(worker.View(), r)) then Reported(reaped) else {})
      ensures forall w | w in workers ::
                var v := if w == worker then AfterRead(old(w.View()), r) else old(w.View());
                w.View() == if old(Breaking(worker.View(), r)) then Told(v, Due(old(pidToWorker), reaped, w)) else v
      ensures (old(Tracked()) ==> Tracked()) && (old(Reapable()) ==> Reapable())
    {
      hide Consistent, AllTracked, AfterRead, Breaking, Told, Due, Reported, Reapable;
      ConsistentDistinct(workers, clientFdToWorker, pidToWorker);
      var sweep := worker.HandleRead(r);
      LiveBeforeReadOrWrite(old(worker.View()), r, WriteAgain);
      assert worker.IsLive() ==> Live(worker.View());
      assert old(Live(worker.View())) && worker.registered ==> old(worker.IsLive());
      if old(Reapable()) {
        StillReapable();
      }
      if sweep {
        CleanupFinishedWorkers(reaped);
      } else {
        assert pidToWorker - {} == pidToWorker;
      }
    }

    /** CgiWriteEvent on a registered worker. */
    method OnWrite(worker: CgiWorker, r: WriteResult)
      requires Valid() && worker in workers && worker.Valid() && worker.bytesSent <= |worker.requestBody|
      modifies worker`state, worker`writeOpen, worker`bytesSent
      ensures Valid() && worker.Valid() && worker.bytesSent <= |worker.requestBody|
      ensures worker.View() == AfterWrite(old(worker.View()), r)
      ensures (old(Tracked()) ==> Tracked()) && (old(Reapable()) ==> Reapable())
    {
      hide Consistent, AllTracked, AfterWrite, Reapable;
      worker.HandleWrite(r);
      LiveBeforeReadOrWrite(old(worker.View()), ReadAgain, r);
      assert worker.IsLive() ==> Live(worker.View());
      assert old(Live(worker.View())) && worker.registered ==> old(worker.IsLive());
      if old(Reapable()) {
        StillReapable();
      }
    }
  }

  lemma {:induction false} ReapedIsNotLive(w: Worker, exit: Exit)
    ensures Step(w, Reaped(exit)).exitStatusSet
  {
  }

  // ---------- two registries that go wrong ----------

  /** A process id is free again once its process was reaped, long before its worker is removed. If a program
      started meanwhile has that id, removing the old worker takes the entry of the new one: it is live, and
      no report about its process will reach it. */
  method ReuseId(m: CgiManager, first: CgiWorker, clientFd: int, body: string) returns (second: CgiWorker)
    requires m.Valid() && m.Tracked() && first in m.workers && first.registered
    requires |m.workers| < m.maxWorkers && clientFd !in m.clientFdToWorker
    modifies m`workers, m`clientFdToWorker, m`pidToWorker
    ensures m.Valid() && m.Tracked() && fresh(second) && first !in m.workers
    ensures second in m.workers && second.IsLive() && second.pid == first.pid && second.pid !in m.pidToWorker
    ensures !m.Reapable()
  {
    hide Consistent, AllTracked, Without;
    FoundByClient(m.workers, m.clientFdToWorker, first);
    ConsistentDistinct(m.workers, m.clientFdToWorker, m.pidToWorker);
    var status := m.CreateWorker(clientFd, Forked(first.pid, body));
    second := m.workers[|m.workers| - 1];
    m.AbortClient(first.clientFd);
    assert !Finds(m.pidToWorker, second);
  }

  lemma {:induction false} FoundByClient(ws: seq<CgiWorker>, clients: map<int, CgiWorker>, w: CgiWorker)
    requires AllTracked(ws, clients) && w in ws && w.registered
    ensures w.clientFd in clients && clients[w.clientFd] == w
  {
  }

  /** From the start: the first program exits and is reaped, the second gets its id, the first client leaves. */
  method ReusedIdIsLost() returns (m: CgiManager, second: CgiWorker)
    ensures m.Valid() && fresh(m) && fresh(second)
    ensures second in m.workers && second.IsLive() && second.pid == 7 && 7 !in m.pidToWorker
  {
    hide Consistent, AllTracked, Step, Told, Due;
    m := new CgiManager(2);
    var s := m.CreateWorker(1, Forked(7, ""));
    var first := m.workers[0];
    m.CleanupFinishedWorkers([(7, Exited(0))]);
    second := ReuseId(m, first, 2, "");
  }
}
