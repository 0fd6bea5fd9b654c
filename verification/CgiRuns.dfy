/** Runs of the registry of CGI workers: what the server loop and the events do to it, in any order. */
module CgiRuns {
  import opened StringOps
  import opened CgiProtocol
  import opened CgiManager
  import CgiResponse

  /** One call into the registry; workers are named by their place in the list. */
  datatype Operation =
    | Create(clientFd: int, launch: Launch)
    | Read(k: nat, got: ReadResult, exits: seq<(int, Exit)>)
    | Write(k: nat, put: WriteResult)
    | End(k: nat)
    | Abort(clientFd: int)
    | Reap(exits: seq<(int, Exit)>)
    | GiveUpIdle(idle: seq<nat>)

  /** What holds of every worker at every time: it is finished when it was announced, the parser is unused
      while the output is open, and not more of the body was sent than there is. */
  ghost predicate Healthy(w: Worker) {
    && Announced(w)
    && (w.readOpen ==> w.parsed == CgiResponse.NOTHING)
    && w.bytesSent <= |w.body|
  }

  lemma {:induction false} HealthyStep(w: Worker, e: Event)
    requires Healthy(w)
    ensures Healthy(Step(w, e)) && Healthy(Expire(w))
  {
    hide CgiResponse.Parse, Announced;
    AnnouncedStays(w, e);
  }

  lemma {:induction false} HealthyAfterCall(w: Worker, r: ReadResult, p: WriteResult, exit: Option<Exit>)
    requires Healthy(w)
    ensures Healthy(AfterRead(w, r)) && Healthy(AfterWrite(w, p)) && Healthy(Told(w, exit))
  {
    hide Healthy, Step, Expire;
    match r {
      case ReadAgain =>
      case ReadFailed => HealthyStep(w, ReadError);
      case Bytes(data) => HealthyStep(w, if data == "" then Eof else Data(data));
    }
    match p {
      case WriteAgain => HealthyStep(w, Wrote(0));
      case WriteFailed => HealthyStep(w, WriteError);
      case Accepted(count) => HealthyStep(w, Wrote(count));
    }
    if exit.Some? {
      HealthyStep(w, Reaped(exit.value));
    }
  }

  function Parsers(ws: seq<CgiWorker>): set<CgiResponse.CgiResponseParser> {
    set w | w in ws :: w.responseParser
  }

  ghost predicate AllHealthy(m: CgiManager)
    reads m, m.workers, Parsers(m.workers)
  {
    forall w | w in m.workers :: Healthy(w.View())
  }

  /** All of them are failed starts. */
  predicate AllOrphans(ws: seq<CgiWorker>) {
    forall w | w in ws :: !w.registered
  }

  /** The workers at some places. */
  function Picked(ws: seq<CgiWorker>, idle: seq<nat>): (r: seq<CgiWorker>)
    ensures forall w | w in r :: w in ws
  {
    if idle == [] then [] else (if idle[0] < |ws| then [ws[idle[0]]] else []) + Picked(ws, idle[1..])
  }

  /** Workers that came in are new ones. */
  twostate predicate OldOrNew(m: CgiManager)
    reads m
  {
    forall w | w in m.workers :: w in old(m.workers) || (fresh(w) && fresh(w.responseParser))
  }

  method Read(m: CgiManager, worker: CgiWorker, r: ReadResult, exits: seq<(int, Exit)>)
    requires m.Valid() && AllHealthy(m) && worker in m.workers
    modifies m, m.workers, Parsers(m.workers)
    ensures m.Valid() && AllHealthy(m) && m.workers == old(m.workers)
    ensures (old(m.Tracked()) ==> m.Tracked()) && (old(m.Reapable()) ==> m.Reapable())
  {
    hide AfterRead, Told, Breaking, AllTracked, Consistent;
    m.OnRead(worker, r, exits);
    forall w | w in m.workers ensures Healthy(w.View()) {
      HealthyAfterCall(old(w.View()), r, WriteAgain, None);
      var v := if w == worker then AfterRead(old(w.View()), r) else old(w.View());
      HealthyAfterCall(v, r, WriteAgain, Due(old(m.pidToWorker), exits, w));
    }
  }

  method Write(m: CgiManager, worker: CgiWorker, r: WriteResult)
    requires m.Valid() && AllHealthy(m) && worker in m.workers
    modifies m, m.workers, Parsers(m.workers)
    ensures m.Valid() && AllHealthy(m) && m.workers == old(m.workers)
    ensures (old(m.Tracked()) ==> m.Tracked()) && (old(m.Reapable()) ==> m.Reapable())
  {
    hide AfterWrite, AllTracked, Consistent;
    m.OnWrite(worker, r);
    forall w | w in m.workers ensures Healthy(w.View()) {
      HealthyAfterCall(old(w.View()), ReadAgain, r, None);
    }
  }

  method Reap(m: CgiManager, exits: seq<(int, Exit)>)
    requires m.Valid() && AllHealthy(m)
    modifies m, m.workers
    ensures m.Valid() && AllHealthy(m) && m.workers == old(m.workers)
    ensures (old(m.Tracked()) ==> m.Tracked()) && (old(m.Reapable()) ==> m.Reapable())
  {
    hide Told, AllTracked, Consistent;
    m.CleanupFinishedWorkers(exits);
    forall w | w in m.workers ensures Healthy(w.View()) {
      HealthyAfterCall(old(w.View()), ReadAgain, WriteAgain, Due(old(m.pidToWorker), exits, w));
    }
  }

  method GiveUp(m: CgiManager, idle: seq<CgiWorker>)
    requires m.Valid() && AllHealthy(m) && forall w | w in idle :: w in m.workers
    modifies m, m.workers
    ensures m.Valid() && AllHealthy(m) && m.workers == old(m.workers)
    ensures old(m.Tracked()) ==> m.Tracked()
    ensures old(m.Reapable()) ==> m.ReapableExcept(PidsOf(idle))
  {
    hide AllTracked, Consistent, Healthy, Expire;
    m.CleanupTimedOutWorkers(idle);
    forall w | w in m.workers ensures Healthy(w.View()) {
      HealthyStep(old(w.View()), Eof);
    }
  }

  method Create(m: CgiManager, clientFd: int, launch: Launch) returns (status: nat)
    requires m.Valid() && AllHealthy(m) && (launch.Forked? ==> launch.pid > 0)
    modifies m
    ensures m.Valid() && AllHealthy(m) && OldOrNew(m)
    ensures forall w | w in old(m.workers) :: w in m.workers
    ensures |old(m.workers)| == m.maxWorkers ==> status == 503 && m.workers == old(m.workers)
    ensures old(m.Tracked()) ==> m.Tracked() || clientFd in old(m.clientFdToWorker)
  {
    hide AllTracked, Consistent;
    status := m.CreateWorker(clientFd, launch);
    forall w | w in m.workers ensures Healthy(w.View()) {
      if w in old(m.workers) {
        assert w.View() == old(w.View());
      }
    }
  }

  /** The completion event of a worker. A worker that was announced has its own response sent, never the default. */
  method End(m: CgiManager, worker: CgiWorker) returns (sent: Sent)
    requires m.Valid() && AllHealthy(m) && worker in m.workers
    modifies m, m.workers
    ensures m.Valid() && AllHealthy(m) && OldOrNew(m)
    ensures forall w | w in old(m.workers) && !w.registered :: w in m.workers
    ensures AllOrphans(old(m.workers)) ==> m.workers == old(m.workers)
    ensures old(m.Tracked()) ==> m.Tracked()
    ensures old(m.Tracked()) && worker.registered && old(worker.signals) > 0 && !old(worker.completionNotified) ==>
              sent == Page(old(ResponseOf(worker.View()))) && worker !in m.workers
  {
    hide AllTracked, Consistent, ResponseOf;
    ConsistentDistinct(m.workers, m.clientFdToWorker, m.pidToWorker);
    sent := m.EndEvent(worker, worker.clientFd);
    forall w | w in m.workers ensures Healthy(w.View()) {
      assert w in old(m.workers) && w.View() == old(w.View());
    }
  }

  method Abort(m: CgiManager, clientFd: int)
    requires m.Valid() && AllHealthy(m)
    modifies m
    ensures m.Valid() && AllHealthy(m) && OldOrNew(m)
    ensures forall w | w in old(m.workers) && !w.registered :: w in m.workers
    ensures AllOrphans(old(m.workers)) ==> m.workers == old(m.workers)
    ensures old(m.Tracked()) ==> m.Tracked()
  {
    hide AllTracked, Consistent;
    ConsistentDistinct(m.workers, m.clientFdToWorker, m.pidToWorker);
    m.AbortClient(clientFd);
    forall w | w in m.workers ensures Healthy(w.View()) {
      assert w in old(m.workers) && w.View() == old(w.View());
    }
  }

  /** One operation, whatever it is. */
  method Operate(m: CgiManager, op: Operation) returns (status: nat)
    requires m.Valid() && AllHealthy(m) && (op.Create? && op.launch.Forked? ==> op.launch.pid > 0)
    modifies m, m.workers, Parsers(m.workers)
    ensures m.Valid() && AllHealthy(m) && OldOrNew(m)
    ensures forall w | w in old(m.workers) && !w.registered :: w in m.workers
    ensures |old(m.workers)| == m.maxWorkers && AllOrphans(old(m.workers)) ==>
              m.workers == old(m.workers) && (op.Create? ==> status == 503)
    ensures old(m.Tracked()) ==> m.Tracked() || (op.Create? && op.clientFd in old(m.clientFdToWorker))
  {
    hide AllTracked, Consistent, Healthy;
    status := 0;
    match op
    case Create(clientFd, launch) => status := Create(m, clientFd, launch);
    case Read(k, got, exits) => if k < |m.workers| { Read(m, m.workers[k], got, exits); }
    case Write(k, put) => if k < |m.workers| { Write(m, m.workers[k], put); }
    case End(k) => if k < |m.workers| { var sent := End(m, m.workers[k]); }
    case Abort(clientFd) => Abort(m, clientFd);
    case Reap(exits) => Reap(m, exits);
    case GiveUpIdle(idle) => GiveUp(m, Picked(m.workers, idle));
  }

  /** Over every run, from a registry in order: no entry dangles, and every worker that was announced is finished.
      When clients are patient, that is, start no program while one of theirs is entered, every started worker
      is found by its client. Failed starts keep their places for good, and once they hold all of them every
      request is refused. */
  method OperateAll(m: CgiManager, ops: seq<Operation>, patient: bool) returns (statuses: seq<nat>)
    requires m.Valid() && AllHealthy(m)
    requires forall op | op in ops :: op.Create? && op.launch.Forked? ==> op.launch.pid > 0
    modifies m, m.workers, Parsers(m.workers)
    ensures m.Valid() && AllHealthy(m) && |statuses| == |ops|
    ensures patient && old(m.Tracked()) ==> m.Tracked()
    ensures forall w | w in old(m.workers) && !w.registered :: w in m.workers
    ensures |old(m.workers)| == m.maxWorkers && AllOrphans(old(m.workers)) ==>
              m.workers == old(m.workers) && forall i | 0 <= i < |ops| && ops[i].Create? :: statuses[i] == 503
  {
    hide AllTracked, Consistent, Healthy, AllHealthy;
    statuses := [];
    for k := 0 to |ops|
      invariant m.Valid() && AllHealthy(m) && OldOrNew(m) && |statuses| == k
      invariant patient && old(m.Tracked()) ==> m.Tracked()
      invariant forall w | w in old(m.workers) && !w.registered :: w in m.workers
      invariant |old(m.workers)| == m.maxWorkers && AllOrphans(old(m.workers)) ==>
                  m.workers == old(m.workers) && forall i | 0 <= i < k && ops[i].Create? :: statuses[i] == 503
    {
      ConsistentDistinct(m.workers, m.clientFdToWorker, m.pidToWorker);
      var status := 0;
      if !(patient && ops[k].Create? && ops[k].clientFd in m.clientFdToWorker) {
        assert ops[k] in ops;
        assert forall i | 0 <= i < |m.workers| :: m.workers[i] in old(m.workers) || fresh(m.workers[i]);
        assert forall p | p in Parsers(m.workers) :: p in old(Parsers(m.workers)) || fresh(p);
        status := Operate(m, ops[k]);
      }
      statuses := statuses + [status];
    }
  }
}
