/** src/Session/SessionManager.cpp: sessions with a lazily kept cleanup deadline, against a
    store that purges eagerly. */
module Sessions {
  import opened StringOps

  datatype Session = Session(lastAccess: int, timeout: int)

  type Store = map<string, Session>

  function Expiry(s: Session): int {
    s.lastAccess + s.timeout
  }

  /** A timeout of 0 means that the session is over at once. */
  predicate Expired(s: Session, now: int) {
    s.timeout == 0 || now - s.lastAccess > s.timeout
  }

  function Unexpired(m: Store, now: int): Store {
    map id | id in m && !Expired(m[id], now) :: m[id]
  }

  /** `next` is the least expiry of `m`, or 0 for an empty store. */
  ghost predicate Soonest(m: Store, next: int) {
    if m == map[] then next == 0
    else (exists id :: id in m && next == Expiry(m[id])) && forall id | id in m :: next <= Expiry(m[id])
  }

  lemma {:induction false} SoonestExists(m: Store) returns (next: int)
    ensures Soonest(m, next)
    decreases |m|
  {
    next := 0;
    if m != map[] {
      assert m.Keys != {};
      var k :| k in m.Keys;
      var rest := m - {k};
      next := SoonestExists(rest);
      if rest == map[] || Expiry(m[k]) < next { next := Expiry(m[k]); }
      assert forall id | id in m :: id == k || (id in rest && rest[id] == m[id]);
      if next != Expiry(m[k]) {
        var id :| id in rest && next == Expiry(rest[id]);
        assert id in m && m[id] == rest[id];
      }
    }
  }

  lemma {:induction false} SoonestUnique(m: Store, a: int, b: int)
    requires Soonest(m, a) && Soonest(m, b)
    ensures a == b
  {
  }

  // ---------- the manager and its operations ----------

  datatype Manager = Manager(sessions: Store, next: int)

  datatype Op = Create(id: string, timeout: int) | Get(id: string) | Destroy(id: string) | Cleanup

  function CreateDeadline(m: Manager, timeout: int, now: int): int {
    if timeout == 0 then 0
    else if m.sessions == map[] || m.next == 0 || now + timeout < m.next then now + timeout
    else m.next
  }

  ghost function NextOf(m: Store): (next: int)
    ensures Soonest(m, next)
  {
    assert exists next :: Soonest(m, next) by {
      var next := SoonestExists(m);
    }
    var next :| Soonest(m, next);
    next
  }

  ghost function Step(m: Manager, op: Op, now: int): Manager {
    match op
    case Create(id, timeout) =>
      Manager(m.sessions[id := Session(now, timeout)], CreateDeadline(m, timeout, now))
    case Get(id) =>
      if id !in m.sessions then m
      else if Expired(m.sessions[id], now) then m.(sessions := m.sessions - {id})
      else m.(sessions := m.sessions[id := m.sessions[id].(lastAccess := now)])
    case Destroy(id) => m.(sessions := m.sessions - {id})
    case Cleanup =>
      if m.next == 0 || m.next <= now then Manager(Unexpired(m.sessions, now), NextOf(Unexpired(m.sessions, now)))
      else m
  }

  /** What getSession hands out: the session as it is after the access, or nothing. */
  function Answer(m: Store, op: Op, now: int): Option<Session> {
    if op.Get? && op.id in m && !Expired(m[op.id], now) then Some(m[op.id].(lastAccess := now)) else None
  }

  class SessionManager {
    var sessions: Store
    var nextCleanupTime: int

    constructor ()
      ensures View() == Manager(map[], 0)
    {
      sessions, nextCleanupTime := map[], 0;
    }

    function View(): Manager
      reads this
    {
      Manager(sessions, nextCleanupTime)
    }

    /** `id` is the token drawn until it is not in the store. */
    method CreateSession(id: string, timeoutSec: int, now: int)
      requires id !in sessions
      modifies this
      ensures View() == Step(old(View()), Create(id, timeoutSec), now)
    {
      var wasEmpty := sessions == map[];
      sessions := sessions[id := Session(now, timeoutSec)];
      if timeoutSec == 0 {
        nextCleanupTime := 0;
      } else {
        var expiryTime := now + timeoutSec;
        if wasEmpty || nextCleanupTime == 0 || expiryTime < nextCleanupTime {
          nextCleanupTime := expiryTime;
        }
      }
    }

    method GetSession(id: string, now: int) returns (r: Option<Session>)
      modifies this`sessions
      ensures View() == Step(old(View()), Get(id), now)
      ensures r == Answer(old(sessions), Get(id), now)
    {
      if id !in sessions {
        return None;
      }
      var elapsed := now - sessions[id].lastAccess;
      if sessions[id].timeout == 0 || elapsed > sessions[id].timeout {
        sessions := sessions - {id};
        return None;
      }
      sessions := sessions[id := sessions[id].(lastAccess := now)];
      r := Some(sessions[id]);
    }

    method DestroySession(id: string) returns (b: bool)
      modifies this`sessions
      ensures View() == Step(old(View()), Destroy(id), 0) && b == (id in old(sessions))
    {
      b := id in sessions;
      if !b {
        assert sessions - {id} == sessions;
      }
      sessions := sessions - {id};
    }

    /** The erase-while-iterating loop; the ids come in any order. */
    method CleanupExpiredSessions(now: int)
      requires now > 0
      modifies this
      ensures sessions == Unexpired(old(sessions), now) && Soonest(sessions, nextCleanupTime)
    {
      var nextExpiryTime := 0;
      var todo := sessions.Keys;
      ghost var seen: Store := map[];
      while todo != {}
        invariant todo <= sessions.Keys && seen.Keys == sessions.Keys - todo
        invariant forall id | id in seen :: id in old(sessions) && seen[id] == old(sessions)[id] && !Expired(seen[id], now)
        invariant forall id | id in sessions :: id in old(sessions) && sessions[id] == old(sessions)[id]
        invariant forall id | id in old(sessions) && id !in sessions :: Expired(old(sessions)[id], now)
        invariant Soonest(seen, nextExpiryTime)
        decreases todo
      {
        var id :| id in todo;
        todo := todo - {id};
        var s := sessions[id];
        var elapsed := now - s.lastAccess;
        if s.timeout == 0 || elapsed > s.timeout {
          sessions := sessions - {id};
        } else {
          var expiryTime := s.lastAccess + s.timeout;
          SoonestGrows(seen, nextExpiryTime, id, s, now);
          if nextExpiryTime == 0 || expiryTime < nextExpiryTime {
            nextExpiryTime := expiryTime;
          }
          seen := seen[id := s];
        }
      }
      assert seen == sessions;
      nextCleanupTime := nextExpiryTime;
    }

    method CleanupSessions(now: int)
      requires now > 0
      modifies this
      ensures View() == Step(old(View()), Cleanup, now)
    {
      if nextCleanupTime == 0 || nextCleanupTime <= now {
        CleanupExpiredSessions(now);
        SoonestUnique(sessions, nextCleanupTime, NextOf(sessions));
      }
    }
  }

  /** Taking one more unexpired session into account; 0 stands for "none yet" because a
      session that is not over expires at a positive time. */
  lemma {:induction false} SoonestGrows(seen: Store, next: int, id: string, s: Session, now: int)
    requires Soonest(seen, next) && id !in seen && now > 0 && !Expired(s, now)
    requires forall k | k in seen :: !Expired(seen[k], now)
    ensures Soonest(seen[id := s], if next == 0 || Expiry(s) < next then Expiry(s) else next)
  {
    var all := seen[id := s];
    assert id in all;
    if seen != map[] {
      var k :| k in seen && next == Expiry(seen[k]);
      assert k in all && all[k] == seen[k];
    }
  }

  // ---------- runs ----------

  datatype Call = Call(op: Op, time: int)

  ghost function After(m: Manager, calls: seq<Call>): Manager
    decreases |calls|
  {
    if calls == [] then m else After(Step(m, calls[0].op, calls[0].time), calls[1..])
  }

  /** The clock is positive and never runs back, and new ids are not in the store. */
  ghost predicate Plays(m: Manager, calls: seq<Call>, since: int)
    decreases |calls|
  {
    calls != [] ==>
      && 0 < since <= calls[0].time
      && (calls[0].op.Create? ==> calls[0].op.id !in m.sessions)
      && Plays(Step(m, calls[0].op, calls[0].time), calls[1..], calls[0].time)
  }

  ghost predicate PositiveTimeouts(calls: seq<Call>) {
    forall i | 0 <= i < |calls| && calls[i].op.Create? :: calls[i].op.timeout > 0
  }

  /** A non-empty store has a deadline, and no session in it expires before. */
  ghost predicate Prompt(m: Manager, now: int) {
    && (forall id | id in m.sessions :: m.sessions[id].timeout > 0 && 0 < m.sessions[id].lastAccess <= now)
    && (m.sessions != map[] ==> m.next > 0)
    && (forall id | id in m.sessions :: m.next <= Expiry(m.sessions[id]))
  }

  lemma {:induction false} StepPrompt(m: Manager, op: Op, since: int, now: int)
    requires Prompt(m, since) && 0 < since <= now && (op.Create? ==> op.timeout > 0)
    ensures Prompt(Step(m, op, now), now)
  {
    var n := Step(m, op, now);
    match op
    case Cleanup =>
      if m.next == 0 || m.next <= now {
        assert Soonest(n.sessions, n.next);
      }
    case _ =>
      assert op.Get? || op.Destroy? ==> n.next == m.next;
      assert n.sessions != map[] && !op.Create? ==> m.sessions != map[];
  }

  /** With positive timeouts every reachable store is prompt. */
  lemma {:induction false} AlwaysPrompt(m: Manager, calls: seq<Call>, since: int)
    requires Prompt(m, since) && Plays(m, calls, since) && PositiveTimeouts(calls)
    ensures Prompt(After(m, calls), if calls == [] then since else calls[|calls| - 1].time)
    decreases |calls|
  {
    if calls != [] {
      StepPrompt(m, calls[0].op, since, calls[0].time);
      AlwaysPrompt(Step(m, calls[0].op, calls[0].time), calls[1..], calls[0].time);
    }
  }

  /** Lazy cleanup leaves exactly what eager cleanup would leave. */
  lemma {:induction false} CleanupIsExact(m: Manager, since: int, now: int)
    requires Prompt(m, since) && 0 < since <= now
    ensures Step(m, Cleanup, now).sessions == Unexpired(m.sessions, now)
  {
    if !(m.next == 0 || m.next <= now) {
      assert forall id | id in m.sessions :: !Expired(m.sessions[id], now);
    }
  }

  /** For arbitrary stores the cleanup is exact if and only if its deadline has come or
      nothing is expired. */
  lemma {:induction false} CleanupExactWhen(m: Manager, now: int)
    ensures Step(m, Cleanup, now).sessions == Unexpired(m.sessions, now)
       <==> m.next == 0 || m.next <= now || forall id | id in m.sessions :: !Expired(m.sessions[id], now)
  {
    if forall id | id in m.sessions :: !Expired(m.sessions[id], now) {
      assert Unexpired(m.sessions, now) == m.sessions;
    }
    if Unexpired(m.sessions, now) == m.sessions {
      forall id | id in m.sessions ensures !Expired(m.sessions[id], now) {
        assert id in Unexpired(m.sessions, now);
      }
    }
  }

  /** Two sessions outlive a cleanup: one with timeout 0, whose deadline 0 was overwritten by a later
      creation, and one with a positive timeout, created before and long over. */
  lemma {:induction false} ZeroTimeoutLingers()
    ensures var calls := [Call(Create("c", 2), 1), Call(Create("a", 0), 1), Call(Create("b", 100), 1), Call(Cleanup, 50)];
            var m := After(Manager(map[], 0), calls);
            && Plays(Manager(map[], 0), calls, 1)
            && "a" in m.sessions && Expired(m.sessions["a"], 50)
            && "c" in m.sessions && Expired(m.sessions["c"], 50) && m.sessions["c"].timeout == 2
  {
    var calls := [Call(Create("c", 2), 1), Call(Create("a", 0), 1), Call(Create("b", 100), 1), Call(Cleanup, 50)];
    assert "c"[0] != "a"[0] && "b"[0] != "a"[0] && "b"[0] != "c"[0];
    var m1 := Step(Manager(map[], 0), Create("c", 2), 1);
    var m2 := Step(m1, Create("a", 0), 1);
    var m3 := Step(m2, Create("b", 100), 1);
    assert m1.sessions == map["c" := Session(1, 2)];
    assert m2 == Manager(map["c" := Session(1, 2), "a" := Session(1, 0)], 0);
    assert m3 == Manager(map["c" := Session(1, 2), "a" := Session(1, 0), "b" := Session(1, 100)], 101);
    assert Step(m3, Cleanup, 50) == m3;
    OneCall(m3, Call(Cleanup, 50), [], 1);
    OneCall(m2, Call(Create("b", 100), 1), [Call(Cleanup, 50)], 1);
    OneCall(m1, Call(Create("a", 0), 1), [Call(Create("b", 100), 1), Call(Cleanup, 50)], 1);
    OneCall(Manager(map[], 0), Call(Create("c", 2), 1),
            [Call(Create("a", 0), 1), Call(Create("b", 100), 1), Call(Cleanup, 50)], 1);
    assert [Call(Create("c", 2), 1)] + [Call(Create("a", 0), 1), Call(Create("b", 100), 1), Call(Cleanup, 50)] == calls;
    assert [Call(Create("a", 0), 1)] + [Call(Create("b", 100), 1), Call(Cleanup, 50)] == calls[1..];
    assert [Call(Create("b", 100), 1)] + [Call(Cleanup, 50)] == [Call(Create("b", 100), 1), Call(Cleanup, 50)];
    assert [Call(Cleanup, 50)] + [] == [Call(Cleanup, 50)];
  }

  lemma {:induction false} OneCall(m: Manager, call: Call, rest: seq<Call>, since: int)
    ensures After(m, [call] + rest) == After(Step(m, call.op, call.time), rest)
    ensures Plays(m, [call] + rest, since) <==>
            0 < since <= call.time && (call.op.Create? ==> call.op.id !in m.sessions)
            && Plays(Step(m, call.op, call.time), rest, call.time)
  {
    hide Step;
    assert ([call] + rest)[1..] == rest && ([call] + rest)[0] == call;
  }

  // ---------- what the deadline covers ----------

  /** The sessions that the deadline takes into account: all that survived the last real cleanup, and those
      created since. A creation with timeout 0 drops them all, and the next one starts anew. */
  ghost function NextCover(m: Manager, cover: set<string>, op: Op, now: int): set<string> {
    match op
    case Create(id, timeout) =>
      if timeout == 0 then {} else if m.sessions == map[] || m.next == 0 then {id} else cover + {id}
    case Cleanup => if m.next == 0 || m.next <= now then Unexpired(m.sessions, now).Keys else cover
    case _ => cover
  }

  ghost function Cover(m: Manager, cover: set<string>, calls: seq<Call>): set<string>
    decreases |calls|
  {
    if calls == [] then cover
    else Cover(Step(m, calls[0].op, calls[0].time), NextCover(m, cover, calls[0].op, calls[0].time), calls[1..])
  }

  /** The deadline is there, and comes before every covered session's expiry. */
  ghost predicate Covers(m: Manager, cover: set<string>, now: int) {
    && m.next >= 0
    && (forall id | id in m.sessions :: m.sessions[id].timeout >= 0 && 0 < m.sessions[id].lastAccess <= now)
    && (forall id | id in m.sessions && id in cover :: m.sessions[id].timeout > 0 && 0 < m.next <= Expiry(m.sessions[id]))
  }

  ghost predicate NoNegativeTimeouts(calls: seq<Call>) {
    forall i | 0 <= i < |calls| && calls[i].op.Create? :: calls[i].op.timeout >= 0
  }

  lemma {:induction false} StepCovers(m: Manager, cover: set<string>, op: Op, since: int, now: int)
    requires Covers(m, cover, since) && 0 < since <= now && (op.Create? ==> op.timeout >= 0 && op.id !in m.sessions)
    ensures Covers(Step(m, op, now), NextCover(m, cover, op, now), now)
  {
    var n := Step(m, op, now);
    if op.Cleanup? && (m.next == 0 || m.next <= now) {
      assert Soonest(n.sessions, n.next);
    }
  }

  lemma {:induction false} RunCovers(m: Manager, cover: set<string>, calls: seq<Call>, since: int)
    requires Covers(m, cover, since) && Plays(m, calls, since) && NoNegativeTimeouts(calls)
    ensures Covers(After(m, calls), Cover(m, cover, calls), if calls == [] then since else calls[|calls| - 1].time)
    decreases |calls|
  {
    hide Step, NextCover, Covers;
    if calls != [] {
      var op, now := calls[0].op, calls[0].time;
      StepCovers(m, cover, op, since, now);
      RunCovers(Step(m, op, now), NextCover(m, cover, op, now), calls[1..], now);
    }
  }

  /** After every run from an empty store, whatever the timeouts, a cleanup leaves exactly the unexpired
      sessions if and only if it is due or none of the sessions that the deadline misses is over. */
  lemma {:induction false} CleanupExactOverRuns(calls: seq<Call>, since: int, now: int)
    requires Plays(Manager(map[], 0), calls, since) && NoNegativeTimeouts(calls)
    requires 0 < since <= now && (calls != [] ==> calls[|calls| - 1].time <= now)
    ensures var m, cover := After(Manager(map[], 0), calls), Cover(Manager(map[], 0), {}, calls);
            Step(m, Cleanup, now).sessions == Unexpired(m.sessions, now)
            <==> m.next == 0 || m.next <= now
                 || forall id | id in m.sessions && id !in cover :: !Expired(m.sessions[id], now)
  {
    var m, cover := After(Manager(map[], 0), calls), Cover(Manager(map[], 0), {}, calls);
    RunCovers(Manager(map[], 0), {}, calls, since);
    CleanupExactWhen(m, now);
    if m.next > now {
      forall id | id in m.sessions && id in cover ensures !Expired(m.sessions[id], now) {
      }
    }
  }

  /** Without timeout 0 the deadline misses no session. */
  lemma {:induction false} NothingMissed(m: Manager, cover: set<string>, calls: seq<Call>, since: int)
    requires m.sessions.Keys <= cover && Prompt(m, since) && Plays(m, calls, since) && PositiveTimeouts(calls)
    ensures After(m, calls).sessions.Keys <= Cover(m, cover, calls)
    decreases |calls|
  {
    if calls != [] {
      var op, now := calls[0].op, calls[0].time;
      StepPrompt(m, op, since, now);
      NothingMissed(Step(m, op, now), NextCover(m, cover, op, now), calls[1..], now);
    }
  }

  // ---------- the eager store ----------

  /** Every expired session goes before anything else happens. */
  function EagerStep(m: Store, op: Op, now: int): Store {
    var u := Unexpired(m, now);
    match op
    case Create(id, timeout) => u[id := Session(now, timeout)]
    case Get(id) => if id in u then u[id := u[id].(lastAccess := now)] else u
    case Destroy(id) => u - {id}
    case Cleanup => u
  }

  ghost function Answers(m: Manager, calls: seq<Call>): seq<Option<Session>>
    decreases |calls|
  {
    if calls == [] then []
    else [Answer(m.sessions, calls[0].op, calls[0].time)]
         + Answers(Step(m, calls[0].op, calls[0].time), calls[1..])
  }

  function EagerAnswers(m: Store, calls: seq<Call>): seq<Option<Session>>
    decreases |calls|
  {
    if calls == [] then []
    else [Answer(m, calls[0].op, calls[0].time)] + EagerAnswers(EagerStep(m, calls[0].op, calls[0].time), calls[1..])
  }

  /** The lazy store is the eager one with some sessions more, all of them over. */
  ghost predicate Mirrors(lazy: Store, eager: Store, now: int) {
    && (forall id | id in eager :: id in lazy && lazy[id] == eager[id])
    && (forall id | id in lazy && id !in eager :: Expired(lazy[id], now))
  }

  lemma {:induction false} StepMirrors(m: Manager, eager: Store, op: Op, since: int, now: int)
    requires Mirrors(m.sessions, eager, since) && since <= now && (op.Create? ==> op.id !in m.sessions)
    ensures Mirrors(Step(m, op, now).sessions, EagerStep(eager, op, now), now)
    ensures Answer(m.sessions, op, now) == Answer(eager, op, now)
  {
  }

  /** For all timeouts and every run, getSession answers as if purging were eager. */
  lemma {:induction false} AnswersAreEager(m: Manager, eager: Store, calls: seq<Call>, since: int)
    requires Mirrors(m.sessions, eager, since) && Plays(m, calls, since)
    ensures Answers(m, calls) == EagerAnswers(eager, calls)
    decreases |calls|
  {
    if calls != [] {
      StepMirrors(m, eager, calls[0].op, since, calls[0].time);
      AnswersAreEager(Step(m, calls[0].op, calls[0].time), EagerStep(eager, calls[0].op, calls[0].time),
                      calls[1..], calls[0].time);
    }
  }

  // ---------- the last second of a session ----------

  /** A session is handed out up to and including its last second, and never with timeout 0. */
  lemma {:induction false} LastSecond(m: Store, id: string, lastAccess: int, timeout: int, now: int)
    requires id in m && m[id] == Session(lastAccess, timeout)
    ensures Answer(m, Get(id), now).Some? <==> timeout != 0 && now <= lastAccess + timeout
    ensures id in Unexpired(m, now) <==> timeout != 0 && now <= lastAccess + timeout
  {
  }

  /** After a creation with a timeout the deadline is the end of that session, or stays if it was set and is earlier. */
  lemma {:induction false} DeadlineAfterCreation(m: Manager, id: string, timeout: int, now: int)
    requires timeout != 0
    ensures var next := Step(m, Create(id, timeout), now).next;
            && next <= now + timeout && (m.sessions != map[] && m.next != 0 ==> next <= m.next)
            && (next == now + timeout || (next == m.next && m.sessions != map[] && m.next != 0))
  {
  }

  predicate Touches(op: Op, id: string) {
    match op
    case Create(other, _) => other == id
    case Get(other) => other == id
    case Destroy(other) => other == id
    case Cleanup => false
  }

  /** Calls that are not about `id`, not before `since` and not after `until`. */
  ghost predicate OtherCalls(calls: seq<Call>, id: string, since: int, until: int)
    decreases |calls|
  {
    if calls == [] then since <= until
    else
      !Touches(calls[0].op, id) && since <= calls[0].time && OtherCalls(calls[1..], id, calls[0].time, until)
  }

  /** Whatever else is called in between, a session accessed or created at `t` is handed out at a later time exactly
      up to second `t + timeout`; if it is, it lives on from there. */
  lemma {:induction false} HandedOutExactly(m: Manager, calls: seq<Call>, id: string, t: int, timeout: int, since: int, now: int)
    requires id in m.sessions && m.sessions[id] == Session(t, timeout) && OtherCalls(calls, id, since, now)
    ensures var a := Answer(After(m, calls).sessions, Get(id), now);
            && (a.Some? <==> timeout != 0 && now <= t + timeout)
            && (a.Some? ==> a.value == Session(now, timeout))
    decreases |calls|
  {
    if calls != [] {
      var c := calls[0];
      var n := Step(m, c.op, c.time);
      TimesGrow(calls[1..], id, c.time, now);
      if id in n.sessions {
        HandedOutExactly(n, calls[1..], id, t, timeout, c.time, now);
      } else {
        GoneForGood(n, calls[1..], id, c.time, now);
      }
    }
  }

  lemma {:induction false} TimesGrow(calls: seq<Call>, id: string, since: int, until: int)
    requires OtherCalls(calls, id, since, until)
    ensures since <= until
    decreases |calls|
  {
    if calls != [] { TimesGrow(calls[1..], id, calls[0].time, until); }
  }

  lemma {:induction false} GoneForGood(m: Manager, calls: seq<Call>, id: string, since: int, now: int)
    requires id !in m.sessions && OtherCalls(calls, id, since, now)
    ensures id !in After(m, calls).sessions
    decreases |calls|
  {
    if calls != [] { GoneForGood(Step(m, calls[0].op, calls[0].time), calls[1..], id, calls[0].time, now); }
  }

  /** A created session is such a session. */
  lemma {:induction false} CreatedIsHandedOut(m: Manager, calls: seq<Call>, id: string, t: int, timeout: int, now: int)
    requires OtherCalls(calls, id, t, now)
    ensures Answer(After(Step(m, Create(id, timeout), t), calls).sessions, Get(id), now).Some?
       <==> timeout != 0 && now <= t + timeout
  {
    HandedOutExactly(Step(m, Create(id, timeout), t), calls, id, t, timeout, t, now);
  }
}
