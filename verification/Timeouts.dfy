/** src/Lib/Timeout/TimeoutManager.cpp: buckets by deadline and a reverse map, against the
    plain list of what has been registered, in order of registration. */
module Timeouts {

  /** An object pointer; 0 is NULL. */
  type Ref = nat

  datatype Entry = Entry(obj: Ref, deadline: int)

  // ---------- the reference: a list of entries ----------

  predicate Distinct(es: seq<Entry>) {
    forall i, j | 0 <= i < j < |es| :: es[i].obj != es[j].obj
  }

  function Removed(es: seq<Entry>, o: Ref): seq<Entry> {
    if es == [] then []
    else if es[0].obj == o then Removed(es[1..], o)
    else [es[0]] + Removed(es[1..], o)
  }

  function Added(es: seq<Entry>, o: Ref, deadline: int): seq<Entry> {
    Removed(es, o) + [Entry(o, deadline)]
  }

  /** The objects due at `t`, earliest registration first. */
  function Bucket(es: seq<Entry>, t: int): seq<Ref> {
    if es == [] then []
    else if es[0].deadline == t then [es[0].obj] + Bucket(es[1..], t)
    else Bucket(es[1..], t)
  }

  /** The entries that are left when the bucket `t` is gone. */
  function Others(es: seq<Entry>, t: int): seq<Entry> {
    if es == [] then []
    else if es[0].deadline == t then Others(es[1..], t)
    else [es[0]] + Others(es[1..], t)
  }

  function Later(es: seq<Entry>, now: int): seq<Entry> {
    if es == [] then []
    else if es[0].deadline <= now then Later(es[1..], now)
    else [es[0]] + Later(es[1..], now)
  }

  function Earliest(es: seq<Entry>): (t: int)
    requires es != []
    ensures forall i | 0 <= i < |es| :: t <= es[i].deadline
    ensures exists i | 0 <= i < |es| :: es[i].deadline == t
  {
    if |es| == 1 then es[0].deadline
    else
      var t := Earliest(es[1..]);
      assert forall i | 0 < i < |es| :: es[i] == es[1..][i - 1];
      if es[0].deadline < t then es[0].deadline else t
  }

  /** What a sweep has to call: bucket after bucket, earliest deadline first. */
  function DueOrder(es: seq<Entry>, now: int): seq<Ref>
    decreases |es|
  {
    if es == [] || Earliest(es) > now then []
    else
      OthersShorter(es, Earliest(es));
      Bucket(es, Earliest(es)) + DueOrder(Others(es, Earliest(es)), now)
  }

  lemma {:induction false} OthersShorter(es: seq<Entry>, t: int)
    ensures |Others(es, t)| <= |es|
    ensures (exists i | 0 <= i < |es| :: es[i].deadline == t) ==> |Others(es, t)| < |es|
  {
    if es != [] {
      OthersShorter(es[1..], t);
      if i: nat :| i < |es| && es[i].deadline == t && i > 0 {
        assert es[1..][i - 1] == es[i];
      }
    }
  }

  // ---------- membership ----------

  predicate Has(es: seq<Entry>, o: Ref) {
    es != [] && (es[0].obj == o || Has(es[1..], o))
  }

  function DeadlineOf(es: seq<Entry>, o: Ref): int
    requires Has(es, o)
  {
    if es[0].obj == o then es[0].deadline else DeadlineOf(es[1..], o)
  }

  /** How many registrations are older. */
  function PosOf(es: seq<Entry>, o: Ref): nat
    requires Has(es, o)
  {
    if es[0].obj == o then 0 else 1 + PosOf(es[1..], o)
  }

  lemma {:induction false} HasIndex(es: seq<Entry>, i: nat)
    requires i < |es|
    ensures Has(es, es[i].obj)
    ensures Distinct(es) ==> DeadlineOf(es, es[i].obj) == es[i].deadline && PosOf(es, es[i].obj) == i
  {
    if i > 0 {
      assert es[i] == es[1..][i - 1];
      HasIndex(es[1..], i - 1);
    }
  }

  lemma {:induction false} IndexOfHas(es: seq<Entry>, o: Ref) returns (i: nat)
    requires Has(es, o)
    ensures i < |es| && es[i].obj == o && es[i].deadline == DeadlineOf(es, o) && i == PosOf(es, o)
  {
    if es[0].obj == o {
      i := 0;
    } else {
      var j := IndexOfHas(es[1..], o);
      i := j + 1;
    }
  }

  lemma {:induction false} DistinctTail(es: seq<Entry>)
    requires Distinct(es) && es != []
    ensures Distinct(es[1..]) && !Has(es[1..], es[0].obj)
  {
    assert forall i | 0 <= i < |es[1..]| :: es[1..][i] == es[i + 1];
    HasNot(es[1..], es[0].obj);
  }

  lemma {:induction false} HasNot(es: seq<Entry>, o: Ref)
    requires forall i | 0 <= i < |es| :: es[i].obj != o
    ensures !Has(es, o)
  {
    if es != [] {
      assert forall i | 0 <= i < |es[1..]| :: es[1..][i] == es[i + 1];
      HasNot(es[1..], o);
    }
  }

  lemma {:induction false} DistinctCons(e: Entry, es: seq<Entry>)
    requires Distinct(es) && !Has(es, e.obj)
    ensures Distinct([e] + es)
  {
    var all := [e] + es;
    forall i, j | 0 <= i < j < |all| ensures all[i].obj != all[j].obj {
      assert all[j] == es[j - 1];
      HasIndex(es, j - 1);
      if i > 0 { assert all[i] == es[i - 1]; }
    }
  }

  lemma {:induction false} RemovedFacts(es: seq<Entry>, o: Ref, p: Ref)
    requires Distinct(es)
    ensures Distinct(Removed(es, o))
    ensures Has(Removed(es, o), p) <==> Has(es, p) && p != o
    ensures Has(Removed(es, o), p) ==> DeadlineOf(Removed(es, o), p) == DeadlineOf(es, p)
    ensures |Removed(es, o)| == if Has(es, o) then |es| - 1 else |es|
  {
    if es != [] {
      DistinctTail(es);
      RemovedFacts(es[1..], o, p);
      RemovedFacts(es[1..], o, es[0].obj);
      if es[0].obj != o { DistinctCons(es[0], Removed(es[1..], o)); }
    }
  }

  lemma {:induction false} AppendFacts(es: seq<Entry>, e: Entry, p: Ref)
    requires Distinct(es) && !Has(es, e.obj)
    ensures Distinct(es + [e])
    ensures Has(es + [e], p) <==> Has(es, p) || p == e.obj
    ensures Has(es + [e], p) ==> DeadlineOf(es + [e], p) == if p == e.obj then e.deadline else DeadlineOf(es, p)
  {
    var all := es + [e];
    forall i, j | 0 <= i < j < |all| ensures all[i].obj != all[j].obj {
      HasIndex(es, i);
    }
    if es != [] {
      DistinctTail(es);
      AppendFacts(es[1..], e, p);
      assert all[1..] == es[1..] + [e];
    }
  }

  lemma {:induction false} OthersFacts(es: seq<Entry>, t: int, p: Ref)
    requires Distinct(es)
    ensures Distinct(Others(es, t))
    ensures Has(Others(es, t), p) <==> Has(es, p) && DeadlineOf(es, p) != t
    ensures Has(Others(es, t), p) ==> DeadlineOf(Others(es, t), p) == DeadlineOf(es, p)
  {
    if es != [] {
      DistinctTail(es);
      OthersFacts(es[1..], t, p);
      OthersFacts(es[1..], t, es[0].obj);
      if es[0].deadline != t { DistinctCons(es[0], Others(es[1..], t)); }
    }
  }

  lemma {:induction false} OthersKeepOrder(es: seq<Entry>, t: int, p: Ref, q: Ref)
    requires Distinct(es) && Has(Others(es, t), p) && Has(Others(es, t), q)
    ensures Has(es, p) && Has(es, q)
    ensures PosOf(Others(es, t), p) < PosOf(Others(es, t), q) ==> PosOf(es, p) < PosOf(es, q)
  {
    OthersFacts(es, t, p);
    OthersFacts(es, t, q);
    DistinctTail(es);
    if es[0].deadline == t {
      OthersKeepOrder(es[1..], t, p, q);
    } else if es[0].obj != p && es[0].obj != q {
      OthersKeepOrder(es[1..], t, p, q);
    }
  }

  lemma {:induction false} LaterFacts(es: seq<Entry>, now: int, p: Ref)
    requires Distinct(es)
    ensures Distinct(Later(es, now))
    ensures Has(Later(es, now), p) <==> Has(es, p) && DeadlineOf(es, p) > now
    ensures Has(Later(es, now), p) ==> DeadlineOf(Later(es, now), p) == DeadlineOf(es, p)
  {
    if es != [] {
      DistinctTail(es);
      LaterFacts(es[1..], now, p);
      LaterFacts(es[1..], now, es[0].obj);
      if es[0].deadline > now { DistinctCons(es[0], Later(es[1..], now)); }
    }
  }

  lemma {:induction false} LaterOfOthers(es: seq<Entry>, t: int, now: int)
    requires t <= now
    ensures Later(Others(es, t), now) == Later(es, now)
  {
    if es != [] { LaterOfOthers(es[1..], t, now); }
  }

  lemma {:induction false} LaterOfAllLater(es: seq<Entry>, now: int)
    requires forall i | 0 <= i < |es| :: es[i].deadline > now
    ensures Later(es, now) == es
  {
    if es != [] {
      assert forall i | 0 <= i < |es[1..]| :: es[1..][i] == es[i + 1];
      LaterOfAllLater(es[1..], now);
    }
  }

  // ---------- buckets ----------

  function Filtered(os: seq<Ref>, o: Ref): seq<Ref> {
    if os == [] then []
    else if os[0] == o then Filtered(os[1..], o)
    else [os[0]] + Filtered(os[1..], o)
  }

  lemma {:induction false} BucketOfRemoved(es: seq<Entry>, o: Ref, t: int)
    ensures Bucket(Removed(es, o), t) == Filtered(Bucket(es, t), o)
  {
    if es != [] { BucketOfRemoved(es[1..], o, t); }
  }

  lemma {:induction false} BucketOfAppended(es: seq<Entry>, e: Entry, t: int)
    ensures Bucket(es + [e], t) == Bucket(es, t) + if e.deadline == t then [e.obj] else []
  {
    if es != [] {
      BucketOfAppended(es[1..], e, t);
      assert (es + [e])[1..] == es[1..] + [e];
    }
  }

  lemma {:induction false} BucketOfOthers(es: seq<Entry>, t: int, u: int)
    ensures Bucket(Others(es, t), u) == if u == t then [] else Bucket(es, u)
  {
    if es != [] { BucketOfOthers(es[1..], t, u); }
  }

  /** A bucket holds the objects due then, in order of registration, each once. */
  lemma {:induction false} BucketFacts(es: seq<Entry>, t: int)
    requires Distinct(es)
    ensures forall k | 0 <= k < |Bucket(es, t)| ::
              Has(es, Bucket(es, t)[k]) && DeadlineOf(es, Bucket(es, t)[k]) == t
    ensures forall k, l | 0 <= k < l < |Bucket(es, t)| ::
              PosOf(es, Bucket(es, t)[k]) < PosOf(es, Bucket(es, t)[l])
  {
    if es != [] {
      DistinctTail(es);
      BucketFacts(es[1..], t);
      var b, c := Bucket(es, t), Bucket(es[1..], t);
      var d := |b| - |c|;
      forall k | d <= k < |b|
        ensures b[k] == c[k - d] && Has(es, b[k]) && DeadlineOf(es, b[k]) == t && PosOf(es, b[k]) == 1 + PosOf(es[1..], b[k])
      {
      }
    }
  }

  lemma {:induction false} BucketHas(es: seq<Entry>, o: Ref)
    requires Distinct(es) && Has(es, o)
    ensures o in Bucket(es, DeadlineOf(es, o))
  {
    if es[0].obj != o {
      DistinctTail(es);
      BucketHas(es[1..], o);
    }
  }

  lemma {:induction false} FilteredAbsent(os: seq<Ref>, o: Ref)
    requires forall i | 0 <= i < |os| :: os[i] != o
    ensures Filtered(os, o) == os
  {
    if os != [] { FilteredAbsent(os[1..], o); }
  }

  lemma {:induction false} OnlyItsBucket(es: seq<Entry>, o: Ref, t: int)
    requires Distinct(es) && (Has(es, o) ==> DeadlineOf(es, o) != t)
    ensures Filtered(Bucket(es, t), o) == Bucket(es, t)
  {
    BucketFacts(es, t);
    FilteredAbsent(Bucket(es, t), o);
  }

  function Erased(os: seq<Ref>, o: Ref): seq<Ref> {
    if os == [] then [] else if os[0] == o then os[1..] else [os[0]] + Erased(os[1..], o)
  }

  lemma {:induction false} EraseIsFiltered(es: seq<Entry>, t: int, o: Ref)
    requires Distinct(es)
    ensures Erased(Bucket(es, t), o) == Filtered(Bucket(es, t), o)
  {
    if es != [] {
      DistinctTail(es);
      EraseIsFiltered(es[1..], t, o);
      if es[0].obj == o { OnlyItsBucket(es[1..], o, t); }
    }
  }

  lemma {:induction false} RemovedAbsent(es: seq<Entry>, o: Ref)
    requires !Has(es, o)
    ensures Removed(es, o) == es
  {
    if es != [] { RemovedAbsent(es[1..], o); }
  }

  // ---------- the sweep order ----------

  /** A sweep calls exactly the objects that are due. */
  lemma {:induction false} DueExactly(es: seq<Entry>, now: int, o: Ref)
    requires Distinct(es)
    ensures o in DueOrder(es, now) <==> Has(es, o) && DeadlineOf(es, o) <= now
    decreases |es|
  {
    if es != [] {
      var t := Earliest(es);
      OthersShorter(es, t);
      if Has(es, o) { var i := IndexOfHas(es, o); }
      if t <= now {
        OthersFacts(es, t, o);
        BucketFacts(es, t);
        DueExactly(Others(es, t), now, o);
        if Has(es, o) && DeadlineOf(es, o) == t { BucketHas(es, o); }
      }
    }
  }

  /** `a` comes before `b` in a sweep: earlier deadline, or the same and registered before. */
  predicate Sooner(es: seq<Entry>, a: Ref, b: Ref)
    requires Has(es, a) && Has(es, b)
  {
    DeadlineOf(es, a) < DeadlineOf(es, b) || (DeadlineOf(es, a) == DeadlineOf(es, b) && PosOf(es, a) < PosOf(es, b))
  }

  /** Everything in the first bucket comes before everything behind it. */
  lemma {:induction false} FirstBucketFirst(es: seq<Entry>, now: int, k: nat, o: Ref)
    requires Distinct(es) && es != [] && k < |Bucket(es, Earliest(es))|
    requires o in DueOrder(Others(es, Earliest(es)), now)
    ensures var a := Bucket(es, Earliest(es))[k]; Has(es, a) && Has(es, o) && Sooner(es, a, o)
  {
    var t := Earliest(es);
    BucketFacts(es, t);
    OthersFacts(es, t, o);
    DueExactly(Others(es, t), now, o);
    var i := IndexOfHas(es, o);
  }

  lemma {:induction false} SoonerInOthers(es: seq<Entry>, t: int, a: Ref, b: Ref)
    requires Distinct(es) && Has(Others(es, t), a) && Has(Others(es, t), b) && Sooner(Others(es, t), a, b)
    ensures Has(es, a) && Has(es, b) && Sooner(es, a, b)
  {
    OthersFacts(es, t, a);
    OthersFacts(es, t, b);
    OthersKeepOrder(es, t, a, b);
  }

  /** A sweep calls by deadline, and among equal deadlines by registration. */
  lemma {:induction false} DueSorted(es: seq<Entry>, now: int, k: nat, l: nat)
    requires Distinct(es) && k < l < |DueOrder(es, now)|
    ensures var s := DueOrder(es, now); Has(es, s[k]) && Has(es, s[l]) && Sooner(es, s[k], s[l])
    decreases |es|
  {
    hide DueOrder, Bucket, Others, Sooner, Has, Distinct;
    DueOrderSplits(es, now);
    var t := Earliest(es);
    var b, rest := Bucket(es, t), DueOrder(Others(es, t), now);
    if l < |b| {
      BucketSorted(es, t, k, l);
    } else if k < |b| {
      assert rest[l - |b|] in rest;
      FirstBucketFirst(es, now, k, rest[l - |b|]);
    } else {
      DueSorted(Others(es, t), now, k - |b|, l - |b|);
      SoonerInOthers(es, t, rest[k - |b|], rest[l - |b|]);
    }
  }

  /** A sweep calls nobody twice. */
  lemma {:induction false} CalledOnce(es: seq<Entry>, now: int, k: nat, l: nat)
    requires Distinct(es) && k < l < |DueOrder(es, now)|
    ensures DueOrder(es, now)[k] != DueOrder(es, now)[l]
  {
    DueSorted(es, now, k, l);
  }

  lemma {:induction false} DueOrderSplits(es: seq<Entry>, now: int)
    requires Distinct(es) && DueOrder(es, now) != []
    ensures es != [] && |Others(es, Earliest(es))| < |es| && Distinct(Others(es, Earliest(es)))
    ensures DueOrder(es, now) == Bucket(es, Earliest(es)) + DueOrder(Others(es, Earliest(es)), now)
  {
    hide Bucket, Others, Distinct;
    OthersShorter(es, Earliest(es));
    OthersFacts(es, Earliest(es), 0);
  }

  lemma {:induction false} BucketSorted(es: seq<Entry>, t: int, k: nat, l: nat)
    requires Distinct(es) && k < l < |Bucket(es, t)|
    ensures var b := Bucket(es, t); Has(es, b[k]) && Has(es, b[l]) && Sooner(es, b[k], b[l])
  {
    hide Bucket;
    BucketFacts(es, t);
  }

  // ---------- the manager ----------

  /** What an onTimeout callback may do to the manager that calls it. */
  datatype Op = AddOp(obj: Ref, timeoutSec: int) | RemoveOp(obj: Ref)

  const INT_MAX := 0x7FFF_FFFF

  function Apply(es: seq<Entry>, op: Op, now: int): seq<Entry> {
    match op
    case AddOp(o, sec) => if o == 0 then es else Added(es, o, now + sec)
    case RemoveOp(o) => if o == 0 then es else Removed(es, o)
  }

  function ApplyAll(es: seq<Entry>, ops: seq<Op>, now: int): seq<Entry>
    decreases |ops|
  {
    if ops == [] then es else ApplyAll(Apply(es, ops[0], now), ops[1..], now)
  }

  /** The reactions of all called objects, in the order of the calls. */
  function Reactions(called: seq<Ref>, react: Ref -> seq<Op>): seq<Op> {
    if called == [] then [] else react(called[0]) + Reactions(called[1..], react)
  }

  lemma {:induction false} ApplyAllSplits(es: seq<Entry>, a: seq<Op>, b: seq<Op>, now: int)
    ensures ApplyAll(es, a + b, now) == ApplyAll(ApplyAll(es, a, now), b, now)
    decreases |a|
  {
    if a == [] {
      assert a + b == b;
    } else {
      assert (a + b)[1..] == a[1..] + b;
      ApplyAllSplits(Apply(es, a[0], now), a[1..], b, now);
    }
  }

  /** The two maps and the counter say what the list of entries says: each object sits in
      the one bucket its reverse entry names, no bucket is empty, the count is right. */
  ghost predicate Agrees(tm: map<int, seq<Ref>>, rm: map<Ref, int>, active: nat, es: seq<Entry>) {
    && Distinct(es)
    && (forall o :: o in rm <==> Has(es, o))
    && (forall o | o in rm :: rm[o] == DeadlineOf(es, o))
    && (forall t :: t in tm <==> Bucket(es, t) != [])
    && (forall t | t in tm :: tm[t] == Bucket(es, t))
    && active == |rm|
  }

  function PutBucket(tm: map<int, seq<Ref>>, t: int, bucket: seq<Ref>): map<int, seq<Ref>> {
    if bucket == [] then tm - {t} else tm[t := bucket]
  }

  lemma {:induction false} AgreesAfterRemove(
      tm: map<int, seq<Ref>>, rm: map<Ref, int>, active: nat, es: seq<Entry>, o: Ref)
    requires Agrees(tm, rm, active, es) && o in rm
    ensures rm[o] in tm && active > 0
    ensures Agrees(PutBucket(tm, rm[o], Erased(tm[rm[o]], o)), rm - {o}, active - 1, Removed(es, o))
  {
    var t, fs := rm[o], Removed(es, o);
    BucketHas(es, o);
    EraseIsFiltered(es, t, o);
    forall p ensures Distinct(fs) && (Has(fs, p) <==> Has(es, p) && p != o)
      ensures Has(fs, p) ==> DeadlineOf(fs, p) == DeadlineOf(es, p)
    {
      RemovedFacts(es, o, p);
    }
    forall u ensures Bucket(fs, u) == if u == t then Erased(Bucket(es, t), o) else Bucket(es, u) {
      BucketOfRemoved(es, o, u);
      if u != t { OnlyItsBucket(es, o, u); }
    }
  }

  lemma {:induction false} AgreesAfterAppend(
      tm: map<int, seq<Ref>>, rm: map<Ref, int>, active: nat, es: seq<Entry>, e: Entry)
    requires Agrees(tm, rm, active, es) && !Has(es, e.obj)
    ensures var bucket := if e.deadline in tm then tm[e.deadline] else [];
            Agrees(tm[e.deadline := bucket + [e.obj]], rm[e.obj := e.deadline], active + 1, es + [e])
  {
    var fs := es + [e];
    forall p ensures Distinct(fs) && (Has(fs, p) <==> Has(es, p) || p == e.obj)
      ensures Has(fs, p) ==> DeadlineOf(fs, p) == if p == e.obj then e.deadline else DeadlineOf(es, p)
    {
      AppendFacts(es, e, p);
    }
    forall t ensures Bucket(fs, t) == Bucket(es, t) + if e.deadline == t then [e.obj] else [] {
      BucketOfAppended(es, e, t);
    }
  }

  lemma {:induction false} AgreesAfterTake(
      tm: map<int, seq<Ref>>, rm: map<Ref, int>, active: nat, es: seq<Entry>, t: int, rm': map<Ref, int>)
    requires Agrees(tm, rm, active, es) && t in tm && rm' == rm - (set o | o in tm[t])
    ensures Agrees(tm - {t}, rm', |rm'|, Others(es, t))
  {
    var fs := Others(es, t);
    BucketFacts(es, t);
    OthersFacts(es, t, 0);
    forall p ensures Distinct(fs) && (Has(fs, p) <==> Has(es, p) && DeadlineOf(es, p) != t)
      ensures Has(fs, p) ==> DeadlineOf(fs, p) == DeadlineOf(es, p)
      ensures Has(es, p) ==> (DeadlineOf(es, p) == t <==> p in tm[t])
    {
      OthersFacts(es, t, p);
      if Has(es, p) { BucketHas(es, p); }
    }
    forall u ensures Bucket(fs, u) == if u == t then [] else Bucket(es, u) {
      BucketOfOthers(es, t, u);
    }
  }

  /** The least key of the bucket map is the earliest deadline of all entries. */
  lemma {:induction false} LeastKey(tm: map<int, seq<Ref>>, rm: map<Ref, int>, active: nat, es: seq<Entry>)
    requires Agrees(tm, rm, active, es)
    ensures tm == map[] <==> es == []
    ensures es != [] ==> Earliest(es) in tm && forall k | k in tm :: Earliest(es) <= k
  {
    if es == [] {
      assert forall t :: Bucket(es, t) == [];
      assert forall t :: t !in tm;
      assert tm.Keys == {};
    } else {
      forall k | k in tm ensures Earliest(es) <= k {
        BucketFacts(es, k);
        var i := IndexOfHas(es, Bucket(es, k)[0]);
      }
      var first: nat :| first < |es| && es[first].deadline == Earliest(es);
      HasIndex(es, first);
      BucketHas(es, es[first].obj);
    }
  }

  class TimeoutManager {
    var timeoutMap: map<int, seq<Ref>>
    var reverseMap: map<Ref, int>
    var activeConnections: nat
    var totalTimeouts: nat
    ghost var entries: seq<Entry>

    ghost predicate Valid()
      reads this
    {
      Agrees(timeoutMap, reverseMap, activeConnections, entries)
    }

    constructor ()
      ensures Valid() && entries == [] && totalTimeouts == 0
    {
      timeoutMap, reverseMap, activeConnections, totalTimeouts := map[], map[], 0, 0;
      entries := [];
    }

    method Add(obj: Ref, timeoutSec: int, now: int)
      requires Valid()
      modifies this
      ensures Valid() && totalTimeouts == old(totalTimeouts)
      ensures entries == Apply(old(entries), AddOp(obj, timeoutSec), now)
    {
      if obj == 0 {
        return;
      }
      Remove(obj);
      var expiryTime := now + timeoutSec;
      AgreesAfterAppend(timeoutMap, reverseMap, activeConnections, entries, Entry(obj, expiryTime));
      var bucket := if expiryTime in timeoutMap then timeoutMap[expiryTime] else [];
      timeoutMap := timeoutMap[expiryTime := bucket + [obj]];
      reverseMap := reverseMap[obj := expiryTime];
      activeConnections := activeConnections + 1;
      entries := entries + [Entry(obj, expiryTime)];
    }

    method Remove(obj: Ref)
      requires Valid()
      modifies this
      ensures Valid() && totalTimeouts == old(totalTimeouts)
      ensures entries == Apply(old(entries), RemoveOp(obj), 0)
      ensures obj != 0 ==> !Has(entries, obj)
    {
      if obj == 0 {
        return;
      }
      RemovedFacts(entries, obj, obj);
      if obj in reverseMap {
        AgreesAfterRemove(timeoutMap, reverseMap, activeConnections, entries, obj);
        var expiryTime := reverseMap[obj];
        var rest := EraseFirst(timeoutMap[expiryTime], obj);
        if rest == [] {
          timeoutMap := timeoutMap - {expiryTime};
        } else {
          timeoutMap := timeoutMap[expiryTime := rest];
        }
        reverseMap := reverseMap - {obj};
        activeConnections := activeConnections - 1;
      } else {
        RemovedAbsent(entries, obj);
      }
      entries := Removed(entries, obj);
    }

    method DropFromReverse(bucket: seq<Ref>)
      requires activeConnections == |reverseMap|
      requires forall k | 0 <= k < |bucket| :: bucket[k] in reverseMap
      requires forall k, l | 0 <= k < l < |bucket| :: bucket[k] != bucket[l]
      modifies this`reverseMap, this`activeConnections
      ensures activeConnections == |reverseMap|
      ensures reverseMap == old(reverseMap) - (set o | o in bucket)
    {
      for k := 0 to |bucket|
        invariant activeConnections == |reverseMap|
        invariant reverseMap == old(reverseMap) - (set o | o in bucket[..k])
      {
        assert bucket[k] !in bucket[..k];
        assert bucket[..k + 1] == bucket[..k] + [bucket[k]];
        reverseMap := reverseMap - {bucket[k]};
        activeConnections := activeConnections - 1;
      }
      assert bucket[..|bucket|] == bucket;
    }

    /** One turn of the first sweep loop: the whole bucket leaves, object by object. */
    method TakeBucket(t: int) returns (bucket: seq<Ref>)
      requires Valid() && t in timeoutMap
      modifies this`timeoutMap, this`reverseMap, this`activeConnections, this`entries
      ensures Valid() && bucket == Bucket(old(entries), t) && entries == Others(old(entries), t)
      ensures |timeoutMap| < |old(timeoutMap)|
    {
      bucket := timeoutMap[t];
      BucketFacts(entries, t);
      DropFromReverse(bucket);
      AgreesAfterTake(timeoutMap, old(reverseMap), old(activeConnections), entries, t, reverseMap);
      timeoutMap := timeoutMap - {t};
      entries := Others(entries, t);
    }

    /** The bucket the source finds at the beginning of its sorted map. */
    method FirstKey() returns (t: int)
      requires Valid() && timeoutMap != map[]
      ensures entries != [] && t == Earliest(entries) && t in timeoutMap
    {
      LeastKey(timeoutMap, reverseMap, activeConnections, entries);
      t :| t in timeoutMap && forall k | k in timeoutMap :: t <= k;
    }

    /** TimeoutManager::checkAndHandleTimeouts. `react` says what each object's callback does
        to the manager; all of it happens after the due objects have been taken out. */
    method CheckAndHandleTimeouts(now: int, react: Ref -> seq<Op>) returns (called: seq<Ref>)
      requires Valid()
      modifies this
      ensures Valid() && called == DueOrder(old(entries), now)
      ensures entries == ApplyAll(Later(old(entries), now), Reactions(called, react), now)
      ensures totalTimeouts == old(totalTimeouts) + |called|
    {
      var expired := [];
      while timeoutMap != map[]
        invariant Valid() && totalTimeouts == old(totalTimeouts)
        invariant expired + DueOrder(entries, now) == DueOrder(old(entries), now)
        invariant Later(entries, now) == Later(old(entries), now)
        decreases |timeoutMap|
      {
        var t := FirstKey();
        if t > now {
          break;
        }
        ghost var before := entries;
        OthersShorter(before, t);
        LaterOfOthers(before, t, now);
        var bucket := TakeBucket(t);
        assert expired + (bucket + DueOrder(entries, now)) == expired + bucket + DueOrder(entries, now);
        expired := expired + bucket;
      }
      LeastKey(timeoutMap, reverseMap, activeConnections, entries);
      assert DueOrder(entries, now) == [] && Later(entries, now) == entries by {
        LaterOfAllLater(entries, now);
      }
      called := expired;
      CallBack(called, now, react);
    }

    /** The second sweep loop. */
    method CallBack(called: seq<Ref>, now: int, react: Ref -> seq<Op>)
      requires Valid()
      modifies this
      ensures Valid() && totalTimeouts == old(totalTimeouts) + |called|
      ensures entries == ApplyAll(old(entries), Reactions(called, react), now)
    {
      for k := 0 to |called|
        invariant Valid() && totalTimeouts == old(totalTimeouts) + k
        invariant ApplyAll(entries, Reactions(called[k..], react), now)
               == ApplyAll(old(entries), Reactions(called, react), now)
      {
        totalTimeouts := totalTimeouts + 1;
        assert called[k..][1..] == called[k + 1..];
        ApplyAllSplits(entries, react(called[k]), Reactions(called[k + 1..], react), now);
        RunCallback(react(called[k]), now);
      }
    }

    method RunCallback(ops: seq<Op>, now: int)
      requires Valid()
      modifies this
      ensures Valid() && totalTimeouts == old(totalTimeouts)
      ensures entries == ApplyAll(old(entries), ops, now)
    {
      for k := 0 to |ops|
        invariant Valid() && totalTimeouts == old(totalTimeouts)
        invariant ApplyAll(entries, ops[k..], now) == ApplyAll(old(entries), ops, now)
      {
        assert ops[k..][1..] == ops[k + 1..];
        match ops[k]
        case AddOp(o, sec) => Add(o, sec, now);
        case RemoveOp(o) => Remove(o);
      }
    }

    /** TimeoutManager::getNextTimeoutInterval: milliseconds, -1 for none. */
    method GetNextTimeoutInterval(now: int) returns (ms: int)
      requires Valid()
      ensures ms == -1 <==> entries == []
      ensures ms == 0 <==> entries != [] && Earliest(entries) <= now
      ensures -1 <= ms <= 2147483647
      ensures ms > 0 ==> now * 1000 + ms <= Earliest(entries) * 1000
      ensures ms > 0 && ms != 2147483647 ==> now * 1000 + ms == Earliest(entries) * 1000
    {
      LeastKey(timeoutMap, reverseMap, activeConnections, entries);
      if timeoutMap == map[] {
        return -1;
      }
      var nextExpiry := FirstKey();
      if nextExpiry <= now {
        return 0;
      }
      var diff := (nextExpiry - now) as real;
      if diff > INT_MAX as real / 1000.0 {
        return INT_MAX;
      }
      ms := (diff * 1000.0).Floor;
    }
  }

  lemma {:induction false} ErasedStep(os: seq<Ref>, i: nat, o: Ref)
    requires i <= |os|
    ensures i == |os| ==> os[..i] + Erased(os[i..], o) == os
    ensures i < |os| && os[i] == o ==> os[..i] + Erased(os[i..], o) == os[..i] + os[i + 1..]
    ensures i < |os| && os[i] != o ==> os[..i] + Erased(os[i..], o) == os[..i + 1] + Erased(os[i + 1..], o)
  {
    if i < |os| {
      assert os[i..][1..] == os[i + 1..] && os[..i + 1] == os[..i] + [os[i]];
    }
  }

  /** The loop over the bucket's list: erase the first hit and stop. */
  method EraseFirst(os: seq<Ref>, o: Ref) returns (r: seq<Ref>)
    ensures r == Erased(os, o)
  {
    hide Erased;
    var i := 0;
    assert os[..0] + Erased(os[0..], o) == Erased(os, o) by { assert os[0..] == os; }
    while i < |os|
      invariant i <= |os| && os[..i] + Erased(os[i..], o) == Erased(os, o)
    {
      ErasedStep(os, i, o);
      if os[i] == o {
        return os[..i] + os[i + 1..];
      }
      i := i + 1;
    }
    ErasedStep(os, i, o);
    r := os;
  }

  /** An object added with a number of seconds is called by the sweeps from that second on, whatever it waited for
      before; one that was removed is not called; and for all others nothing changes. */
  lemma {:induction false} DueAfterOp(es: seq<Entry>, op: Op, now: int, t: int, o: Ref)
    requires Distinct(es)
    ensures Distinct(Apply(es, op, now))
    ensures o in DueOrder(Apply(es, op, now), t) <==>
            match op
            case AddOp(p, sec) => if p == o && o != 0 then now + sec <= t else o in DueOrder(es, t)
            case RemoveOp(p) => (p != o || o == 0) && o in DueOrder(es, t)
  {
    hide DueOrder, Distinct;
    if op.obj != 0 {
      var rest := Removed(es, op.obj);
      RemovedFacts(es, op.obj, o);
      RemovedFacts(es, op.obj, op.obj);
      DueExactly(es, t, o);
      DueExactly(rest, t, o);
      if op.AddOp? {
        AppendFacts(rest, Entry(op.obj, now + op.timeoutSec), o);
        DueExactly(rest + [Entry(op.obj, now + op.timeoutSec)], t, o);
      }
    }
  }
}
