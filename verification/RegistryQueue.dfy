/** The registry seen as a bounded queue in order of creation. */
module RegistryQueue {
  import opened SessionId
  import opened Registry
  import opened RegistryRuns

  datatype Item = Item(id: string, created: int)

  ghost predicate InOrder(q: seq<Item>) {
    forall i, j :: 0 <= i < j < |q| ==> q[i].created < q[j].created
  }

  /** The queue lists exactly the live sessions, oldest first. */
  ghost predicate Mirrors(live: Reg, q: seq<Item>) {
    && InOrder(q)
    && (forall i :: 0 <= i < |q| ==> q[i].id in live && live[q[i].id].created == q[i].created)
    && (forall id :: id in live ==> Item(id, live[id].created) in q)
  }

  /** Expiry drops a prefix. */
  function DropExpired(l: Limits, now: int, q: seq<Item>): seq<Item> {
    if q != [] && IsExpired(l, now, q[0].created) then DropExpired(l, now, q[1..]) else q
  }

  /** The session a call on the registry creates, if it does. */
  function Made(r: Reg, e: Event): seq<Item> {
    if e.op.Append? && IsSessionId(e.op.id) && e.op.id !in r then [Item(e.op.id, e.now)] else []
  }

  /** A new session joins at the tail; only if nothing that expired made room does the
      head leave. */
  function Pushed(l: Limits, q: seq<Item>, made: seq<Item>): seq<Item> {
    (if made != [] && l.max > 0 && |q| >= l.max then q[1..] else q) + made
  }

  function QueueStep(l: Limits, q: seq<Item>, now: int, made: seq<Item>): seq<Item> {
    Pushed(l, DropExpired(l, now, q), made)
  }

  /** The queue that the creations of a run leave. */
  function QueueRun(l: Limits, r: Reg, q: seq<Item>, evs: seq<Event>): seq<Item>
    decreases |evs|
  {
    if evs == [] then q
    else QueueRun(l, Step(l, r, evs[0]), QueueStep(l, q, evs[0].now, Made(r, evs[0])), evs[1..])
  }

  /** All sessions created in a run, in order. */
  function Creations(l: Limits, r: Reg, evs: seq<Event>): seq<Item>
    decreases |evs|
  {
    if evs == [] then [] else Made(r, evs[0]) + Creations(l, Step(l, r, evs[0]), evs[1..])
  }

  // ----- one step ---------------------------------------------------------------------

  lemma {:induction false} MirrorSize(live: Reg, q: seq<Item>)
    requires Mirrors(live, q)
    ensures |live| == |q|
    decreases |q|
  {
    if q == [] {
      assert forall id :: id !in live;
      assert live == map[];
    } else {
      MirrorPop(live, q);
      RemovedSize(live, q[0].id);
      MirrorSize(live - {q[0].id}, q[1..]);
    }
  }

  /** Without its head's session the registry mirrors the rest of the queue. */
  lemma MirrorPop(live: Reg, q: seq<Item>)
    requires Mirrors(live, q) && q != []
    ensures Mirrors(live - {q[0].id}, q[1..])
  {
    var rest, live' := q[1..], live - {q[0].id};
    forall i | 0 <= i < |rest| ensures rest[i].id in live' && live'[rest[i].id].created == rest[i].created {
      assert q[i + 1] == rest[i] && q[0].created < q[i + 1].created;
    }
    forall id | id in live' ensures Item(id, live'[id].created) in rest {
      var j :| 0 <= j < |q| && q[j] == Item(id, live[id].created);
      assert rest[j - 1] == q[j];
    }
  }

  /** The queue's expiry is the registry's. */
  lemma {:induction false} MirrorExpiry(l: Limits, now: int, live: Reg, q: seq<Item>)
    requires Mirrors(live, q)
    ensures Mirrors(Live(l, now, live), DropExpired(l, now, q))
    decreases |q|
  {
    if q != [] && IsExpired(l, now, q[0].created) {
      MirrorPop(live, q);
      MirrorExpiry(l, now, live - {q[0].id}, q[1..]);
      assert Live(l, now, live - {q[0].id}) == Live(l, now, live);
    } else {
      assert forall i :: 0 <= i < |q| ==> !IsExpired(l, now, q[i].created);
      assert Live(l, now, live) == live;
    }
  }

  lemma OldestIsHead(live: Reg, q: seq<Item>, v: string)
    requires Mirrors(live, q) && IsOldest(live, v)
    ensures q != [] && v == q[0].id
  {
    var j :| 0 <= j < |q| && q[j] == Item(v, live[v].created);
  }

  lemma MirrorPush(live: Reg, q: seq<Item>, id: string, e: Entry)
    requires Mirrors(live, q) && id !in live
    requires forall i :: 0 <= i < |q| ==> q[i].created < e.created
    ensures Mirrors(live[id := e], q + [Item(id, e.created)])
  {
    var q' := q + [Item(id, e.created)];
    var live' := live[id := e];
    assert q'[|q|] == Item(id, e.created);
    forall k | k in live' ensures Item(k, live'[k].created) in q' {
      assert k != id ==> Item(k, live[k].created) in q;
    }
  }

  lemma MirrorAppend(l: Limits, live: Reg, q: seq<Item>, e: Event)
    requires e.op.Append? && Mirrors(live, q)
    requires forall i :: 0 <= i < |q| ==> q[i].created < e.now
    requires l.max > 0 && |live| >= l.max && IsSessionId(e.op.id) && e.op.id !in live ==> IsOldest(live, e.op.victim)
    ensures Mirrors(LiveAppend(l, e.now, live, e.op.id, e.op.obs, e.op.victim), Pushed(l, q, Made(live, e)))
  {
    var id, new_ := e.op.id, AddObs(Entry(e.now, []), e.op.obs);
    assert new_.created == e.now;
    hide Mirrors, AddObs, IsOldest, IsSessionId;
    MirrorSize(live, q);
    assert q + [] == q;
    if IsSessionId(id) && id in live {
      MirrorRefresh(live, q, id, AddObs(live[id], e.op.obs));
    } else if IsSessionId(id) && l.max > 0 && |live| >= l.max {
      OldestIsHead(live, q, e.op.victim);
      MirrorPop(live, q);
      MirrorPush(live - {e.op.victim}, q[1..], id, new_);
    } else if IsSessionId(id) {
      MirrorPush(live, q, id, new_);
    }
  }

  lemma MirrorRefresh(live: Reg, q: seq<Item>, id: string, e: Entry)
    requires Mirrors(live, q) && id in live && e.created == live[id].created
    ensures Mirrors(live[id := e], q)
  {
  }

  lemma {:induction false} DropKeeps(l: Limits, now: int, q: seq<Item>)
    ensures forall x :: x in DropExpired(l, now, q) ==> x in q
    ensures IsSuffix(DropExpired(l, now, q), q)
  {
    if q != [] && IsExpired(l, now, q[0].created) {
      DropKeeps(l, now, q[1..]);
    }
  }

  lemma ExpiryRefines(l: Limits, now: int, r: Reg, q: seq<Item>, later: int)
    requires Mirrors(Live(l, now, r), q) && now <= later
    ensures Mirrors(Live(l, later, r), DropExpired(l, later, q))
  {
    LiveLater(l, now, later, r);
    MirrorExpiry(l, later, Live(l, now, r), q);
  }

  lemma CallRefines(l: Limits, r: Reg, q: seq<Item>, e: Event)
    requires Mirrors(Live(l, e.now, r), q)
    requires forall i :: 0 <= i < |q| ==> q[i].created < e.now
    requires LegalEvent(l, r, e)
    ensures Mirrors(Live(l, e.now, Step(l, r, e)), Pushed(l, q, Made(r, e)))
  {
    var live := Live(l, e.now, r);
    if DeadAppend(l, r, e) {
      DeadAppendIsInvisible(l, r, e);
    }
    assert !DeadAppend(l, r, e) ==> Made(live, e) == Made(r, e);
    hide Mirrors, Live, AppendTo, GetFrom, LiveAppend, IsExpired, IsSessionId, IsOldest;
    assert q + [] == q;
    match e.op {
      case Append(id, o, victim) =>
        if !IsDead(l, e.now, r, id) {
          AppendSeesLiveOnly(l, e.now, r, id, o, victim);
          LegalSeesLiveOnly(l, e.now, r, id, victim);
          MirrorAppend(l, live, q, e);
        }
      case Get(id) => GetKeepsLive(l, e.now, r, id);
      case Gc => LiveLater(l, e.now, e.now, r);
    }
  }

  /** An append to a present but expired session creates nothing and changes no live one. */
  lemma DeadAppendIsInvisible(l: Limits, r: Reg, e: Event)
    requires DeadAppend(l, r, e)
    ensures Live(l, e.now, Step(l, r, e)) == Live(l, e.now, r) && Made(r, e) == []
  {
  }

  /** One event: the queue keeps mirroring the live sessions. */
  lemma StepRefines(l: Limits, now: int, r: Reg, q: seq<Item>, e: Event)
    requires Mirrors(Live(l, now, r), q) && now <= e.now
    requires forall x :: x in q ==> x.created < e.now
    requires LegalEvent(l, r, e)
    ensures var q' := QueueStep(l, q, e.now, Made(r, e));
            && Mirrors(Live(l, e.now, Step(l, r, e)), q')
            && forall x :: x in q' ==> x.created <= e.now
  {
    hide Mirrors, Live, Step, DropExpired, LegalEvent, IsSessionId;
    var q' := DropExpired(l, e.now, q);
    ExpiryRefines(l, now, r, q, e.now);
    DropKeeps(l, e.now, q);
    assert forall i :: 0 <= i < |q'| ==> q'[i] in q';
    CallRefines(l, r, q', e);
  }

  // ----- whole runs ---------------------------------------------------------------------

  lemma {:induction false} RunRefines(l: Limits, now: int, r: Reg, q: seq<Item>, evs: seq<Event>, end: int)
    requires Mirrors(Live(l, now, r), q) && now <= end
    requires StrictlyOrdered(evs) && forall e :: e in evs ==> now < e.now <= end
    requires forall x :: x in q ==> x.created <= now
    requires LegalRun(l, r, evs)
    ensures Mirrors(Live(l, end, Run(l, r, evs)), DropExpired(l, end, QueueRun(l, r, q, evs)))
    decreases |evs|
  {
    hide Mirrors, Live, Step, QueueStep, DropExpired, Made;
    if evs == [] {
      MirrorExpiry(l, end, Live(l, now, r), q);
      LiveLater(l, now, end, r);
    } else {
      var e := evs[0];
      StepRefines(l, now, r, q, e);
      assert forall i :: 1 <= i < |evs| ==> evs[i] == evs[1..][i - 1];
      RunRefines(l, e.now, Step(l, r, e), QueueStep(l, q, e.now, Made(r, e)), evs[1..], end);
    }
  }

  ghost predicate IsSuffix(s: seq<Item>, t: seq<Item>) {
    |s| <= |t| && s == t[|t| - |s|..]
  }

  lemma SuffixOfSuffix(s: seq<Item>, t: seq<Item>, u: seq<Item>)
    requires IsSuffix(s, t) && IsSuffix(t, u)
    ensures IsSuffix(s, u)
  {
  }

  lemma SuffixAppend(s: seq<Item>, t: seq<Item>, x: seq<Item>)
    requires IsSuffix(s, t)
    ensures IsSuffix(s + x, t + x)
  {
  }

  lemma StepIsSuffix(l: Limits, q: seq<Item>, now: int, made: seq<Item>)
    ensures IsSuffix(QueueStep(l, q, now, made), q + made)
  {
    var q' := DropExpired(l, now, q);
    DropKeeps(l, now, q);
    var kept := if made != [] && l.max > 0 && |q'| >= l.max then q'[1..] else q';
    SuffixOfSuffix(kept, q', q);
    SuffixAppend(kept, q, made);
  }

  lemma SuffixChain(final: seq<Item>, q1: seq<Item>, q: seq<Item>, made: seq<Item>, rest: seq<Item>)
    requires IsSuffix(q1, q + made) && IsSuffix(final, q1 + rest)
    ensures IsSuffix(final, q + (made + rest))
  {
    SuffixAppend(q1, q + made, rest);
    SuffixOfSuffix(final, q1 + rest, q + made + rest);
    assert q + made + rest == q + (made + rest);
  }

  lemma {:induction false} RunIsSuffix(l: Limits, r: Reg, q: seq<Item>, evs: seq<Event>)
    ensures IsSuffix(QueueRun(l, r, q, evs), q + Creations(l, r, evs))
    decreases |evs|
  {
    if evs == [] {
      assert q + [] == q;
    } else {
      hide IsSuffix, QueueStep, Made, DropExpired, Step;
      var e, r1 := evs[0], Step(l, r, evs[0]);
      var q1 := QueueStep(l, q, e.now, Made(r, e));
      StepIsSuffix(l, q, e.now, Made(r, e));
      RunIsSuffix(l, r1, q1, evs[1..]);
      SuffixChain(QueueRun(l, r1, q1, evs[1..]), q1, q, Made(r, e), Creations(l, r1, evs[1..]));
    }
  }

  /** From an empty registry and under a strictly increasing clock, the live sessions are
      at every moment, whatever was called, the unexpired part of the queue, which is a
      suffix of the sequence of creations. */
  lemma RegistryIsQueue(l: Limits, evs: seq<Event>, start: int, end: int)
    requires StrictlyOrdered(evs) && start <= end && forall e :: e in evs ==> start < e.now <= end
    requires LegalRun(l, map[], evs)
    ensures var q := DropExpired(l, end, QueueRun(l, map[], [], evs));
            && Mirrors(Live(l, end, Run(l, map[], evs)), q)
            && IsSuffix(q, Creations(l, map[], evs))
            && (l.max > 0 ==> |q| <= l.max)
  {
    var r, q := Run(l, map[], evs), DropExpired(l, end, QueueRun(l, map[], [], evs));
    RunRefines(l, start, map[], [], evs, end);
    DropKeeps(l, end, QueueRun(l, map[], [], evs));
    RunIsSuffix(l, map[], [], evs);
    assert [] + Creations(l, map[], evs) == Creations(l, map[], evs);
    SuffixOfSuffix(q, QueueRun(l, map[], [], evs), Creations(l, map[], evs));
    MirrorSize(Live(l, end, r), q);
    LiveIsSmaller(l, end, r);
    if l.max > 0 {
      CapHoldsInRuns(l, map[], evs);
    }
  }
}
