/** Whole runs of the registry: sweeping eagerly, lazily or not at all makes no visible
    difference; snapshots agree with the history of appends. */
module RegistryRuns {
  import opened Options
  import opened Proto
  import opened SessionId
  import opened Registry

  /** An append also carries the session evicted for it, should one be needed: with
      equally old sessions the choice is the map's. */
  datatype Op = Append(id: string, obs: Obs, victim: string) | Get(id: string) | Gc

  datatype Event = Event(now: int, op: Op)

  datatype Answer = Stored(ok: bool) | Snapshot(found: Option<Entry>)

  function Step(l: Limits, r: Reg, e: Event): Reg {
    match e.op
    case Append(id, o, victim) => AppendTo(l, e.now, r, id, o, victim)
    case Get(id) => GetFrom(l, e.now, r, id).0
    case Gc => Live(l, e.now, r)
  }

  /** A sweep answers nothing. */
  function AnswerOf(l: Limits, r: Reg, e: Event): seq<Answer> {
    match e.op
    case Append(id, _, _) => [Stored(IsSessionId(id))]
    case Get(id) => [Snapshot(GetFrom(l, e.now, r, id).1)]
    case Gc => []
  }

  function Run(l: Limits, r: Reg, evs: seq<Event>): Reg
    decreases |evs|
  {
    if evs == [] then r else Run(l, Step(l, r, evs[0]), evs[1..])
  }

  function Answers(l: Limits, r: Reg, evs: seq<Event>): seq<Answer>
    decreases |evs|
  {
    if evs == [] then [] else AnswerOf(l, r, evs[0]) + Answers(l, Step(l, r, evs[0]), evs[1..])
  }

  /** The clock never goes back. */
  ghost predicate Ordered(evs: seq<Event>) {
    forall i, j :: 0 <= i < j < |evs| ==> evs[i].now <= evs[j].now
  }

  ghost predicate Within(evs: seq<Event>, from: int, to: int) {
    forall i :: 0 <= i < |evs| ==> from <= evs[i].now <= to
  }

  function WithoutGc(evs: seq<Event>): seq<Event> {
    if evs == [] then []
    else (if evs[0].op.Gc? then [] else [evs[0]]) + WithoutGc(evs[1..])
  }

  predicate DeadAppend(l: Limits, r: Reg, e: Event) {
    e.op.Append? && IsDead(l, e.now, r, e.op.id)
  }

  /** No append of the run is to a session that is present but expired. */
  predicate NoDeadAppends(l: Limits, r: Reg, evs: seq<Event>)
    decreases |evs|
  {
    evs == [] || (!DeadAppend(l, r, evs[0]) && NoDeadAppends(l, Step(l, r, evs[0]), evs[1..]))
  }

  lemma {:induction false} RunSnoc(l: Limits, r: Reg, evs: seq<Event>, e: Event)
    ensures Run(l, r, evs + [e]) == Step(l, Run(l, r, evs), e)
    ensures Answers(l, r, evs + [e]) == Answers(l, r, evs) + AnswerOf(l, Run(l, r, evs), e)
    ensures LegalRun(l, r, evs + [e]) <==> LegalRun(l, r, evs) && LegalEvent(l, Run(l, r, evs), e)
    decreases |evs|
  {
    hide Step, AnswerOf, LegalEvent;
    if evs == [] {
      assert [e][1..] == [];
      assert Answers(l, Step(l, r, e), []) == [];
    } else {
      assert (evs + [e])[1..] == evs[1..] + [e] && (evs + [e])[0] == evs[0];
      RunSnoc(l, Step(l, r, evs[0]), evs[1..], e);
    }
  }

  lemma {:induction false} RunConcat(l: Limits, r: Reg, evs: seq<Event>, more: seq<Event>)
    ensures Run(l, r, evs + more) == Run(l, Run(l, r, evs), more)
    ensures LegalRun(l, r, evs + more) <==> LegalRun(l, r, evs) && LegalRun(l, Run(l, r, evs), more)
    decreases |evs|
  {
    hide Step, LegalEvent;
    if evs == [] {
      assert evs + more == more;
    } else {
      assert (evs + more)[1..] == evs[1..] + more && (evs + more)[0] == evs[0];
      RunConcat(l, Step(l, r, evs[0]), evs[1..], more);
    }
  }

  // ----- sweeps cannot be seen ----------------------------------------------------------

  lemma GcKeepsLive(l: Limits, r: Reg, e: Event, t: int)
    requires e.op.Gc? && e.now <= t
    ensures Live(l, t, Step(l, r, e)) == Live(l, t, r)
  {
    LiveLater(l, e.now, t, r);
  }

  /** The same call on registries with the same live sessions. */
  lemma SameStep(l: Limits, r1: Reg, r2: Reg, e: Event)
    requires Live(l, e.now, r1) == Live(l, e.now, r2)
    requires !DeadAppend(l, r1, e) && !DeadAppend(l, r2, e)
    ensures Live(l, e.now, Step(l, r1, e)) == Live(l, e.now, Step(l, r2, e))
    ensures AnswerOf(l, r1, e) == AnswerOf(l, r2, e)
    ensures LegalEvent(l, r1, e) <==> LegalEvent(l, r2, e)
  {
    match e.op {
      case Append(id, o, victim) =>
        AppendSeesLiveOnly(l, e.now, r1, id, o, victim);
        AppendSeesLiveOnly(l, e.now, r2, id, o, victim);
        LegalSeesLiveOnly(l, e.now, r1, id, victim);
        LegalSeesLiveOnly(l, e.now, r2, id, victim);
      case Get(id) =>
        GetKeepsLive(l, e.now, r1, id);
        GetKeepsLive(l, e.now, r2, id);
      case Gc =>
    }
  }

  lemma {:induction false} SharedMember(evs: seq<Event>, e: Event)
    requires e in WithoutGc(evs)
    ensures e in evs
  {
    if e != evs[0] {
      SharedMember(evs[1..], e);
    }
  }

  /** Two runs that make the same calls at the same times, with sweeps anywhere in either,
      give every Get the same answer and leave the same live sessions, as long as neither
      appends to a present but expired session. Where one may evict a session, so may the
      other. */
  lemma {:induction false} SweepsAreInvisible(l: Limits, r1: Reg, evs1: seq<Event>, r2: Reg, evs2: seq<Event>,
                                              now: int, end: int)
    requires now <= end && Live(l, now, r1) == Live(l, now, r2)
    requires Ordered(evs1) && Ordered(evs2)
    requires WithoutGc(evs1) == WithoutGc(evs2) && Within(WithoutGc(evs1), now, end)
    requires (forall e :: e in evs1 ==> e.now <= end) && (forall e :: e in evs2 ==> e.now <= end)
    requires NoDeadAppends(l, r1, evs1) && NoDeadAppends(l, r2, evs2)
    ensures Answers(l, r1, evs1) == Answers(l, r2, evs2)
    ensures Live(l, end, Run(l, r1, evs1)) == Live(l, end, Run(l, r2, evs2))
    ensures LegalRun(l, r1, evs1) <==> LegalRun(l, r2, evs2)
    decreases |evs1| + |evs2|
  {
    hide Live, Step, AnswerOf, DeadAppend, LegalEvent, Ordered;
    if evs1 != [] && evs1[0].op.Gc? {
      AfterSweep(l, r1, evs1, r2, now, end);
      SweepsAreInvisible(l, Step(l, r1, evs1[0]), evs1[1..], r2, evs2, Later(now, evs1[0].now), end);
    } else if evs2 != [] && evs2[0].op.Gc? {
      AfterSweep(l, r2, evs2, r1, now, end);
      SweepsAreInvisible(l, r1, evs1, Step(l, r2, evs2[0]), evs2[1..], Later(now, evs2[0].now), end);
    } else if evs1 != [] {
      var e := evs1[0];
      assert WithoutGc(evs1)[0] == e;
      assert evs2 != [] && evs2[0] == e;
      assert WithoutGc(evs1)[1..] == WithoutGc(evs1[1..]) && WithoutGc(evs2)[1..] == WithoutGc(evs2[1..]);
      SameLiveLater(l, now, e.now, r1, r2);
      SameStep(l, r1, r2, e);
      TailIsLater(evs1, end);
      TailIsLater(evs2, end);
      SweepsAreInvisible(l, Step(l, r1, e), evs1[1..], Step(l, r2, e), evs2[1..], e.now, end);
    } else {
      SameLiveLater(l, now, end, r1, r2);
    }
  }

  function Later(a: int, b: int): int {
    if a < b then b else a
  }

  lemma TailIsLater(evs: seq<Event>, end: int)
    requires evs != [] && Ordered(evs) && forall e :: e in evs ==> e.now <= end
    ensures Within(WithoutGc(evs[1..]), evs[0].now, end)
    ensures Ordered(evs[1..]) && forall e :: e in evs[1..] ==> e.now <= end
  {
    var shared := WithoutGc(evs[1..]);
    forall i | 0 <= i < |shared| ensures evs[0].now <= shared[i].now <= end {
      SharedMember(evs[1..], shared[i]);
      var j :| 0 <= j < |evs[1..]| && evs[1..][j] == shared[i];
      assert evs[j + 1] == shared[i];
    }
  }

  lemma AfterSweep(l: Limits, r: Reg, evs: seq<Event>, other: Reg, now: int, end: int)
    requires evs != [] && evs[0].op.Gc? && Ordered(evs) && forall e :: e in evs ==> e.now <= end
    requires now <= end && Live(l, now, r) == Live(l, now, other) && Within(WithoutGc(evs), now, end)
    ensures var t := Later(now, evs[0].now);
            && t <= end
            && LegalEvent(l, r, evs[0]) && AnswerOf(l, r, evs[0]) == []
            && Live(l, t, Step(l, r, evs[0])) == Live(l, t, other)
            && WithoutGc(evs[1..]) == WithoutGc(evs)
            && Within(WithoutGc(evs), t, end)
            && Ordered(evs[1..]) && (forall e :: e in evs[1..] ==> e.now <= end)
  {
    var t := Later(now, evs[0].now);
    GcKeepsLive(l, r, evs[0], t);
    SameLiveLater(l, now, t, r, other);
    TailIsLater(evs, end);
  }

  // ----- no ties, no choice -------------------------------------------------------------

  /** The same call, whichever session is evicted for it. */
  predicate SameCall(e: Event, f: Event) {
    && e.now == f.now
    && match e.op
       case Append(id, o, _) => f.op.Append? && f.op.id == id && f.op.obs == o
       case _ => f.op == e.op
  }

  ghost predicate SameCalls(evs1: seq<Event>, evs2: seq<Event>) {
    |evs1| == |evs2| && forall i :: 0 <= i < |evs1| ==> SameCall(evs1[i], evs2[i])
  }

  ghost predicate StrictlyOrdered(evs: seq<Event>) {
    forall i, j :: 0 <= i < j < |evs| ==> evs[i].now < evs[j].now
  }

  /** No two sessions have the same age, and all are older than the calls to come. */
  ghost predicate NoTies(live: Reg, calls: seq<Event>) {
    && DistinctTimes(live)
    && forall id, i :: id in live && 0 <= i < |calls| ==> live[id].created < calls[i].now
  }

  lemma NoTiesLater(l: Limits, now: int, later: int, r: Reg, calls: seq<Event>)
    requires now <= later && NoTies(Live(l, now, r), calls)
    ensures NoTies(Live(l, later, r), calls)
  {
    LiveLater(l, now, later, r);
  }

  lemma ForcedAppend(l: Limits, live: Reg, e: Event, f: Event, calls: seq<Event>)
    requires e.op.Append? && SameCall(e, f) && StrictlyOrdered(calls) && calls != [] && calls[0].now == e.now
    requires NoTies(live, calls)
    requires IsSessionId(e.op.id) && e.op.id !in live && l.max > 0 && |live| >= l.max ==>
               IsOldest(live, e.op.victim) && IsOldest(live, f.op.victim)
    ensures var live' := LiveAppend(l, e.now, live, e.op.id, e.op.obs, e.op.victim);
            live' == LiveAppend(l, e.now, live, e.op.id, e.op.obs, f.op.victim) && NoTies(live', calls[1..])
  {
    if IsSessionId(e.op.id) && e.op.id !in live && l.max > 0 && |live| >= l.max {
      OldestIsUnique(live, e.op.victim, f.op.victim);
    }
  }

  lemma ForcedStep(l: Limits, r1: Reg, r2: Reg, e: Event, f: Event, calls: seq<Event>)
    requires SameCall(e, f) && StrictlyOrdered(calls) && calls != [] && calls[0].now == e.now
    requires Live(l, e.now, r1) == Live(l, e.now, r2) && NoTies(Live(l, e.now, r1), calls)
    requires !DeadAppend(l, r1, e) && !DeadAppend(l, r2, f) && LegalEvent(l, r1, e) && LegalEvent(l, r2, f)
    ensures Live(l, e.now, Step(l, r1, e)) == Live(l, e.now, Step(l, r2, f))
    ensures AnswerOf(l, r1, e) == AnswerOf(l, r2, f)
    ensures NoTies(Live(l, e.now, Step(l, r1, e)), calls[1..])
  {
    hide Live, AppendTo, LiveAppend, IsDead;
    match e.op {
      case Append(id, o, _) =>
        AppendSeesLiveOnly(l, e.now, r1, id, o, e.op.victim);
        AppendSeesLiveOnly(l, e.now, r2, id, o, f.op.victim);
        LegalSeesLiveOnly(l, e.now, r1, id, e.op.victim);
        LegalSeesLiveOnly(l, e.now, r2, id, f.op.victim);
        ForcedAppend(l, Live(l, e.now, r1), e, f, calls);
      case Get(id) =>
        GetKeepsLive(l, e.now, r1, id);
        GetKeepsLive(l, e.now, r2, id);
      case Gc => LiveLater(l, e.now, e.now, r1); LiveLater(l, e.now, e.now, r2);
    }
  }

  /** When no two calls come at the same reading of the clock the registry has no choice
      whom to evict: any two legal runs of the same calls, sweeps anywhere in either, give
      the same answers and leave the same live sessions. */
  lemma {:induction false} NoTiesNoChoice(l: Limits, r1: Reg, evs1: seq<Event>, r2: Reg, evs2: seq<Event>,
                                          now: int, end: int)
    requires now <= end && Live(l, now, r1) == Live(l, now, r2) && NoTies(Live(l, now, r1), WithoutGc(evs1))
    requires Ordered(evs1) && Ordered(evs2) && StrictlyOrdered(WithoutGc(evs1))
    requires SameCalls(WithoutGc(evs1), WithoutGc(evs2))
    requires Within(WithoutGc(evs1), now, end) && Within(WithoutGc(evs2), now, end)
    requires (forall e :: e in evs1 ==> e.now <= end) && (forall e :: e in evs2 ==> e.now <= end)
    requires NoDeadAppends(l, r1, evs1) && NoDeadAppends(l, r2, evs2)
    requires LegalRun(l, r1, evs1) && LegalRun(l, r2, evs2)
    ensures Answers(l, r1, evs1) == Answers(l, r2, evs2)
    ensures Live(l, end, Run(l, r1, evs1)) == Live(l, end, Run(l, r2, evs2))
    decreases |evs1| + |evs2|
  {
    hide Live, Step, AnswerOf, DeadAppend, LegalEvent, Ordered, NoTies, StrictlyOrdered, SameCall;
    if evs1 != [] && evs1[0].op.Gc? {
      AfterSweep(l, r1, evs1, r2, now, end);
      WithinLater(evs2, now, Later(now, evs1[0].now), end, WithoutGc(evs1));
      NoTiesLater(l, now, Later(now, evs1[0].now), r2, WithoutGc(evs1));
      NoTiesNoChoice(l, Step(l, r1, evs1[0]), evs1[1..], r2, evs2, Later(now, evs1[0].now), end);
    } else if evs2 != [] && evs2[0].op.Gc? {
      AfterSweep(l, r2, evs2, r1, now, end);
      WithinLater(evs1, now, Later(now, evs2[0].now), end, WithoutGc(evs2));
      NoTiesLater(l, now, Later(now, evs2[0].now), r1, WithoutGc(evs1));
      NoTiesNoChoice(l, r1, evs1, Step(l, r2, evs2[0]), evs2[1..], Later(now, evs2[0].now), end);
    } else if evs1 != [] {
      BothStep(l, r1, evs1, r2, evs2, now, end);
      NoTiesNoChoice(l, Step(l, r1, evs1[0]), evs1[1..], Step(l, r2, evs2[0]), evs2[1..], evs1[0].now, end);
    } else {
      assert WithoutGc(evs2) == [];
      SameLiveLater(l, now, end, r1, r2);
    }
  }

  /** Calls at the same times lie within the same bounds. */
  lemma WithinLater(evs: seq<Event>, now: int, t: int, end: int, calls: seq<Event>)
    requires Within(calls, t, end)
    requires SameCalls(WithoutGc(evs), calls) || SameCalls(calls, WithoutGc(evs))
    ensures Within(WithoutGc(evs), t, end)
  {
  }

  lemma BothStep(l: Limits, r1: Reg, evs1: seq<Event>, r2: Reg, evs2: seq<Event>, now: int, end: int)
    requires evs1 != [] && !evs1[0].op.Gc? && !(evs2 != [] && evs2[0].op.Gc?)
    requires now <= end && Live(l, now, r1) == Live(l, now, r2) && NoTies(Live(l, now, r1), WithoutGc(evs1))
    requires Ordered(evs1) && Ordered(evs2) && StrictlyOrdered(WithoutGc(evs1))
    requires SameCalls(WithoutGc(evs1), WithoutGc(evs2))
    requires Within(WithoutGc(evs1), now, end)
    requires (forall e :: e in evs1 ==> e.now <= end) && (forall e :: e in evs2 ==> e.now <= end)
    requires NoDeadAppends(l, r1, evs1) && NoDeadAppends(l, r2, evs2)
    requires LegalRun(l, r1, evs1) && LegalRun(l, r2, evs2)
    ensures evs2 != []
    ensures var e, f := evs1[0], evs2[0];
            && e.now == f.now && now <= e.now <= end
            && Live(l, e.now, Step(l, r1, e)) == Live(l, e.now, Step(l, r2, f))
            && AnswerOf(l, r1, e) == AnswerOf(l, r2, f)
            && NoTies(Live(l, e.now, Step(l, r1, e)), WithoutGc(evs1[1..]))
            && SameCalls(WithoutGc(evs1[1..]), WithoutGc(evs2[1..])) && StrictlyOrdered(WithoutGc(evs1[1..]))
            && Within(WithoutGc(evs1[1..]), e.now, end) && Within(WithoutGc(evs2[1..]), e.now, end)
            && Ordered(evs1[1..]) && Ordered(evs2[1..])
            && (forall x :: x in evs1[1..] ==> x.now <= end) && (forall x :: x in evs2[1..] ==> x.now <= end)
  {
    hide Live, Step, AnswerOf, DeadAppend, LegalEvent, Ordered, NoTies;
    var w1, w2 := WithoutGc(evs1), WithoutGc(evs2);
    assert w1[0] == evs1[0] && w2 != [] && SameCall(w1[0], w2[0]);
    assert w2[0] == evs2[0];
    assert w1[1..] == WithoutGc(evs1[1..]) && w2[1..] == WithoutGc(evs2[1..]);
    SameLiveLater(l, now, evs1[0].now, r1, r2);
    NoTiesLater(l, now, evs1[0].now, r1, w1);
    ForcedStep(l, r1, r2, evs1[0], evs2[0], w1);
    TailIsLater(evs1, end);
    TailIsLater(evs2, end);
  }

  /** From an empty registry: lazy expiry alone, and any amount of sweeping, agree. */
  lemma LazyIsEager(l: Limits, evs: seq<Event>, end: int)
    requires Ordered(evs) && forall e :: e in evs ==> e.now <= end
    requires NoDeadAppends(l, map[], evs) && NoDeadAppends(l, map[], WithoutGc(evs))
    ensures Answers(l, map[], evs) == Answers(l, map[], WithoutGc(evs))
    ensures Live(l, end, Run(l, map[], evs)) == Live(l, end, Run(l, map[], WithoutGc(evs)))
    ensures LegalRun(l, map[], evs) <==> LegalRun(l, map[], WithoutGc(evs))
  {
    hide NoDeadAppends, Answers, Run, Live, LegalRun;
    if evs != [] {
      var lazy := WithoutGc(evs);
      SharedIsOrdered(evs);
      WithoutGcTwice(evs);
      forall e | e in lazy ensures evs[0].now <= e.now <= end {
        SharedMember(evs, e);
        var j :| 0 <= j < |evs| && evs[j] == e;
      }
      SweepsAreInvisible(l, map[], evs, map[], lazy, evs[0].now, end);
    }
  }

  /** Both runs have to be free of appends to dead sessions: a sweep saves one run from
      them, as it removes the dead session; another lets a run in for them, as room was
      made early and no later eviction of expired sessions removes this one. */
  lemma DeadAppendsDoNotTransfer(a: string, b: string, c: string, d: string, o: Obs)
    requires IsSessionId(a) && IsSessionId(b) && IsSessionId(c) && IsSessionId(d)
    requires a != b && a != c && a != d && b != c && b != d && c != d
    ensures var l, evs := Limits(5, 0), [Event(0, Append(a, o, "")), Event(6, Gc), Event(6, Append(a, o, ""))];
            NoDeadAppends(l, map[], evs) && !NoDeadAppends(l, map[], WithoutGc(evs))
    ensures var l := Limits(5, 3);
            var before := [Event(0, Append(d, o, "")), Event(3, Append(a, o, "")), Event(4, Append(b, o, ""))];
            var after := [Event(9, Append(c, o, "")), Event(9, Append(a, o, ""))];
            && !NoDeadAppends(l, map[], before + [Event(6, Gc)] + after)
            && NoDeadAppends(l, map[], before + after)
  {
    SweepSaves(a, o);
    SweepHarms(a, b, c, d, o);
  }

  lemma SweepSaves(a: string, o: Obs)
    requires IsSessionId(a)
    ensures var l, evs := Limits(5, 0), [Event(0, Append(a, o, "")), Event(6, Gc), Event(6, Append(a, o, ""))];
            NoDeadAppends(l, map[], evs) && !NoDeadAppends(l, map[], WithoutGc(evs))
  {
    hide IsSessionId;
    var l, x, y, z := Limits(5, 0), Event(0, Append(a, o, "")), Event(6, Gc), Event(6, Append(a, o, ""));
    assert [x, y, z][1..] == [y, z] && [y, z][1..] == [z] && [z][1..] == [];
    assert WithoutGc([]) == [] && WithoutGc([z]) == [z] && WithoutGc([y, z]) == [z] && WithoutGc([x, y, z]) == [x, z];
    assert [x, z][1..] == [z];
    NewSession(l, 0, map[], a, o, "");
    var r1 := Step(l, map[], x);
    assert r1 == map[a := Entry(0, [o])];
    assert Step(l, r1, y) == map[];
    assert NoDeadAppends(l, map[], [z]) && !NoDeadAppends(l, r1, [z]);
  }

  lemma SweepHarms(a: string, b: string, c: string, d: string, o: Obs)
    requires IsSessionId(a) && IsSessionId(b) && IsSessionId(c) && IsSessionId(d)
    requires a != b && a != c && a != d && b != c && b != d && c != d
    ensures var l := Limits(5, 3);
            var before := [Event(0, Append(d, o, "")), Event(3, Append(a, o, "")), Event(4, Append(b, o, ""))];
            var after := [Event(9, Append(c, o, "")), Event(9, Append(a, o, ""))];
            && !NoDeadAppends(l, map[], before + [Event(6, Gc)] + after)
            && NoDeadAppends(l, map[], before + after)
  {
    hide IsSessionId;
    var l := Limits(5, 3);
    var e1, e2, e3 := Event(0, Append(d, o, "")), Event(3, Append(a, o, "")), Event(4, Append(b, o, ""));
    var g, e4, e5 := Event(6, Gc), Event(9, Append(c, o, "")), Event(9, Append(a, o, ""));
    var r1: Reg := map[d := Entry(0, [o])];
    var r2 := r1[a := Entry(3, [o])];
    var r3 := r2[b := Entry(4, [o])];
    NewSession(l, 0, map[], d, o, "");
    NewSession(l, 3, r1, a, o, "");
    NewSession(l, 4, r2, b, o, "");
    assert |r1| == 1 && |r2| == 2;
    hide AddObs, Live;
    assert Step(l, map[], e1) == r1 && Step(l, r1, e2) == r2 && Step(l, r2, e3) == r3;
    hide Step;
    StepsAreClean(l, [e1, e2, e3], [g, e4, e5], r1, r2, r3);
    StepsAreClean(l, [e1, e2, e3], [e4, e5], r1, r2, r3);
    assert [e1, e2, e3] + [g] + [e4, e5] == [e1, e2, e3] + [g, e4, e5];
    AfterHarm(l, a, b, c, d, o, r3);
  }

  lemma CleanFirst(l: Limits, r: Reg, e: Event, rest: seq<Event>)
    ensures NoDeadAppends(l, r, [e] + rest) <==> !DeadAppend(l, r, e) && NoDeadAppends(l, Step(l, r, e), rest)
  {
    assert ([e] + rest)[1..] == rest;
  }

  lemma StepsAreClean(l: Limits, before: seq<Event>, rest: seq<Event>, r1: Reg, r2: Reg, r3: Reg)
    requires |before| == 3
    requires Step(l, map[], before[0]) == r1 && Step(l, r1, before[1]) == r2 && Step(l, r2, before[2]) == r3
    requires !DeadAppend(l, map[], before[0]) && !DeadAppend(l, r1, before[1]) && !DeadAppend(l, r2, before[2])
    ensures NoDeadAppends(l, map[], before + rest) == NoDeadAppends(l, r3, rest)
  {
    hide Step, DeadAppend, NoDeadAppends;
    var x, y, z := before[0], before[1], before[2];
    assert before + rest == [x] + ([y] + ([z] + rest));
    CleanFirst(l, map[], x, [y] + ([z] + rest));
    CleanFirst(l, r1, y, [z] + rest);
    CleanFirst(l, r2, z, rest);
  }

  lemma CleanEmpty(l: Limits, r: Reg)
    ensures NoDeadAppends(l, r, [])
  {
  }

  lemma HarmStates(l: Limits, a: string, b: string, d: string, x: Entry, y: Entry, z: Entry, r3: Reg)
    requires a != b && a != d && b != d && l.ttl == 5 && x.created == 0 && y.created == 3 && z.created == 4
    requires r3 == map[d := x, a := y, b := z]
    ensures var swept: Reg := map[a := y, b := z];
            var left: Reg := map[b := z];
            && Live(l, 6, r3) == swept && Live(l, 9, r3) == left
            && |r3| == 3 && |swept| == 2 && |left| == 1
  {
    assert Live(l, 6, r3) == map[a := y, b := z] && Live(l, 9, r3) == map[b := z];
    hide Live;
    var none: Reg := map[];
    assert |none| == 0;
    AddedSize(none, b, z);
    AddedSize(map[b := z], a, y);
    AddedSize(map[b := z, a := y], d, x);
    assert map[b := z, a := y] == map[a := y, b := z];
    assert map[b := z, a := y, d := x] == r3;
  }

  lemma AfterHarm(l: Limits, a: string, b: string, c: string, d: string, o: Obs, r3: Reg)
    requires IsSessionId(a) && IsSessionId(b) && IsSessionId(c) && IsSessionId(d)
    requires a != b && a != c && a != d && b != c && b != d && c != d
    requires l == Limits(5, 3) && r3 == map[d := Entry(0, [o]), a := Entry(3, [o]), b := Entry(4, [o])]
    ensures var g, e4, e5 := Event(6, Gc), Event(9, Append(c, o, "")), Event(9, Append(a, o, ""));
            !NoDeadAppends(l, r3, [g, e4, e5]) && NoDeadAppends(l, r3, [e4, e5])
  {
    hide IsSessionId, Live, AddObs, NoDeadAppends;
    var g, e4, e5 := Event(6, Gc), Event(9, Append(c, o, "")), Event(9, Append(a, o, ""));
    HarmStates(l, a, b, d, Entry(0, [o]), Entry(3, [o]), Entry(4, [o]), r3);
    var swept, left := Live(l, 6, r3), Live(l, 9, r3);
    NewSession(l, 9, swept, c, o, "");
    NewSession(l, 9, r3, c, o, "");
    var r4, r4' := swept[c := Entry(9, [o])], left[c := Entry(9, [o])];
    assert Step(l, r3, g) == swept && Step(l, swept, e4) == r4 && Step(l, r3, e4) == r4';
    assert DeadAppend(l, r4, e5) && !DeadAppend(l, r4', e5);
    assert !DeadAppend(l, r3, e4);
    hide Step, DeadAppend;
    assert [g, e4, e5] == [g] + ([e4] + [e5]) && [e4, e5] == [e4] + [e5] && [e5] == [e5] + [];
    CleanFirst(l, r3, g, [e4] + [e5]);
    CleanFirst(l, swept, e4, [e5]);
    CleanFirst(l, r4, e5, []);
    CleanFirst(l, r3, e4, [e5]);
    CleanFirst(l, r4', e5, []);
    CleanEmpty(l, Step(l, r4', e5));
  }

  lemma {:induction false} SharedIsOrdered(evs: seq<Event>)
    requires Ordered(evs)
    ensures Ordered(WithoutGc(evs))
  {
    if evs != [] {
      SharedIsOrdered(evs[1..]);
      var rest := WithoutGc(evs[1..]);
      forall k | 0 <= k < |rest| ensures evs[0].now <= rest[k].now {
        SharedMember(evs[1..], rest[k]);
        var j :| 0 <= j < |evs[1..]| && evs[1..][j] == rest[k];
        assert evs[j + 1] == rest[k];
      }
    }
  }

  lemma {:induction false} WithoutGcTwice(evs: seq<Event>)
    ensures WithoutGc(WithoutGc(evs)) == WithoutGc(evs)
  {
    if evs != [] {
      WithoutGcTwice(evs[1..]);
      var rest := WithoutGc(evs[1..]);
      if evs[0].op.Gc? {
        assert WithoutGc(evs) == rest;
      } else {
        assert WithoutGc(evs) == [evs[0]] + rest && ([evs[0]] + rest)[1..] == rest;
      }
    }
  }

  /** The cap holds in every reachable registry, for every clock. */
  lemma {:induction false} CapHoldsInRuns(l: Limits, r: Reg, evs: seq<Event>)
    requires l.max > 0 && |r| <= l.max && LegalRun(l, r, evs)
    ensures |Run(l, r, evs)| <= l.max
    decreases |evs|
  {
    if evs != [] {
      var e := evs[0];
      match e.op {
        case Append(id, o, victim) => CapIsKept(l, e.now, r, id, o, victim);
        case Get(id) => if id in r { RemovedSize(r, id); }
        case Gc => LiveIsSmaller(l, e.now, r);
      }
      CapHoldsInRuns(l, Step(l, r, e), evs[1..]);
    }
  }

  ghost predicate LegalRun(l: Limits, r: Reg, evs: seq<Event>)
    decreases |evs|
  {
    evs == [] || (LegalEvent(l, r, evs[0]) && LegalRun(l, Step(l, r, evs[0]), evs[1..]))
  }

  ghost predicate LegalEvent(l: Limits, r: Reg, e: Event) {
    e.op.Append? ==> LegalVictim(l, e.now, r, e.op.id, e.op.victim)
  }

  // ----- snapshots and the history of appends -------------------------------------------

  /** All observations appended to each session since it was last created. */
  type History = map<string, seq<Obs>>

  function Remember(r: Reg, h: History, e: Event): History {
    if e.op.Append? && IsSessionId(e.op.id) then
      var id := e.op.id;
      h[id := (if id in r && id in h then h[id] else []) + [e.op.obs]]
    else h
  }

  function HistoryOf(l: Limits, r: Reg, h: History, evs: seq<Event>): History
    decreases |evs|
  {
    if evs == [] then h else HistoryOf(l, Step(l, r, evs[0]), Remember(r, h, evs[0]), evs[1..])
  }

  function FirstObs(os: seq<Obs>): seq<Obs> {
    if |os| <= MAX_OBS then os else os[..MAX_OBS]
  }

  ghost predicate AgreesWith(r: Reg, h: History) {
    forall id :: id in r ==> id in h && r[id].obs == FirstObs(h[id])
  }

  lemma AgreementStep(l: Limits, r: Reg, h: History, e: Event)
    requires AgreesWith(r, h)
    ensures AgreesWith(Step(l, r, e), Remember(r, h, e))
  {
    var r', h' := Step(l, r, e), Remember(r, h, e);
    forall id | id in r' ensures id in h' && r'[id].obs == FirstObs(h'[id]) {
      if e.op.Append? && IsSessionId(e.op.id) && id == e.op.id && id in r {
        assert FirstObs(h[id] + [e.op.obs]) == AddObs(r[id], e.op.obs).obs;
      }
    }
  }

  /** In every reachable registry a session holds exactly the first 4096 observations
      appended since its creation, in order. */
  lemma {:induction false} SnapshotsAreHistory(l: Limits, r: Reg, h: History, evs: seq<Event>)
    requires AgreesWith(r, h)
    ensures AgreesWith(Run(l, r, evs), HistoryOf(l, r, h, evs))
    ensures var r', h' := Run(l, r, evs), HistoryOf(l, r, h, evs);
            forall id :: id in r' ==>
              id in h' && r'[id].obs == if |h'[id]| <= 4096 then h'[id] else h'[id][..4096]
    decreases |evs|
  {
    if evs != [] {
      AgreementStep(l, r, h, evs[0]);
      hide Step, Remember, AgreesWith;
      SnapshotsAreHistory(l, Step(l, r, evs[0]), Remember(r, h, evs[0]), evs[1..]);
    }
  }

  /** As long as a session stays in the registry it is one incarnation, whatever the clock
      does: it keeps its creation time and only ever gains observations at the end. */
  lemma {:induction false} SnapshotsOnlyGrow(l: Limits, r: Reg, evs: seq<Event>, id: string)
    requires forall k :: 0 <= k <= |evs| ==> id in Run(l, r, evs[..k])
    ensures var r' := Run(l, r, evs);
            id in r' && id in r && r'[id].created == r[id].created && r[id].obs <= r'[id].obs
    decreases |evs|
  {
    assert Run(l, r, evs[..0]) == r && evs[..|evs|] == evs;
    if evs != [] {
      var n := |evs| - 1;
      var init, e := evs[..n], evs[n];
      assert forall k :: 0 <= k <= n ==> init[..k] == evs[..k];
      SnapshotsOnlyGrow(l, r, init, id);
      assert evs == init + [e];
      RunSnoc(l, r, init, e);
      StepGrows(l, Run(l, r, init), e, id);
    }
  }

  lemma StepGrows(l: Limits, r: Reg, e: Event, id: string)
    requires id in r && id in Step(l, r, e)
    ensures Step(l, r, e)[id].created == r[id].created && r[id].obs <= Step(l, r, e)[id].obs
  {
  }

  /** What two snapshots alone tell: once the clock has moved past a creation, equal creation
      times mean the same incarnation. */
  lemma {:induction false} SameCreationGrows(l: Limits, r: Reg, evs: seq<Event>, id: string)
    requires Ordered(evs) && id in r
    requires forall e :: e in evs ==> r[id].created < e.now
    ensures var r' := Run(l, r, evs);
            id in r' && r'[id].created == r[id].created ==> r[id].obs <= r'[id].obs
    decreases |evs|
  {
    if evs != [] {
      var e, r1 := evs[0], Step(l, r, evs[0]);
      if id in r1 && r1[id].created == r[id].created {
        assert r[id].obs <= r1[id].obs;
        SameCreationGrows(l, r1, evs[1..], id);
      } else {
        NeverBack(l, r1, evs[1..], id, r[id].created);
      }
    }
  }

  /** A session that is gone can only come back with a later creation time. */
  lemma {:induction false} NeverBack(l: Limits, r: Reg, evs: seq<Event>, id: string, created: int)
    requires id in r ==> r[id].created != created
    requires forall e :: e in evs ==> created < e.now
    ensures id in Run(l, r, evs) ==> Run(l, r, evs)[id].created != created
    decreases |evs|
  {
    if evs != [] {
      NeverBack(l, Step(l, r, evs[0]), evs[1..], id, created);
    }
  }
}
