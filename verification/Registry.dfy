/** The session registry as a value: what each call does to it. Calls run under one
    mutex, so a run is a sequence of calls, each at the time its clock shows. */
module Registry {
  import opened Options
  import opened Proto
  import opened SessionId

  const MAX_OBS := 4096

  datatype Entry = Entry(created: int, obs: seq<Obs>)

  type Reg = map<string, Entry>

  /** Without a positive ttl nothing expires; without a positive max nothing is evicted. */
  datatype Limits = Limits(ttl: int, max: int)

  predicate IsExpired(l: Limits, now: int, created: int) {
    l.ttl > 0 && now - created > l.ttl
  }

  /** The sessions that have not expired; also what a sweep leaves. */
  function Live(l: Limits, now: int, r: Reg): (e: Reg)
    ensures forall id :: id in e <==> id in r && !IsExpired(l, now, r[id].created)
    ensures forall id :: id in e ==> e[id] == r[id]
  {
    map id | id in r && !IsExpired(l, now, r[id].created) :: r[id]
  }

  ghost predicate IsOldest(r: Reg, v: string) {
    v in r && forall id :: id in r ==> r[v].created <= r[id].created
  }

  /** Whether a new session costs an old one its place. */
  predicate Evicts(l: Limits, now: int, r: Reg) {
    l.max > 0 && |r| >= l.max && |Live(l, now, r)| >= l.max
  }

  /** Room for a new session: expired ones go first, then `victim`. */
  function MakeRoom(l: Limits, now: int, r: Reg, victim: string): Reg {
    if l.max > 0 && |r| >= l.max then
      var e := Live(l, now, r);
      if |e| >= l.max then e - {victim} else e
    else r
  }

  function AddObs(e: Entry, o: Obs): Entry {
    if |e.obs| < MAX_OBS then e.(obs := e.obs + [o]) else e
  }

  function AppendTo(l: Limits, now: int, r: Reg, id: string, o: Obs, victim: string): Reg {
    if !IsSessionId(id) then r
    else if id in r then r[id := AddObs(r[id], o)]
    else MakeRoom(l, now, r, victim)[id := AddObs(Entry(now, []), o)]
  }

  /** The victim is an oldest session, whenever one is needed. */
  ghost predicate LegalVictim(l: Limits, now: int, r: Reg, id: string, victim: string) {
    IsSessionId(id) && id !in r && Evicts(l, now, r) ==> IsOldest(Live(l, now, r), victim)
  }

  /** An unknown and an expired session answer alike; the expired one is deleted. */
  function GetFrom(l: Limits, now: int, r: Reg, id: string): (Reg, Option<Entry>) {
    if !IsSessionId(id) || id !in r then (r, None)
    else if IsExpired(l, now, r[id].created) then (r - {id}, None)
    else (r, Some(r[id]))
  }

  // ----- sizes ------------------------------------------------------------------------

  lemma {:induction false} SubsetSize<T>(a: set<T>, b: set<T>)
    requires a <= b
    ensures |a| <= |b|
    decreases |b|
  {
    if a != {} {
      var x :| x in a;
      SubsetSize(a - {x}, b - {x});
    }
  }

  lemma LiveIsSmaller(l: Limits, now: int, r: Reg)
    ensures |Live(l, now, r)| <= |r|
  {
    SubsetSize(Live(l, now, r).Keys, r.Keys);
    assert |Live(l, now, r).Keys| == |Live(l, now, r)| && |r.Keys| == |r|;
  }

  lemma RemovedSize(r: Reg, v: string)
    requires v in r
    ensures |r - {v}| == |r| - 1
  {
    assert (r - {v}).Keys == r.Keys - {v};
    assert |(r - {v}).Keys| == |r - {v}| && |r.Keys| == |r|;
  }

  lemma AddedSize(r: Reg, id: string, e: Entry)
    ensures |r[id := e]| == |r| + if id in r then 0 else 1
  {
    assert r[id := e].Keys == r.Keys + {id};
    assert |r[id := e].Keys| == |r[id := e]| && |r.Keys| == |r|;
  }

  /** With a positive cap the registry never exceeds it, and the session just appended to
      is in it. */
  lemma CapIsKept(l: Limits, now: int, r: Reg, id: string, o: Obs, victim: string)
    requires l.max > 0 && |r| <= l.max && LegalVictim(l, now, r, id, victim)
    ensures |AppendTo(l, now, r, id, o, victim)| <= l.max
    ensures IsSessionId(id) ==> id in AppendTo(l, now, r, id, o, victim)
  {
    if IsSessionId(id) && id !in r {
      var e := Live(l, now, r);
      LiveIsSmaller(l, now, r);
      if Evicts(l, now, r) {
        RemovedSize(e, victim);
      }
      AddedSize(MakeRoom(l, now, r, victim), id, AddObs(Entry(now, []), o));
    } else if IsSessionId(id) {
      AddedSize(r, id, AddObs(r[id], o));
    }
  }

  /** A new session starts with the observation it was created for. */
  lemma NewSession(l: Limits, now: int, r: Reg, id: string, o: Obs, victim: string)
    requires IsSessionId(id) && id !in r
    ensures AppendTo(l, now, r, id, o, victim) == MakeRoom(l, now, r, victim)[id := Entry(now, [o])]
  {
    assert [] + [o] == [o];
  }

  /** The size of the map is the number of live sessions exactly while none of its sessions
      has expired. */
  lemma SizeIsLiveExactly(l: Limits, now: int, r: Reg)
    ensures |r| == |Live(l, now, r)| <==> forall id :: id in r ==> !IsExpired(l, now, r[id].created)
  {
    var e := Live(l, now, r);
    if id :| id in r && IsExpired(l, now, r[id].created) {
      assert Live(l, now, r - {id}) == e;
      LiveIsSmaller(l, now, r - {id});
      RemovedSize(r, id);
    } else {
      assert e == r;
    }
  }

  /** A lone session that has expired, and that nobody has asked for, is still counted. */
  lemma SizeCountsExpired(l: Limits, now: int, id: string, o: Obs)
    requires l.ttl > 0 && IsSessionId(id)
    ensures var r := AppendTo(l, now, map[], id, o, "");
            |r| == 1 && |Live(l, now + l.ttl, r)| == 1 && |Live(l, now + l.ttl + 1, r)| == 0
  {
    var e: Reg := map[];
    assert Live(l, now, e) == e;
    var r := AppendTo(l, now, e, id, o, "");
    assert |e| == 0;
    NewSession(l, now, e, id, o, "");
    assert r == map[id := Entry(now, [o])];
    assert Live(l, now + l.ttl, r) == r;
    assert Live(l, now + l.ttl + 1, r) == e;
  }

  // ----- what is visible: the live sessions -----------------------------------------------

  lemma LiveLater(l: Limits, now: int, later: int, r: Reg)
    requires now <= later
    ensures Live(l, later, Live(l, now, r)) == Live(l, later, r)
  {
  }

  /** Who is live, in numbers. */
  lemma LiveExactly(l: Limits, now: int, r: Reg, id: string)
    ensures id in Live(l, now, r) <==> id in r && (l.ttl <= 0 || now <= r[id].created + l.ttl)
    ensures id in Live(l, now, r) ==> Live(l, now, r)[id] == r[id]
  {
  }

  /** What an append leaves: the session it went to, with the observation behind those it had
      unless they are 4096 already; and of the others, unless room had to be made for a new
      session, all, else all that have not expired, but one if those still fill the cap. */
  lemma AppendExactly(l: Limits, now: int, r: Reg, id: string, o: Obs, victim: string)
    requires IsSessionId(id)
    ensures var r' := AppendTo(l, now, r, id, o, victim);
            && id in r' && r'[id].created == (if id in r then r[id].created else now)
            && r'[id].obs ==
               (if id !in r then [o] else if |r[id].obs| < 4096 then r[id].obs + [o] else r[id].obs)
    ensures forall k :: k != id && k in AppendTo(l, now, r, id, o, victim) ==>
              k in r && AppendTo(l, now, r, id, o, victim)[k] == r[k]
    ensures id in r || l.max <= 0 || |r| < l.max ==>
              forall k :: k in r ==> k in AppendTo(l, now, r, id, o, victim)
    ensures id !in r && l.max > 0 && |r| >= l.max ==>
              forall k :: k in r ==>
                (k in AppendTo(l, now, r, id, o, victim) <==>
                  && (l.ttl <= 0 || now <= r[k].created + l.ttl)
                  && (|Live(l, now, r)| >= l.max ==> k != victim))
  {
    if id !in r {
      NewSession(l, now, r, id, o, victim);
    }
  }

  /** What a get leaves and answers: a session that has expired is deleted and not shown. */
  lemma GetExactly(l: Limits, now: int, r: Reg, id: string)
    ensures var dead := IsSessionId(id) && id in r && l.ttl > 0 && now > r[id].created + l.ttl;
            && GetFrom(l, now, r, id).0 == (if dead then r - {id} else r)
            && GetFrom(l, now, r, id).1 == if IsSessionId(id) && id in r && !dead then Some(r[id]) else None
  {
  }

  /** With room the observation joins those its session had; a full session stays as it is. */
  lemma NewestExactly(l: Limits, now: int, r: Reg, id: string, o: Obs, victim: string)
    requires IsSessionId(id)
    ensures id in AppendTo(l, now, r, id, o, victim)
    ensures AppendTo(l, now, r, id, o, victim)[id].obs ==
            var before := if id in r then r[id].obs else [];
            if |before| < 4096 then before + [o] else before
  {
    AppendExactly(l, now, r, id, o, victim);
    assert [] + [o] == [o];
  }

  lemma SameLiveLater(l: Limits, now: int, later: int, r1: Reg, r2: Reg)
    requires now <= later && Live(l, now, r1) == Live(l, now, r2)
    ensures Live(l, later, r1) == Live(l, later, r2)
  {
    LiveLater(l, now, later, r1);
    LiveLater(l, now, later, r2);
  }

  /** The session is in the registry, but expired. */
  predicate IsDead(l: Limits, now: int, r: Reg, id: string) {
    id in r && IsExpired(l, now, r[id].created)
  }

  /** An append as the live sessions see it. */
  function LiveAppend(l: Limits, now: int, live: Reg, id: string, o: Obs, victim: string): Reg {
    if !IsSessionId(id) then live
    else if id in live then live[id := AddObs(live[id], o)]
    else (if l.max > 0 && |live| >= l.max then live - {victim} else live)[id := AddObs(Entry(now, []), o)]
  }

  lemma LiveMakeRoom(l: Limits, now: int, r: Reg, victim: string)
    ensures var e := Live(l, now, r);
            Live(l, now, MakeRoom(l, now, r, victim)) == if l.max > 0 && |e| >= l.max then e - {victim} else e
  {
    LiveIsSmaller(l, now, r);
    LiveLater(l, now, now, r);
  }

  /** Whether an eviction is legal only depends on the live sessions. */
  lemma LegalSeesLiveOnly(l: Limits, now: int, r: Reg, id: string, victim: string)
    requires !IsDead(l, now, r, id)
    ensures var live := Live(l, now, r);
            LegalVictim(l, now, r, id, victim) <==>
            (IsSessionId(id) && id !in live && l.max > 0 && |live| >= l.max ==> IsOldest(live, victim))
  {
    LiveIsSmaller(l, now, r);
  }

  /** Without ties there is no choice: the oldest session is unique. */
  lemma OldestIsUnique(r: Reg, v1: string, v2: string)
    requires DistinctTimes(r) && IsOldest(r, v1) && IsOldest(r, v2)
    ensures v1 == v2
  {
  }

  ghost predicate DistinctTimes(r: Reg) {
    forall i, j :: i in r && j in r && r[i].created == r[j].created ==> i == j
  }

  /** Expired sessions that still sit in the map do not influence an append, unless it is
      to one of them. */
  lemma AppendSeesLiveOnly(l: Limits, now: int, r: Reg, id: string, o: Obs, victim: string)
    requires !IsDead(l, now, r, id)
    ensures Live(l, now, AppendTo(l, now, r, id, o, victim)) == LiveAppend(l, now, Live(l, now, r), id, o, victim)
  {
    if IsSessionId(id) && id !in r {
      var m, e := MakeRoom(l, now, r, victim), AddObs(Entry(now, []), o);
      LiveMakeRoom(l, now, r, victim);
      assert Live(l, now, m[id := e]) == Live(l, now, m)[id := e];
    }
  }

  lemma GetKeepsLive(l: Limits, now: int, r: Reg, id: string)
    ensures Live(l, now, GetFrom(l, now, r, id).0) == Live(l, now, r)
    ensures GetFrom(l, now, r, id).1 ==
            if IsSessionId(id) && id in Live(l, now, r) then Some(Live(l, now, r)[id]) else None
  {
  }

  /** When a sweep right before an append can be told from none: exactly when the append
      is to a session that is present but expired. */
  lemma SweepObservable(l: Limits, now: int, r: Reg, id: string, o: Obs, victim: string)
    ensures Live(l, now, AppendTo(l, now, r, id, o, victim))
         == Live(l, now, AppendTo(l, now, Live(l, now, r), id, o, victim))
         <==> !(IsSessionId(id) && IsDead(l, now, r, id))
  {
    var swept := Live(l, now, r);
    LiveLater(l, now, now, r);
    AppendSeesLiveOnly(l, now, swept, id, o, victim);
    if IsDead(l, now, r, id) {
      if IsSessionId(id) {
        assert id !in Live(l, now, AppendTo(l, now, r, id, o, victim));
        assert id in LiveAppend(l, now, swept, id, o, victim);
      }
    } else {
      AppendSeesLiveOnly(l, now, r, id, o, victim);
    }
  }
}
