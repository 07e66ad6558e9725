/** The in-memory registry as it runs: a map of session objects, changed in place by
    calls that each hold the mutex. Every call is tied to the value model of Registry. */
module Store {
  import opened Options
  import opened Proto
  import opened SessionId
  import opened Registry
  import Runs = RegistryRuns

  /** A session and its slice of observations: an array of some capacity, filled up to
      `len`. The observations themselves are values that nobody changes. */
  class Session {
    const id: string
    const created: int
    var obs: array<Obs>
    var len: nat

    predicate Valid()
      reads this
    {
      len <= obs.Length
    }

    ghost function Contents(): seq<Obs>
      requires Valid()
      reads this, obs
    {
      obs[..len]
    }

    ghost function Value(): Entry
      requires Valid()
      reads this, obs
    {
      Entry(created, Contents())
    }

    constructor (id: string, created: int)
      ensures this.id == id && this.created == created && fresh(obs)
      ensures Valid() && Contents() == []
    {
      this.id := id;
      this.created := created;
      obs := new Obs[0];
      len := 0;
    }

    /** A snapshot: the observations are copied into an array of its own. */
    constructor Copy(from: Session)
      requires from.Valid()
      ensures id == from.id && created == from.created && fresh(obs)
      ensures Valid() && Contents() == from.Contents()
    {
      id := from.id;
      created := from.created;
      var n := from.len;
      obs := new Obs[n](i requires 0 <= i < n && from.Valid() && n == from.len reads from, from.obs => from.obs[i]);
      len := n;
    }

    /** append(sess.Obs, obs): in place while the capacity lasts, else into a new array
        of some larger capacity. */
    method Add(o: Obs)
      requires Valid()
      modifies this, obs
      ensures Valid() && Contents() == old(Contents()) + [o]
      ensures if old(len) < old(obs.Length) then obs == old(obs) else fresh(obs)
    {
      if len == obs.Length {
        var capacity: nat :| capacity > len;
        var grown := new Obs[capacity];
        forall i | 0 <= i < len {
          grown[i] := obs[i];
        }
        obs := grown;
      }
      obs[len] := o;
      len := len + 1;
    }
  }

  class Store {
    var sessions: map<string, Session>
    const limits: Limits

    /** The session objects and their arrays. */
    ghost var Repr: set<object>

    /** Different identifiers name different objects, and no two share an array. */
    ghost predicate Valid()
      reads this, Repr
    {
      && this !in Repr
      && (forall id :: id in sessions ==>
            sessions[id] in Repr && sessions[id].obs in Repr && sessions[id].id == id && sessions[id].Valid())
      && (forall i, j :: i in sessions && j in sessions && i != j ==> sessions[i].obs != sessions[j].obs)
    }

    ghost function Abs(): (r: Reg)
      requires Valid()
      reads this, Repr
      ensures r.Keys == sessions.Keys
    {
      map id | id in sessions :: sessions[id].Value()
    }

    /** A snapshot that shares nothing with the registry. */
    ghost predicate IsApart(snap: Session)
      reads this, snap
    {
      snap !in Repr && snap.obs !in Repr
    }

    constructor (ttl: int, max: int)
      ensures Valid() && Abs() == map[] && limits == Limits(ttl, max) && fresh(Repr)
    {
      sessions := map[];
      limits := Limits(ttl, max);
      Repr := {};
    }

    /** Deletes every expired session, in whatever order the map is walked. */
    method EvictExpired(now: int)
      requires Valid()
      modifies this`sessions
      ensures Valid()
      ensures forall id :: id in sessions ==> id in old(sessions) && sessions[id] == old(sessions)[id]
      ensures Abs() == Live(limits, now, old(Abs()))
    {
      assert this !in Repr;
      hide Valid, Abs, Live;
      if limits.ttl <= 0 {
        Fewer();
        return;
      }
      var todo := sessions.Keys;
      while todo != {}
        invariant todo <= old(sessions).Keys
        invariant forall id :: id in sessions <==>
                  id in old(sessions) && (id in todo || !IsExpired(limits, now, old(sessions)[id].created))
        invariant forall id :: id in sessions ==> sessions[id] == old(sessions)[id]
        decreases todo
      {
        var id :| id in todo;
        todo := todo - {id};
        if now - sessions[id].created > limits.ttl {
          sessions := sessions - {id};
        }
      }
      Fewer();
    }

    /** With some sessions taken out the others stay as they are. */
    twostate lemma Fewer()
      requires old(Valid()) && Repr == old(Repr) && unchanged(Repr)
      requires forall id :: id in sessions ==> id in old(sessions) && sessions[id] == old(sessions)[id]
      ensures Valid() && forall id :: id in sessions ==> Abs()[id] == old(Abs())[id]
      ensures forall id :: id in sessions ==> sessions[id].created == Abs()[id].created
      ensures forall id :: id in old(sessions) ==> old(sessions)[id].created == old(Abs())[id].created
    {
    }

    /** With one session written to the others stay as they are. */
    twostate lemma OneChanged(id: string)
      requires old(Valid()) && Valid() && sessions == old(sessions) && id in sessions
      requires forall k :: k in sessions && k != id ==> sessions[k].Value() == old(sessions[k].Value())
      ensures Abs() == old(Abs())[id := sessions[id].Value()]
    {
      ByValue();
      hide Session.Valid, Session.Value, Abs;
    }

    twostate lemma ByValue()
      requires old(Valid()) && Valid()
      ensures forall k :: k in sessions ==> Abs()[k] == sessions[k].Value()
      ensures forall k :: k in old(sessions) ==> old(Abs())[k] == old(sessions[k].Value())
    {
    }

    twostate lemma StillValid(id: string)
      requires old(Valid()) && this !in Repr && sessions == old(sessions) && id in sessions && sessions[id].Valid()
      requires var s := sessions[id];
               Repr == old(Repr) + {s.obs} && (s.obs == old(s.obs) || fresh(s.obs))
      requires forall k :: k in sessions && k != id ==> sessions[k].Valid() && sessions[k].obs == old(sessions[k].obs)
      ensures Valid()
    {
      hide Session.Valid;
      forall i, j | i in sessions && j in sessions && i != j ensures sessions[i].obs != sessions[j].obs {
        assert old(sessions[i].obs != sessions[j].obs);
      }
    }

    twostate lemma OthersStay(id: string)
      requires old(Valid()) && sessions == old(sessions) && id in sessions
      requires unchanged(old(Repr) - {sessions[id], old(sessions[id].obs)})
      ensures forall k :: k in sessions && k != id ==>
                && sessions[k].Valid() && sessions[k].obs == old(sessions[k].obs)
                && sessions[k].Value() == old(sessions[k].Value())
    {
      forall k | k in sessions && k != id
        ensures sessions[k].Valid() && sessions[k].obs == old(sessions[k].obs)
        ensures sessions[k].Value() == old(sessions[k].Value())
      {
        assert sessions[k].id != sessions[id].id;
        assert unchanged(sessions[k]) && unchanged(sessions[k].obs);
      }
    }

    /** Deletes an oldest session; among equally old ones the map's order decides. */
    method EvictOldest() returns (ghost victim: string)
      requires Valid()
      modifies this`sessions
      ensures Valid()
      ensures sessions == old(sessions) - {victim}
      ensures Abs() == old(Abs()) - {victim}
      ensures old(sessions) != map[] ==> IsOldest(old(Abs()), victim)
    {
      assert this !in Repr;
      hide Valid, Abs;
      var oldestId, oldestTime, first := "", 0, true;
      var todo := sessions.Keys;
      while todo != {}
        invariant todo <= sessions.Keys
        invariant first <==> todo == sessions.Keys
        invariant !first ==> oldestId in sessions && sessions[oldestId].created == oldestTime
        invariant forall id :: id in sessions && id !in todo ==> oldestTime <= sessions[id].created
        decreases todo
      {
        var id :| id in todo;
        todo := todo - {id};
        if first || sessions[id].created < oldestTime {
          oldestId, oldestTime, first := id, sessions[id].created, false;
        }
      }
      victim := oldestId;
      if !first {
        sessions := sessions - {oldestId};
      } else {
        assert sessions.Keys == {};
      }
      Fewer();
    }

    /** Records an observation; the clock's reading is a parameter. */
    method Append(session: string, o: Obs, now: int) returns (ok: bool, ghost victim: string)
      requires Valid()
      modifies this, Repr
      ensures Valid() && fresh(Repr - old(Repr))
      ensures ok == IsSessionId(session)
      ensures Abs() == AppendTo(limits, now, old(Abs()), session, o, victim)
      ensures LegalVictim(limits, now, old(Abs()), session, victim)
    {
      hide IsSessionId, MakeRoom, AddObs, IsOldest, Live, Abs, Evicts, Valid;
      victim := "";
      ok := ValidSessionId(session);
      if !ok {
        return;
      }
      if session !in sessions {
        victim := Create(session, now);
      }
      Record(session, o);
    }

    /** A new session, once there is room for it. */
    method Create(session: string, now: int) returns (ghost victim: string)
      requires Valid() && session !in sessions
      modifies this
      ensures Valid() && fresh(Repr - old(Repr)) && session in sessions
      ensures Abs() == MakeRoom(limits, now, old(Abs()), victim)[session := Entry(now, [])]
      ensures Evicts(limits, now, old(Abs())) ==> IsOldest(Live(limits, now, old(Abs())), victim)
    {
      hide MakeRoom, IsOldest, Live, Abs, Evicts, Valid;
      victim := MakeRoomFor(session, now);
      Insert(session, now);
    }

    /** Expired sessions go first; only if that is not enough, an oldest one. */
    method MakeRoomFor(session: string, now: int) returns (ghost victim: string)
      requires Valid() && session !in sessions
      modifies this`sessions
      ensures Valid() && session !in sessions
      ensures Abs() == MakeRoom(limits, now, old(Abs()), victim)
      ensures Evicts(limits, now, old(Abs())) ==> IsOldest(Live(limits, now, old(Abs())), victim)
    {
      hide Valid;
      victim := "";
      SameSize();
      if limits.max > 0 && |sessions| >= limits.max {
        EvictExpired(now);
        hide Live, IsOldest, Abs;
        SameSize();
        if |sessions| >= limits.max {
          victim := EvictOldest();
        }
      }
    }

    method Insert(session: string, now: int)
      requires Valid() && session !in sessions
      modifies this
      ensures Valid() && fresh(Repr - old(Repr)) && session in sessions
      ensures Abs() == old(Abs())[session := Entry(now, [])]
    {
      var sess := new Session(session, now);
      assert sess.Value() == Entry(now, []) && sess.obs !in Repr;
      hide Session.Valid, Session.Value;
      sessions := sessions[session := sess];
      Repr := Repr + {sess, sess.obs};
    }

    method Record(session: string, o: Obs)
      requires Valid() && session in sessions
      modifies this`Repr, Repr
      ensures Valid() && fresh(Repr - old(Repr))
      ensures Abs() == old(Abs())[session := AddObs(old(Abs())[session], o)]
    {
      var sess := sessions[session];
      if sess.len < MAX_OBS {
        assert sess in Repr && this !in Repr;
        sess.Add(o);
        Repr := Repr + {sess.obs};
        OthersStay(session);
        StillValid(session);
        hide Valid, Abs;
        OneChanged(session);
      }
    }

    lemma SameSize()
      requires Valid()
      ensures |sessions| == |Abs()|
    {
      assert |sessions.Keys| == |sessions| && |Abs().Keys| == |Abs()|;
    }

    /** A snapshot of a session that is present and not expired; an expired one is
        deleted on the way. The snapshot is an object of its own. */
    method Get(id: string, now: int) returns (snap: Option<Session>)
      requires Valid()
      modifies this`sessions
      ensures Valid()
      ensures Abs() == GetFrom(limits, now, old(Abs()), id).0
      ensures match GetFrom(limits, now, old(Abs()), id).1
              case None => snap.None?
              case Some(e) =>
                && snap.Some? && fresh(snap.value) && fresh(snap.value.obs) && IsApart(snap.value)
                && snap.value.id == id && snap.value.Valid() && snap.value.Value() == e
    {
      hide IsSessionId;
      var ok := ValidSessionId(id);
      if !ok || id !in sessions {
        return None;
      }
      var sess := sessions[id];
      if limits.ttl > 0 && now - sess.created > limits.ttl {
        sessions := sessions - {id};
        Fewer();
        assert Abs() == old(Abs()) - {id};
        return None;
      }
      var copy := new Session.Copy(sess);
      snap := Some(copy);
    }

    method Len() returns (n: nat)
      requires Valid()
      ensures n == |Abs()|
    {
      SameSize();
      n := |sessions|;
    }

    method GC(now: int)
      requires Valid()
      modifies this`sessions
      ensures Valid()
      ensures Abs() == Live(limits, now, old(Abs()))
    {
      EvictExpired(now);
    }
  }

  /** Makes one call and reports its answer. */
  method Call(store: Store, e: Runs.Event) returns (answer: seq<Runs.Answer>, ghost done: Runs.Event)
    requires store.Valid()
    modifies store, store.Repr
    ensures store.Valid() && fresh(store.Repr - old(store.Repr))
    ensures Runs.SameCall(e, done)
    ensures store.Abs() == Runs.Step(store.limits, old(store.Abs()), done)
    ensures answer == Runs.AnswerOf(store.limits, old(store.Abs()), done)
    ensures Runs.LegalEvent(store.limits, old(store.Abs()), done)
  {
    hide AppendTo, GetFrom, Live, IsSessionId, LegalVictim;
    match e.op {
      case Append(id, o, _) =>
        ghost var victim;
        var ok;
        ok, victim := store.Append(id, o, e.now);
        done := Runs.Event(e.now, Runs.Append(id, o, victim));
        answer := [Runs.Stored(ok)];
      case Get(id) =>
        var snap := store.Get(id, e.now);
        done := e;
        var found := if snap.None? then None else Some(Entry(snap.value.created, snap.value.obs[..snap.value.len]));
        answer := [Runs.Snapshot(found)];
      case Gc =>
        store.GC(e.now);
        done := e;
        answer := [];
    }
  }

  /** Any sequence of calls on the object is a run of the value model with legal
      evictions, and no call changes a snapshot handed out before. */
  method Replay(store: Store, snap: Session, evs: seq<Runs.Event>)
    returns (answers: seq<Runs.Answer>, ghost done: seq<Runs.Event>)
    requires store.Valid() && snap.Valid() && store.IsApart(snap)
    modifies store, store.Repr
    ensures store.Valid() && snap.Valid() && snap.Contents() == old(snap.Contents())
    ensures |done| == |evs| && forall i :: 0 <= i < |evs| ==> Runs.SameCall(evs[i], done[i])
    ensures store.Abs() == Runs.Run(store.limits, old(store.Abs()), done)
    ensures answers == Runs.Answers(store.limits, old(store.Abs()), done)
    ensures Runs.LegalRun(store.limits, old(store.Abs()), done)
  {
    answers, done := [], [];
    ghost var r0 := store.Abs();
    for i := 0 to |evs|
      invariant store.Valid()
      invariant fresh(store.Repr - old(store.Repr))
      invariant snap.Valid() && snap.Contents() == old(snap.Contents()) && store.IsApart(snap)
      invariant |done| == i && forall j :: 0 <= j < i ==> Runs.SameCall(evs[j], done[j])
      invariant store.Abs() == Runs.Run(store.limits, r0, done)
      invariant answers == Runs.Answers(store.limits, r0, done)
      invariant Runs.LegalRun(store.limits, r0, done)
    {
      hide Runs.Run, Runs.Answers, Runs.LegalRun, Runs.SameCall, Runs.Step, Runs.AnswerOf, Runs.LegalEvent;
      var answer;
      ghost var d;
      answer, d := Call(store, evs[i]);
      Runs.RunSnoc(store.limits, r0, done, d);
      answers := answers + answer;
      done := done + [d];
    }
  }
}
