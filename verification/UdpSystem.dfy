/** Client, translator, network, probe and registry as one step system. Steps of other
    clients and other channels interleave freely; the network loses and duplicates. */
module UdpSystem {
  import opened Options
  import opened Proto
  import opened SessionId
  import opened Registry
  import opened UdpPayload
  import opened UdpProbe
  import opened NatBox
  import Runs = RegistryRuns

  /** A probe on one IP address. */
  datatype World = World(cfg: Config, probeIp: string, limits: Limits) {
    function AddrOf(s: Socket): Addr {
      Addr(probeIp, cfg.PortOf(s))
    }
  }

  /** A datagram behind the translator. */
  datatype Dgram = Dgram(src: Addr, arrival: Socket, payload: string)

  /** A datagram that was recorded, and what its session held right afterwards. */
  datatype Arrival = Arrival(d: Dgram, obs: Obs, held: seq<Obs>)

  datatype Sys = Sys(
    box: Nat,
    reg: Reg,
    sent: seq<Dgram>,
    toProbe: multiset<Dgram>,
    log: seq<Arrival>,
    owed: multiset<Reply>,
    inFlight: multiset<Reply>,
    received: multiset<Reply>)

  datatype Act =
    | Send(local: Addr, arrival: Socket, payload: string, ext: Addr)
    | Lose(d: Dgram)
    | Duplicate(d: Dgram)
    | Arrive(d: Dgram, now: int, victim: string)
    | Emit(m: Reply)
    | LoseReply(m: Reply)
    | DuplicateReply(m: Reply)
    | Deliver(m: Reply)
    | Read(m: Reply)
    | Other(e: Runs.Event)

  function ReactTo(w: World, d: Dgram): Option<Reaction> {
    React(w.cfg, d.payload, d.src, d.arrival)
  }

  function SentBy(w: World, s: Sys, a: Act): Dgram
    requires a.Send?
  {
    var src := MappedTo(Translate(s.box, a.local, w.AddrOf(a.arrival), a.ext), a.local, w.AddrOf(a.arrival));
    Dgram(if src.Some? then src.value else a.ext, a.arrival, a.payload)
  }

  /** The session still has room for an observation. */
  predicate HasRoom(r: Reg, id: string) {
    id in r ==> |r[id].obs| < MAX_OBS
  }

  /** The probe handles a datagram: it records first, and only then owes a reply. */
  function ArriveStep(w: World, s: Sys, d: Dgram, now: int, victim: string): Sys {
    var s' := s.(toProbe := s.toProbe - multiset{d});
    match ReactTo(w, d)
    case None => s'
    case Some(r) =>
      var reg := AppendTo(w.limits, now, s.reg, r.obs.session, r.obs, victim);
      s'.(reg := reg,
          log := s.log + [Arrival(d, r.obs, ObsOf(reg, r.obs.session))],
          owed := s.owed + multiset{Reply(r.replier, d.src, d.payload)})
  }

  /** A step that is not enabled changes nothing. */
  function Step(w: World, s: Sys, a: Act): Sys {
    match a
    case Send(local, arrival, payload, ext) =>
      var d := SentBy(w, s, a);
      s.(box := Translate(s.box, local, w.AddrOf(arrival), ext),
         sent := s.sent + [d], toProbe := s.toProbe + multiset{d})
    case Lose(d) => s.(toProbe := s.toProbe - multiset{d})
    case Duplicate(d) => if d in s.toProbe then s.(toProbe := s.toProbe + multiset{d}) else s
    case Arrive(d, now, victim) => if d in s.toProbe then ArriveStep(w, s, d, now, victim) else s
    case Emit(m) =>
      if m in s.owed then s.(owed := s.owed - multiset{m}, inFlight := s.inFlight + multiset{m}) else s
    case LoseReply(m) => s.(inFlight := s.inFlight - multiset{m})
    case DuplicateReply(m) => if m in s.inFlight then s.(inFlight := s.inFlight + multiset{m}) else s
    case Deliver(m) =>
      if m in s.inFlight then s.(inFlight := s.inFlight - multiset{m}, received := s.received + multiset{m}) else s
    case Read(m) => s.(received := s.received - multiset{m})
    case Other(e) => s.(reg := Runs.Step(w.limits, s.reg, e))
  }

  function After(w: World, s: Sys, acts: seq<Act>): Sys {
    if acts == [] then s else Step(w, After(w, s, acts[..|acts| - 1]), acts[|acts| - 1])
  }

  function Init(box: Nat, reg: Reg): Sys {
    Sys(box, reg, [], multiset{}, [], multiset{}, multiset{}, multiset{})
  }

  // ----- reply implies recorded -----------------------------------------------------------

  /** `m` is the reply to a recorded datagram: the same bytes, back to its source. */
  ghost predicate IsReplyTo(w: World, m: Reply, x: Arrival) {
    ReactTo(w, x.d) == Some(Reaction(x.obs, m.from)) && m.to == x.d.src && m.payload == x.d.payload
  }

  ghost predicate Recorded(w: World, s: Sys, m: Reply) {
    exists k :: 0 <= k < |s.log| && IsReplyTo(w, m, s.log[k])
  }

  /** The observation is the one due, and the session's newest unless it was full. */
  predicate RecordFits(w: World, x: Arrival) {
    && ReactTo(w, x.d).Some? && ReactTo(w, x.d).value.obs == x.obs
    && x.held != [] && (x.held[|x.held| - 1] == x.obs || |x.held| >= MAX_OBS)
  }

  /** A full session stays as it is. */
  lemma FullStaysFull(l: Limits, now: int, r: Reg, o: Obs, victim: string)
    requires !HasRoom(r, o.session)
    ensures ObsOf(AppendTo(l, now, r, o.session, o, victim), o.session) == r[o.session].obs
  {
  }

  predicate Outstanding(s: Sys, m: Reply) {
    m in s.owed || m in s.inFlight || m in s.received
  }

  ghost predicate Inv(w: World, s: Sys) {
    && (forall m :: Outstanding(s, m) ==> Recorded(w, s, m))
    && (forall d :: d in s.toProbe ==> d in s.sent)
    && (forall k :: 0 <= k < |s.log| ==> s.log[k].d in s.sent && RecordFits(w, s.log[k]))
  }

  lemma RecordedStays(w: World, s: Sys, s': Sys, m: Reply)
    requires Recorded(w, s, m) && s.log <= s'.log
    ensures Recorded(w, s', m)
  {
    var k :| 0 <= k < |s.log| && IsReplyTo(w, m, s.log[k]);
    assert s'.log[k] == s.log[k];
  }

  lemma ArrivalFits(w: World, s: Sys, d: Dgram, now: int, victim: string)
    requires ReactTo(w, d).Some?
    ensures var log := ArriveStep(w, s, d, now, victim).log;
            && log == s.log + [log[|s.log|]] && log[|s.log|].d == d && RecordFits(w, log[|s.log|])
  {
    if HasRoom(s.reg, ReactTo(w, d).value.obs.session) {
      ArrivalIsStored(w, s, d, now, victim);
    } else {
      FullStaysFull(w.limits, now, s.reg, ReactTo(w, d).value.obs, victim);
    }
    hide React, AppendTo;
  }

  lemma ArriveKeepsReplies(w: World, s: Sys, d: Dgram, now: int, victim: string, m: Reply)
    requires Outstanding(s, m) ==> Recorded(w, s, m)
    requires Outstanding(ArriveStep(w, s, d, now, victim), m)
    ensures Recorded(w, ArriveStep(w, s, d, now, victim), m)
  {
    hide React, AppendTo, ObsOf;
    var s' := ArriveStep(w, s, d, now, victim);
    if Outstanding(s, m) {
      RecordedStays(w, s, s', m);
    } else {
      assert IsReplyTo(w, m, s'.log[|s.log|]);
    }
  }

  lemma ArriveKeepsInv(w: World, s: Sys, d: Dgram, now: int, victim: string)
    requires Inv(w, s) && d in s.toProbe
    ensures Inv(w, ArriveStep(w, s, d, now, victim))
  {
    if ReactTo(w, d).Some? {
      ArrivalFits(w, s, d, now, victim);
    }
    hide React, AppendTo, ObsOf, RecordFits, Outstanding, Recorded;
    var s' := ArriveStep(w, s, d, now, victim);
    forall m | Outstanding(s', m) ensures Recorded(w, s', m) {
      ArriveKeepsReplies(w, s, d, now, victim, m);
    }
  }

  predicate Handles(s: Sys, a: Act) {
    a.Arrive? && a.d in s.toProbe
  }

  /** Every other step only moves replies on, loses or repeats them. */
  lemma OtherSteps(w: World, s: Sys, a: Act)
    requires !Handles(s, a)
    ensures var s' := Step(w, s, a);
            && s'.log == s.log && s.sent <= s'.sent
            && (forall m :: Outstanding(s', m) ==> Outstanding(s, m))
            && (forall d :: d in s'.toProbe ==> d in s.toProbe || (a.Send? && d == SentBy(w, s, a) && d in s'.sent))
  {
    hide Runs.Step, Translate, MappedTo;
  }

  lemma StepKeepsInv(w: World, s: Sys, a: Act)
    requires Inv(w, s)
    ensures Inv(w, Step(w, s, a))
  {
    if Handles(s, a) {
      ArriveKeepsInv(w, s, a.d, a.now, a.victim);
    } else {
      var s' := Step(w, s, a);
      OtherSteps(w, s, a);
      hide Step, Outstanding, RecordFits;
      forall m | Outstanding(s', m) ensures Recorded(w, s', m) {
        RecordedStays(w, s, s', m);
      }
    }
  }

  /** In every reachable state, each reply that is owed, in flight or received is the
      answer to a datagram that was sent with exactly its bytes and has been recorded. */
  lemma {:induction false} ReplyImpliesRecorded(w: World, box: Nat, reg: Reg, acts: seq<Act>)
    ensures Inv(w, After(w, Init(box, reg), acts))
  {
    if acts != [] {
      ReplyImpliesRecorded(w, box, reg, acts[..|acts| - 1]);
      hide Step, Inv;
      StepKeepsInv(w, After(w, Init(box, reg), acts[..|acts| - 1]), acts[|acts| - 1]);
    }
  }

  /** And it comes from the right socket: one of kind nat from the NAT socket, any other from the
      very socket at which the datagram it answers arrived. */
  lemma RepliesComeFromTheirSocket(w: World, box: Nat, reg: Reg, acts: seq<Act>, m: Reply)
    requires Outstanding(After(w, Init(box, reg), acts), m)
    ensures var s := After(w, Init(box, reg), acts);
            && ParseUdpPayload(m.payload).Some?
            && var kind := ParseUdpPayload(m.payload).value.1;
               if kind == "nat" then m.from == NatSocket
               else kind in {"echo", "reach", "pmtu"}
                    && exists d :: d in s.sent && d.payload == m.payload && d.src == m.to && d.arrival == m.from
  {
    var s := After(w, Init(box, reg), acts);
    ReplyImpliesRecorded(w, box, reg, acts);
    var k :| 0 <= k < |s.log| && IsReplyTo(w, m, s.log[k]);
    var d := s.log[k].d;
    assert d in s.sent;
    hide After, React, ParseUdpPayload;
    ReactExactly(w.cfg, d.payload, d.src, d.arrival);
  }

  /** What was recorded: the datagram's session, kind, size, source and arrival port. */
  lemma RecordDescribesDatagram(w: World, d: Dgram)
    requires ReactTo(w, d).Some?
    ensures var o := ReactTo(w, d).value.obs;
            && o.udp.Some? && ParseUdpPayload(d.payload) == Some((o.session, o.udp.value.kind))
            && o.kind.Udp? && Addr(o.srcIp, o.srcPort) == d.src && o.dstPort == w.cfg.PortOf(d.arrival)
            && o.udp.value.payloadLen == |d.payload|
  {
  }

  /** An arrival with room is the last observation its session holds. */
  lemma ArrivalIsStored(w: World, s: Sys, d: Dgram, now: int, victim: string)
    requires ReactTo(w, d).Some? && HasRoom(s.reg, ReactTo(w, d).value.obs.session)
    ensures var o := ReactTo(w, d).value.obs;
            var s' := ArriveStep(w, s, d, now, victim);
            && o.session in s'.reg
            && s'.reg[o.session].obs == (if o.session in s.reg then s.reg[o.session].obs else []) + [o]
  {
    RecordDescribesDatagram(w, d);
  }

  // ----- one send and its measurement window ----------------------------------------------

  function SessionIn(payload: string): Option<string> {
    match ParseUdpPayload(payload) case None => None case Some((id, _)) => Some(id)
  }

  function ObsOf(r: Reg, id: string): seq<Obs> {
    if id in r then r[id].obs else []
  }

  /** Earlier datagrams of the session and their replies have arrived or are lost, and no
      reply is left unread. */
  ghost predicate Quiet(s: Sys, id: string) {
    && (forall d :: d in s.toProbe ==> SessionIn(d.payload) != Some(id))
    && (forall m :: Outstanding(s, m) ==> SessionIn(m.payload) != Some(id))
  }

  /** During the window the session sends nothing else, only other channels append to it,
      it stays in the registry once there, and it is under its cap. */
  predicate Undisturbed(w: World, s: Sys, a: Act, id: string) {
    && (a.Send? ==> SessionIn(a.payload) != Some(id))
    && (a.Other? && a.e.op.Append? && a.e.op.id == id ==> !a.e.op.obs.kind.Udp?)
    && (id in s.reg ==> id in Step(w, s, a).reg)
    && HasRoom(s.reg, id)
  }

  ghost predicate UndisturbedRun(w: World, s: Sys, acts: seq<Act>, id: string) {
    forall k :: 0 <= k < |acts| ==> Undisturbed(w, After(w, s, acts[..k]), acts[k], id)
  }

  /** An observation made since `before` is either from another channel or of `own`. */
  ghost predicate IsOwnOrOther(w: World, own: Dgram, o: Obs) {
    o.kind.Udp? ==> ReactTo(w, own).Some? && o == ReactTo(w, own).value.obs
  }

  /** `own` has been recorded since `before`. */
  ghost predicate OwnRecorded(w: World, obs: seq<Obs>, before: seq<Obs>, own: Dgram) {
    ReactTo(w, own).Some? && exists i :: |before| <= i < |obs| && obs[i] == ReactTo(w, own).value.obs
  }

  ghost predicate ObsWindow(w: World, obs: seq<Obs>, before: seq<Obs>, own: Dgram) {
    before <= obs && forall i :: |before| <= i < |obs| ==> IsOwnOrOther(w, own, obs[i])
  }

  ghost predicate Window(w: World, s: Sys, id: string, before: seq<Obs>, own: Dgram) {
    && ObsWindow(w, ObsOf(s.reg, id), before, own)
    && (forall d :: d in s.toProbe && SessionIn(d.payload) == Some(id) ==> d == own)
    && (forall m :: Outstanding(s, m) && SessionIn(m.payload) == Some(id) ==>
          OwnRecorded(w, ObsOf(s.reg, id), before, own))
  }

  lemma ObsWindowMore(w: World, obs: seq<Obs>, before: seq<Obs>, own: Dgram, o: Obs)
    requires ObsWindow(w, obs, before, own) && IsOwnOrOther(w, own, o)
    ensures ObsWindow(w, obs + [o], before, own)
    ensures OwnRecorded(w, obs, before, own) ==> OwnRecorded(w, obs + [o], before, own)
    ensures ReactTo(w, own).Some? && o == ReactTo(w, own).value.obs ==> OwnRecorded(w, obs + [o], before, own)
  {
    hide ReactTo;
    var obs' := obs + [o];
    assert forall i :: 0 <= i < |obs| ==> obs'[i] == obs[i];
    assert obs'[|obs|] == o;
  }

  /** A registry call leaves a session alone, removes it, or appends to it. */
  lemma CallOnOthers(l: Limits, r: Reg, e: Runs.Event, id: string)
    requires id in r ==> id in Runs.Step(l, r, e)
    requires HasRoom(r, id)
    ensures var obs, obs' := ObsOf(r, id), ObsOf(Runs.Step(l, r, e), id);
            if e.op.Append? && e.op.id == id && IsSessionId(id) then obs' == obs + [e.op.obs] else obs' == obs
  {
  }

  /** The step handles a datagram of the session that gets recorded. */
  predicate Records(w: World, s: Sys, a: Act, id: string) {
    Handles(s, a) && SessionIn(a.d.payload) == Some(id) && ReactTo(w, a.d).Some?
  }

  /** What a step does to the session's observations inside a window. */
  lemma StepObs(w: World, s: Sys, a: Act, id: string, before: seq<Obs>, own: Dgram)
    requires Window(w, s, id, before, own) && Undisturbed(w, s, a, id)
    ensures var obs, obs' := ObsOf(s.reg, id), ObsOf(Step(w, s, a).reg, id);
            if Records(w, s, a, id) then ReactTo(w, own).Some? && obs' == obs + [ReactTo(w, own).value.obs]
            else obs' == obs || (|obs'| == |obs| + 1 && obs' == obs + [obs'[|obs|]] && !obs'[|obs|].kind.Udp?)
  {
    hide AppendTo, GetFrom, Live, React, ParseUdpPayload, Translate;
    if Handles(s, a) && ReactTo(w, a.d).Some? {
      var o := ReactTo(w, a.d).value.obs;
      var e := Runs.Event(a.now, Runs.Append(o.session, o, a.victim));
      assert Step(w, s, a).reg == Runs.Step(w.limits, s.reg, e);
      CallOnOthers(w.limits, s.reg, e, id);
      RecordedSessionIsValid(w, a.d);
    } else if a.Other? {
      CallOnOthers(w.limits, s.reg, a.e, id);
    }
  }

  lemma RecordedSessionIsValid(w: World, d: Dgram)
    requires ReactTo(w, d).Some?
    ensures IsSessionId(ReactTo(w, d).value.obs.session)
    ensures SessionIn(d.payload) == Some(ReactTo(w, d).value.obs.session)
  {
  }

  lemma WindowStep(w: World, s: Sys, a: Act, id: string, before: seq<Obs>, own: Dgram)
    requires Window(w, s, id, before, own) && Undisturbed(w, s, a, id)
    ensures Window(w, Step(w, s, a), id, before, own)
  {
    var s' := Step(w, s, a);
    var obs, obs' := ObsOf(s.reg, id), ObsOf(s'.reg, id);
    StepObs(w, s, a, id, before, own);
    StepTraffic(w, s, a, id);
    hide Step, React, ReactTo, Undisturbed, Outstanding, Handles;
    if obs' != obs {
      ObsWindowMore(w, obs, before, own, obs'[|obs|]);
    }
  }

  /** What has been recorded since the window opened stays recorded. */
  lemma StaysRecorded(w: World, s: Sys, a: Act, id: string, before: seq<Obs>, own: Dgram)
    requires Window(w, s, id, before, own) && Undisturbed(w, s, a, id)
    requires OwnRecorded(w, ObsOf(s.reg, id), before, own)
    ensures OwnRecorded(w, ObsOf(Step(w, s, a).reg, id), before, own)
  {
    StepObs(w, s, a, id, before, own);
    hide Step, React, ReactTo, Undisturbed, Window;
    var obs, obs' := ObsOf(s.reg, id), ObsOf(Step(w, s, a).reg, id);
    var i :| |before| <= i < |obs| && obs[i] == ReactTo(w, own).value.obs;
    assert obs'[i] == obs[i];
  }

  /** New traffic of the session only comes from handling one of its datagrams. */
  lemma StepTraffic(w: World, s: Sys, a: Act, id: string)
    requires Undisturbed(w, s, a, id)
    ensures var s' := Step(w, s, a);
            && (forall d :: d in s'.toProbe && SessionIn(d.payload) == Some(id) ==> d in s.toProbe)
            && (forall m :: Outstanding(s', m) && SessionIn(m.payload) == Some(id) ==>
                  Outstanding(s, m) || Records(w, s, a, id))
  {
    hide SessionIn, React, AppendTo;
    if !Handles(s, a) {
      OtherSteps(w, s, a);
    }
  }
}
