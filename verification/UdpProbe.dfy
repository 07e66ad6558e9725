/** What the probe does with one datagram: decode, limit, record, reply. */
module UdpProbe {
  import opened Options
  import opened Proto
  import opened Registry
  import opened UdpPayload
  import Runs = RegistryRuns
  import S = Store

  datatype Addr = Addr(ip: string, port: int)

  /** The two sockets datagrams arrive at. */
  datatype Socket = UdpSocket | NatSocket

  datatype Config = Config(udpPort: int, natPort: int, maxUdp: int, maxUdpPmtu: int, secondIp: bool) {
    function PortOf(s: Socket): int {
      if s.UdpSocket? then udpPort else natPort
    }
  }

  /** The observation to record and the socket to reply from. */
  datatype Reaction = Reaction(obs: Obs, replier: Socket)

  function MaxFor(cfg: Config, kind: string): int {
    if kind == "pmtu" then cfg.maxUdpPmtu else cfg.maxUdp
  }

  /** The replier of each known kind, and where its reply comes from as seen from the
      arrival port. */
  function ReplierOf(cfg: Config, kind: string, arrival: Socket): Option<(Socket, string)> {
    if kind == "echo" || kind == "reach" || kind == "pmtu" then Some((arrival, "same"))
    else if kind == "nat" then
      Some((NatSocket,
            if cfg.secondIp then "other-ip"
            else if cfg.natPort != cfg.PortOf(arrival) then "other-port" else "same"))
    else None
  }

  /** None stands for a datagram that is dropped without a trace. */
  function React(cfg: Config, payload: string, src: Addr, arrival: Socket): Option<Reaction> {
    var (session, kind) :- ParseUdpPayload(payload);
    if |payload| > MaxFor(cfg, kind) then None
    else
      var (replier, replyFrom) :- ReplierOf(cfg, kind, arrival);
      Some(Reaction(
             Obs(Udp, session, src.ip, src.port, cfg.PortOf(arrival),
                 Some(UdpObs(kind, replyFrom, |payload|)), None),
             replier))
  }

  /** Which datagrams are answered, from where, and what is recorded of them, for every
      configuration. The place a reply comes from is told as seen from the arrival port. */
  lemma ReactExactly(cfg: Config, payload: string, src: Addr, arrival: Socket)
    ensures React(cfg, payload, src, arrival).Some? <==>
            && ParseUdpPayload(payload).Some?
            && var kind := ParseUdpPayload(payload).value.1;
               || (kind in {"echo", "reach", "nat"} && |payload| <= cfg.maxUdp)
               || (kind == "pmtu" && |payload| <= cfg.maxUdpPmtu)
    ensures React(cfg, payload, src, arrival).Some? ==>
            var (id, kind) := ParseUdpPayload(payload).value;
            var r := React(cfg, payload, src, arrival).value;
            var port := if arrival == UdpSocket then cfg.udpPort else cfg.natPort;
            && r.replier == (if kind == "nat" then NatSocket else arrival)
            && r.obs.kind == Udp && r.obs.session == id && r.obs.udp.Some? && r.obs.tls.None?
            && r.obs.srcIp == src.ip && r.obs.srcPort == src.port && r.obs.dstPort == port
            && r.obs.udp.value.kind == kind && r.obs.udp.value.payloadLen == |payload|
            && (r.obs.udp.value.replyFrom == "other-ip" <==> kind == "nat" && cfg.secondIp)
            && (r.obs.udp.value.replyFrom == "other-port" <==> kind == "nat" && !cfg.secondIp && cfg.natPort != port)
            && (r.obs.udp.value.replyFrom == "same" <==> kind != "nat" || (!cfg.secondIp && cfg.natPort == port))
  {
    hide ParseUdpPayload;
    assert |"same"| == 4 && |"other-ip"| == 8 && |"other-port"| == 10;
  }

  /** The reply carries the datagram's own bytes back to its source. */
  datatype Reply = Reply(from: Socket, to: Addr, payload: string)

  method HandleUdpArrival(cfg: Config, store: S.Store, payload: string, src: Addr, arrival: Socket, now: int)
    returns (reply: Option<Reply>, ghost victim: string)
    requires store.Valid()
    modifies store, store.Repr
    ensures store.Valid() && fresh(store.Repr - old(store.Repr))
    ensures match React(cfg, payload, src, arrival)
            case None => reply.None? && store.Abs() == old(store.Abs())
            case Some(r) =>
              && reply == Some(Reply(r.replier, src, payload))
              && store.Abs() == AppendTo(store.limits, now, old(store.Abs()), r.obs.session, r.obs, victim)
              && LegalVictim(store.limits, now, old(store.Abs()), r.obs.session, victim)
    ensures reply.Some? <==>
            && ParseUdpPayload(payload).Some?
            && var kind := ParseUdpPayload(payload).value.1;
               || (kind in {"echo", "reach", "nat"} && |payload| <= cfg.maxUdp)
               || (kind == "pmtu" && |payload| <= cfg.maxUdpPmtu)
    ensures reply.Some? ==>
            && reply.value.payload == payload && reply.value.to == src
            && reply.value.from == (if ParseUdpPayload(payload).value.1 == "nat" then NatSocket else arrival)
  {
    ReactExactly(cfg, payload, src, arrival);
    hide ParseUdpPayload, AppendTo, LegalVictim;
    victim := "";
    var parsed := ParseUdpPayload(payload);
    if parsed.None? {
      return None, "";
    }
    var (session, kind) := parsed.value;
    var arrivalPort := cfg.PortOf(arrival);
    var max := cfg.maxUdp;
    if kind == "pmtu" {
      max := cfg.maxUdpPmtu;
    }
    if |payload| > max {
      return None, "";
    }
    var replier: Socket;
    var replyFrom: string;
    if kind == "echo" || kind == "reach" || kind == "pmtu" {
      replier, replyFrom := arrival, "same";
    } else if kind == "nat" {
      replier := NatSocket;
      if cfg.secondIp {
        replyFrom := "other-ip";
      } else if cfg.PortOf(replier) != arrivalPort {
        replyFrom := "other-port";
      } else {
        replyFrom := "same";
      }
    } else {
      return None, "";
    }
    var obs := Obs(Udp, session, src.ip, src.port, arrivalPort, Some(UdpObs(kind, replyFrom, |payload|)), None);
    var _, v := store.Append(session, obs, now);
    victim := v;
    reply := Some(Reply(replier, src, payload));
  }

  // ----- the read loop --------------------------------------------------------------------

  /** One read from the socket; a failed one carries nothing. */
  datatype Packet = Failed | Packet(payload: string, src: Addr, now: int)

  predicate IsHandled(cfg: Config, arrival: Socket, p: Packet) {
    p.Packet? && p.payload != "" && React(cfg, p.payload, p.src, arrival).Some?
  }

  function ReplyTo(cfg: Config, arrival: Socket, p: Packet): seq<Reply> {
    if IsHandled(cfg, arrival, p)
    then [Reply(React(cfg, p.payload, p.src, arrival).value.replier, p.src, p.payload)] else []
  }

  /** The append a read makes, the evicted session aside. */
  function AppendFor(cfg: Config, arrival: Socket, p: Packet): seq<Runs.Event> {
    if IsHandled(cfg, arrival, p)
    then var o := React(cfg, p.payload, p.src, arrival).value.obs; [Runs.Event(p.now, Runs.Append(o.session, o, ""))]
    else []
  }

  function RepliesTo(cfg: Config, arrival: Socket, ps: seq<Packet>): seq<Reply> {
    if ps == [] then [] else RepliesTo(cfg, arrival, ps[..|ps| - 1]) + ReplyTo(cfg, arrival, ps[|ps| - 1])
  }

  function AppendsFor(cfg: Config, arrival: Socket, ps: seq<Packet>): seq<Runs.Event> {
    if ps == [] then [] else AppendsFor(cfg, arrival, ps[..|ps| - 1]) + AppendFor(cfg, arrival, ps[|ps| - 1])
  }

  lemma SameCallsConcat(e1: seq<Runs.Event>, d1: seq<Runs.Event>, e2: seq<Runs.Event>, d2: seq<Runs.Event>)
    requires Runs.SameCalls(e1, d1) && Runs.SameCalls(e2, d2)
    ensures Runs.SameCalls(e1 + e2, d1 + d2)
  {
  }

  lemma OneCall(l: Limits, r: Reg, e: Runs.Event)
    ensures Runs.Run(l, r, [e]) == Runs.Step(l, r, e)
    ensures Runs.LegalRun(l, r, [e]) <==> Runs.LegalEvent(l, r, e)
  {
    assert [e][1..] == [];
  }

  /** One turn of the read loop. */
  method ServeOne(cfg: Config, store: S.Store, arrival: Socket, p: Packet)
    returns (replies: seq<Reply>, ghost done: seq<Runs.Event>)
    requires store.Valid()
    modifies store, store.Repr
    ensures store.Valid() && fresh(store.Repr - old(store.Repr))
    ensures replies == ReplyTo(cfg, arrival, p)
    ensures Runs.SameCalls(AppendFor(cfg, arrival, p), done)
    ensures store.Abs() == Runs.Run(store.limits, old(store.Abs()), done)
    ensures Runs.LegalRun(store.limits, old(store.Abs()), done)
  {
    hide React, AppendTo, LegalVictim;
    replies, done := [], [];
    if p.Failed? || p.payload == "" {
      return;
    }
    var reply;
    ghost var victim;
    reply, victim := HandleUdpArrival(cfg, store, p.payload, p.src, arrival, p.now);
    if reply.Some? {
      replies := [reply.value];
      ghost var o := React(cfg, p.payload, p.src, arrival).value.obs;
      done := [Runs.Event(p.now, Runs.Append(o.session, o, victim))];
      OneCall(store.limits, old(store.Abs()), done[0]);
    }
  }

  /** Reads until the socket closes: the replies sent are those of the datagrams read, in
      order, and the registry has run exactly their appends. */
  method ServeUdp(cfg: Config, store: S.Store, arrival: Socket, ps: seq<Packet>)
    returns (replies: seq<Reply>, ghost done: seq<Runs.Event>)
    requires store.Valid()
    modifies store, store.Repr
    ensures store.Valid()
    ensures replies == RepliesTo(cfg, arrival, ps)
    ensures Runs.SameCalls(AppendsFor(cfg, arrival, ps), done)
    ensures store.Abs() == Runs.Run(store.limits, old(store.Abs()), done)
    ensures Runs.LegalRun(store.limits, old(store.Abs()), done)
  {
    replies, done := [], [];
    ghost var r0 := store.Abs();
    for i := 0 to |ps|
      invariant store.Valid()
      invariant fresh(store.Repr - old(store.Repr))
      invariant replies == RepliesTo(cfg, arrival, ps[..i])
      invariant Runs.SameCalls(AppendsFor(cfg, arrival, ps[..i]), done)
      invariant store.Abs() == Runs.Run(store.limits, r0, done)
      invariant Runs.LegalRun(store.limits, r0, done)
    {
      hide Runs.Run, Runs.LegalRun, ReplyTo, AppendFor, Runs.SameCalls;
      assert ps[..i + 1][..i] == ps[..i];
      var more;
      ghost var d;
      more, d := ServeOne(cfg, store, arrival, ps[i]);
      Runs.RunConcat(store.limits, r0, done, d);
      SameCallsConcat(AppendsFor(cfg, arrival, ps[..i]), done, AppendFor(cfg, arrival, ps[i]), d);
      replies := replies + more;
      done := done + d;
    }
    assert ps[..|ps|] == ps;
  }
}
