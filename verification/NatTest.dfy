/** The client's NAT test: sends, the backward scan of the pulled history, the fixed
    sequence of measurements, and the verdict drawn from them. */
module NatTest {
  import opened Options
  import opened Proto
  import opened SessionId
  import opened Registry
  import opened UdpPayload
  import opened UdpProbe
  import opened NatBox
  import opened UdpSystem

  // ----- the scan ---------------------------------------------------------------------------

  predicate Matches(o: Obs, port: int, kind: string) {
    o.kind.Udp? && o.dstPort == port && o.udp.Some? && o.udp.value.kind == kind
  }

  /** Where the newest observation of that kind at that port stands, or -1. */
  function LastIndex(obs: seq<Obs>, port: int, kind: string): (i: int)
    ensures -1 <= i < |obs|
  {
    if obs == [] then -1
    else if Matches(obs[|obs| - 1], port, kind) then |obs| - 1
    else LastIndex(obs[..|obs| - 1], port, kind)
  }

  /** It is a match, and nothing behind it is. */
  lemma {:induction false} LastIndexIsLast(obs: seq<Obs>, port: int, kind: string)
    ensures var i := LastIndex(obs, port, kind);
            && (i >= 0 ==> Matches(obs[i], port, kind))
            && forall j :: i < j < |obs| ==> !Matches(obs[j], port, kind)
  {
    hide Matches;
    if obs != [] {
      var init := obs[..|obs| - 1];
      LastIndexIsLast(init, port, kind);
      assert forall j :: 0 <= j < |init| ==> init[j] == obs[j];
    }
  }

  function LastMatch(obs: seq<Obs>, port: int, kind: string): Option<Obs> {
    var i := LastIndex(obs, port, kind);
    if i < 0 then None else Some(obs[i])
  }

  /** What one exchange shows the client: whether the write went out, whether any datagram
      could be read in time, and the history pulled afterwards. */
  datatype Trial = Trial(wrote: bool, received: bool, pulled: Option<seq<Obs>>)

  datatype Sighting = Sighting(src: Addr, replyFrom: string, received: bool)

  function Sighted(t: Trial, port: int, kind: string): Option<Sighting> {
    if !t.wrote || t.pulled.None? then None
    else match LastMatch(t.pulled.value, port, kind)
         case None => None
         case Some(o) =>
           Some(Sighting(Addr(o.srcIp, o.srcPort), if o.udp.Some? then o.udp.value.replyFrom else "", t.received))
  }

  /** It fails unless the write went out, the history could be pulled, and some observation
      in it is a UDP one at that port and of that kind; else it gives the source and the
      reply's origin of the newest such observation. */
  method Send(t: Trial, port: int, kind: string) returns (r: Option<Sighting>)
    ensures r == Sighted(t, port, kind)
    ensures r.Some? <==>
            && t.wrote && t.pulled.Some?
            && var obs := t.pulled.value;
               exists i ::
                 && 0 <= i < |obs|
                 && obs[i].kind == Udp && obs[i].dstPort == port && obs[i].udp.Some? && obs[i].udp.value.kind == kind
    ensures r.Some? ==>
            var obs := t.pulled.value;
            exists i ::
              && 0 <= i < |obs|
              && obs[i].kind == Udp && obs[i].dstPort == port && obs[i].udp.Some? && obs[i].udp.value.kind == kind
              && r.value.src.ip == obs[i].srcIp && r.value.src.port == obs[i].srcPort
              && r.value.replyFrom == obs[i].udp.value.replyFrom && r.value.received == t.received
              && forall j :: i < j < |obs| ==>
                   !(obs[j].kind == Udp && obs[j].dstPort == port && obs[j].udp.Some? && obs[j].udp.value.kind == kind)
  {
    if t.pulled.Some? {
      LastIndexIsLast(t.pulled.value, port, kind);
    }
    if !t.wrote {
      return None;
    }
    var received := false;
    if t.received {
      received := true;
    }
    if t.pulled.None? {
      return None;
    }
    var obs := t.pulled.value;
    var i := |obs| - 1;
    assert obs[..|obs|] == obs;
    while i >= 0
      invariant -1 <= i < |obs|
      invariant LastIndex(obs, port, kind) == LastIndex(obs[..i + 1], port, kind)
    {
      var o := obs[i];
      assert obs[..i + 1][..i] == obs[..i];
      if o.kind == Udp && o.dstPort == port && o.udp.Some? && o.udp.value.kind == kind {
        return Some(Sighting(Addr(o.srcIp, o.srcPort), o.udp.value.replyFrom, received));
      }
      i := i - 1;
    }
    return None;
  }

  // ----- the verdict --------------------------------------------------------------------------

  datatype Label = Direct | Symmetric | AddressRestricted | OpenCone | PortRestricted

  /** High confidence goes with an empty premise. */
  datatype Judgment = Judgment(verdict: Label, high: bool)

  function NatJudgment(localIp: string, observedIp: string, p1: int, p2: int, r3: bool, secondIp: bool, r4: bool)
    : Judgment
  {
    if observedIp == localIp then Judgment(Direct, true)
    else if p1 != p2 then Judgment(Symmetric, false)
    else if r3 then
      if secondIp && !r4 then Judgment(AddressRestricted, false) else Judgment(OpenCone, false)
    else Judgment(PortRestricted, false)
  }

  /** Which label is given when. */
  lemma JudgmentExactly(localIp: string, observedIp: string, p1: int, p2: int, r3: bool, secondIp: bool, r4: bool)
    ensures var j := NatJudgment(localIp, observedIp, p1, p2, r3, secondIp, r4);
            && (j.verdict == Direct <==> observedIp == localIp)
            && (j.verdict == Symmetric <==> observedIp != localIp && p1 != p2)
            && (j.verdict == PortRestricted <==> observedIp != localIp && p1 == p2 && !r3)
            && (j.verdict == AddressRestricted <==> observedIp != localIp && p1 == p2 && r3 && secondIp && !r4)
            && (j.verdict == OpenCone <==> observedIp != localIp && p1 == p2 && r3 && (secondIp ==> r4))
            && (j.high <==> observedIp == localIp)
  {
  }

  datatype NatResult = NatResult(facts: seq<Sighting>, echoReceived: bool, natReplyReceived: bool, judgment: Judgment)

  /** The outcome of the fixed sequence of exchanges. The fifth, made with a second IP only,
      is recorded as a fact without its source; its outcome does not reach the judgment. */
  ghost predicate IsOutcome(localIp: string, cfg: Config, env: nat -> Trial, r: Option<NatResult>) {
    && (r.Some? <==>
        && Sighted(env(0), cfg.udpPort, "echo").Some? && Sighted(env(1), cfg.udpPort, "echo").Some?
        && Sighted(env(2), cfg.natPort, "echo").Some? && Sighted(env(3), cfg.udpPort, "nat").Some?
        && (cfg.secondIp ==> Sighted(env(4), cfg.udpPort, "nat").Some?))
    && (r.Some? ==>
        var s1, s2 := Sighted(env(0), cfg.udpPort, "echo").value, Sighted(env(2), cfg.natPort, "echo").value;
        && r.value.judgment
           == NatJudgment(localIp, s1.src.ip, s1.src.port, s2.src.port, env(3).received, cfg.secondIp, false)
        && r.value.facts ==
           [s1, Sighted(env(1), cfg.udpPort, "echo").value, s2, Sighted(env(3), cfg.udpPort, "nat").value]
           + (if cfg.secondIp then [Sighted(env(4), cfg.udpPort, "nat").value.(src := Addr("", 0))] else [])
        && r.value.echoReceived == env(0).received && r.value.natReplyReceived == env(3).received)
  }

  method RunNat(localIp: string, cfg: Config, env: nat -> Trial) returns (r: Option<NatResult>)
    ensures IsOutcome(localIp, cfg, env, r)
  {
    hide LastMatch;
    var facts := [];
    var first := Send(env(0), cfg.udpPort, "echo");
    if first.None? {
      return None;
    }
    var again := Send(env(1), cfg.udpPort, "echo");
    if again.None? {
      return None;
    }
    facts := [first.value, again.value];
    var other := Send(env(2), cfg.natPort, "echo");
    if other.None? {
      return None;
    }
    facts := facts + [other.value];
    var filter := Send(env(3), cfg.udpPort, "nat");
    if filter.None? {
      return None;
    }
    facts := facts + [filter.value];
    var r4 := false;
    if cfg.secondIp {
      var second := Send(env(4), cfg.udpPort, "nat");
      if second.None? {
        return None;
      }
      facts := facts + [second.value.(src := Addr("", 0))];
    }
    var j := NatJudgment(localIp, first.value.src.ip, first.value.src.port, other.value.src.port,
                         filter.value.received, cfg.secondIp, r4);
    r := Some(NatResult(facts, first.value.received, filter.value.received, j));
  }

  /** The exchange pulled a history in which `i` is the newest UDP observation at that port and
      of that kind. */
  ghost predicate ShowsAt(t: Trial, port: int, kind: string, i: int) {
    && t.wrote && t.pulled.Some?
    && var obs := t.pulled.value;
       && 0 <= i < |obs|
       && obs[i].kind == Udp && obs[i].dstPort == port && obs[i].udp.Some? && obs[i].udp.value.kind == kind
       && forall j :: i < j < |obs| ==>
            !(obs[j].kind == Udp && obs[j].dstPort == port && obs[j].udp.Some? && obs[j].udp.value.kind == kind)
  }

  lemma SightedExactly(t: Trial, port: int, kind: string)
    ensures Sighted(t, port, kind).Some? <==> exists i :: ShowsAt(t, port, kind, i)
    ensures forall i :: ShowsAt(t, port, kind, i) ==>
              Sighted(t, port, kind).value.src == Addr(t.pulled.value[i].srcIp, t.pulled.value[i].srcPort)
  {
    if t.wrote && t.pulled.Some? {
      LastIndexIsLast(t.pulled.value, port, kind);
      var i := LastIndex(t.pulled.value, port, kind);
      assert i >= 0 ==> ShowsAt(t, port, kind, i);
      forall k | ShowsAt(t, port, kind, k) ensures k == i {
        assert Matches(t.pulled.value[k], port, kind);
      }
    }
  }

  /** From the histories to the label: two echoes at the UDP port, one at the NAT port and a nat
      request at the UDP port must all be seen; the first and the third give the addresses,
      the fourth whether a reply came from another port. */
  lemma OutcomeReads(localIp: string, cfg: Config, env: nat -> Trial, r: Option<NatResult>)
    requires IsOutcome(localIp, cfg, env, r)
    ensures r.Some? <==>
            && (exists i :: ShowsAt(env(0), cfg.udpPort, "echo", i))
            && (exists i :: ShowsAt(env(1), cfg.udpPort, "echo", i))
            && (exists i :: ShowsAt(env(2), cfg.natPort, "echo", i))
            && (exists i :: ShowsAt(env(3), cfg.udpPort, "nat", i))
            && (cfg.secondIp ==> exists i :: ShowsAt(env(4), cfg.udpPort, "nat", i))
    ensures r.Some? ==>
            forall i, k :: ShowsAt(env(0), cfg.udpPort, "echo", i) && ShowsAt(env(2), cfg.natPort, "echo", k) ==>
              var o, p, v := env(0).pulled.value[i], env(2).pulled.value[k], r.value.judgment.verdict;
              && (v == Direct <==> o.srcIp == localIp)
              && (v == Symmetric <==> o.srcIp != localIp && o.srcPort != p.srcPort)
              && (v == PortRestricted <==> o.srcIp != localIp && o.srcPort == p.srcPort && !env(3).received)
              && (v == AddressRestricted <==>
                   o.srcIp != localIp && o.srcPort == p.srcPort && env(3).received && cfg.secondIp)
              && (v == OpenCone <==>
                   o.srcIp != localIp && o.srcPort == p.srcPort && env(3).received && !cfg.secondIp)
  {
    SightedExactly(env(0), cfg.udpPort, "echo");
    SightedExactly(env(1), cfg.udpPort, "echo");
    SightedExactly(env(2), cfg.natPort, "echo");
    SightedExactly(env(3), cfg.udpPort, "nat");
    SightedExactly(env(4), cfg.udpPort, "nat");
    hide Sighted, ShowsAt;
  }

  // ----- the scan finds the client's own observation --------------------------------------------

  /** A window opens with the send. */
  lemma WindowOpens(w: World, s: Sys, a: Act, id: string)
    requires a.Send? && Quiet(s, id)
    ensures Window(w, Step(w, s, a), id, ObsOf(s.reg, id), SentBy(w, s, a))
  {
    hide SessionIn, Translate, MappedTo;
    OtherSteps(w, s, a);
  }

  lemma {:induction false} WindowHolds(w: World, s: Sys, acts: seq<Act>, id: string, before: seq<Obs>, own: Dgram)
    requires Window(w, s, id, before, own) && UndisturbedRun(w, s, acts, id)
    ensures Window(w, After(w, s, acts), id, before, own)
  {
    hide Window, Step, Undisturbed;
    if acts != [] {
      var n := |acts| - 1;
      assert forall k :: 0 <= k < n ==> acts[..n][..k] == acts[..k];
      WindowHolds(w, s, acts[..n], id, before, own);
      assert Undisturbed(w, After(w, s, acts[..n]), acts[n], id);
      WindowStep(w, After(w, s, acts[..n]), acts[n], id, before, own);
    }
  }

  lemma {:induction false} RecordHolds(w: World, s: Sys, acts: seq<Act>, k: nat, id: string, before: seq<Obs>,
                                       own: Dgram)
    requires Window(w, s, id, before, own) && UndisturbedRun(w, s, acts, id) && k <= |acts|
    requires OwnRecorded(w, ObsOf(After(w, s, acts[..k]).reg, id), before, own)
    ensures OwnRecorded(w, ObsOf(After(w, s, acts).reg, id), before, own)
  {
    hide Window, Step, Undisturbed, OwnRecorded, ObsOf;
    if k == |acts| {
      assert acts[..k] == acts;
    } else {
      var n := |acts| - 1;
      assert acts[..n][..k] == acts[..k];
      assert forall j :: 0 <= j < n ==> acts[..n][..j] == acts[..j];
      RecordHolds(w, s, acts[..n], k, id, before, own);
      WindowHolds(w, s, acts[..n], id, before, own);
      assert Undisturbed(w, After(w, s, acts[..n]), acts[n], id);
      StaysRecorded(w, After(w, s, acts[..n]), acts[n], id, before, own);
    }
  }

  /** A reply that is there at any moment of an undisturbed run, to be read then or later,
      means that the send is recorded at the end of it. */
  lemma ReplyHolds(w: World, s: Sys, acts: seq<Act>, k: nat, m: Reply, id: string, before: seq<Obs>, own: Dgram)
    requires Window(w, s, id, before, own) && UndisturbedRun(w, s, acts, id) && k <= |acts|
    requires m in After(w, s, acts[..k]).received && SessionIn(m.payload) == Some(id)
    ensures OwnRecorded(w, ObsOf(After(w, s, acts).reg, id), before, own)
  {
    PrefixUndisturbed(w, s, acts, k, id);
    WindowHolds(w, s, acts[..k], id, before, own);
    assert Outstanding(After(w, s, acts[..k]), m);
    assert OwnRecorded(w, ObsOf(After(w, s, acts[..k]).reg, id), before, own);
    RecordHolds(w, s, acts, k, id, before, own);
  }

  lemma PrefixUndisturbed(w: World, s: Sys, acts: seq<Act>, k: nat, id: string)
    requires UndisturbedRun(w, s, acts, id) && k <= |acts|
    ensures UndisturbedRun(w, s, acts[..k], id)
  {
    hide Undisturbed;
    assert forall j :: 0 <= j < k ==> acts[..k][..j] == acts[..j];
  }

  /** The scan of a window's end: this send's own observation, standing behind everything
      there was before, or else whatever an earlier send left. */
  lemma {:induction false} ScanOfWindow(w: World, obs: seq<Obs>, before: seq<Obs>, own: Dgram, port: int, kind: string)
    requires ObsWindow(w, obs, before, own)
    requires ReactTo(w, own).Some? ==> Matches(ReactTo(w, own).value.obs, port, kind)
    ensures var i := LastIndex(obs, port, kind);
            if OwnRecorded(w, obs, before, own) then i >= |before| && obs[i] == ReactTo(w, own).value.obs
            else i == LastIndex(before, port, kind)
  {
    hide ReactTo;
    if obs != before {
      var init, last := obs[..|obs| - 1], obs[|obs| - 1];
      assert IsOwnOrOther(w, own, last);
      assert forall i :: |before| <= i < |init| ==> init[i] == obs[i];
      ScanOfWindow(w, init, before, own, port, kind);
      if ReactTo(w, own).Some? && last == ReactTo(w, own).value.obs {
        assert OwnRecorded(w, obs, before, own);
      } else {
        assert !last.kind.Udp?;
        assert OwnRecorded(w, obs, before, own) ==> OwnRecorded(w, init, before, own);
      }
    }
  }

  /** The action of one measurement. */
  function Measure(local: Addr, arrival: Socket, id: string, kind: string, ext: Addr): Act {
    UdpSystem.Send(local, arrival, Request(id, kind), ext)
  }

  lemma OwnMatches(w: World, own: Dgram, id: string, kind: string)
    requires IsSessionId(id) && AllPlain(kind) && own.payload == Request(id, kind)
    ensures ReactTo(w, own).Some? ==> Matches(ReactTo(w, own).value.obs, w.cfg.PortOf(own.arrival), kind)
  {
    RequestReadsBack(id, kind);
    if ReactTo(w, own).Some? {
      hide React, ParseUdpPayload;
      RecordDescribesDatagram(w, own);
    }
  }

  /** The exact outcome of the scan after an undisturbed window: the observation made for
      that very send, standing behind all that was recorded before it, if there is one;
      else what an earlier send left. There is one if a reply of the session was there to
      be read at any moment since the send. */
  lemma SendScansExactly(w: World, s: Sys, local: Addr, arrival: Socket, id: string, kind: string, ext: Addr,
                         acts: seq<Act>)
    requires IsSessionId(id) && AllPlain(kind) && Quiet(s, id)
    requires UndisturbedRun(w, Step(w, s, Measure(local, arrival, id, kind, ext)), acts, id)
    ensures var a := Measure(local, arrival, id, kind, ext);
            var own, sent := SentBy(w, s, a), Step(w, s, a);
            var obs, before := ObsOf(After(w, sent, acts).reg, id), ObsOf(s.reg, id);
            var i := LastIndex(obs, w.cfg.PortOf(arrival), kind);
            && before <= obs
            && (if OwnRecorded(w, obs, before, own) then i >= |before| && obs[i] == ReactTo(w, own).value.obs
                else i == LastIndex(before, w.cfg.PortOf(arrival), kind))
            && (forall k, m :: 0 <= k <= |acts| && m in After(w, sent, acts[..k]).received ==>
                  SessionIn(m.payload) == Some(id) ==> OwnRecorded(w, obs, before, own))
  {
    var a := Measure(local, arrival, id, kind, ext);
    var own, sent := SentBy(w, s, a), Step(w, s, a);
    var before := ObsOf(s.reg, id);
    WindowOpens(w, s, a, id);
    WindowHolds(w, sent, acts, id, before, own);
    OwnMatches(w, own, id, kind);
    hide After, Step, ReactTo, OwnRecorded, SessionIn, Matches, UndisturbedRun;
    ScanOfWindow(w, ObsOf(After(w, sent, acts).reg, id), before, own, w.cfg.PortOf(arrival), kind);
    forall k, m | 0 <= k <= |acts| && m in After(w, sent, acts[..k]).received && SessionIn(m.payload) == Some(id)
      ensures OwnRecorded(w, ObsOf(After(w, sent, acts).reg, id), before, own)
    {
      ReplyHolds(w, sent, acts, k, m, id, before, own);
    }
  }

  /** A reply that came in after the send, whether or not it has been read since, means that
      the scan finds an observation made after the send, and that it is this send's: its
      source as the translator mapped it, its arrival port and its kind. */
  lemma ReplyMeansOwnObservation(w: World, s: Sys, local: Addr, arrival: Socket, id: string, kind: string, ext: Addr,
                                 acts: seq<Act>, k: nat, m: Reply)
    requires IsSessionId(id) && AllPlain(kind) && Quiet(s, id) && k <= |acts|
    requires UndisturbedRun(w, Step(w, s, Measure(local, arrival, id, kind, ext)), acts, id)
    requires m in After(w, Step(w, s, Measure(local, arrival, id, kind, ext)), acts[..k]).received
    requires SessionIn(m.payload) == Some(id)
    ensures var a := Measure(local, arrival, id, kind, ext);
            var own, obs := SentBy(w, s, a), ObsOf(After(w, Step(w, s, a), acts).reg, id);
            var i := LastIndex(obs, w.cfg.PortOf(arrival), kind);
            && i >= |ObsOf(s.reg, id)| && ObsOf(s.reg, id) <= obs
            && ReactTo(w, own).Some? && obs[i] == ReactTo(w, own).value.obs
            && Addr(obs[i].srcIp, obs[i].srcPort) == own.src
  {
    var a := Measure(local, arrival, id, kind, ext);
    SendScansExactly(w, s, local, arrival, id, kind, ext, acts);
    hide After, Step, SessionIn, LastIndex, UndisturbedRun, Quiet, React;
    RecordDescribesDatagram(w, SentBy(w, s, a));
  }

  /** A pull returns what the session holds, if it is there and has not expired. */
  function Pull(w: World, s: Sys, now: int, id: string): Option<seq<Obs>> {
    match GetFrom(w.limits, now, s.reg, id).1 case None => None case Some(e) => Some(e.obs)
  }

  lemma PullExactly(w: World, s: Sys, now: int, id: string)
    ensures Pull(w, s, now, id) ==
            if IsSessionId(id) && id in s.reg && !IsDead(w.limits, now, s.reg, id) then Some(ObsOf(s.reg, id)) else None
  {
  }

  // ----- the mapping verdict ------------------------------------------------------------------

  lemma StepExtends(w: World, s: Sys, a: Act)
    ensures Extends(s.box, Step(w, s, a).box) && Step(w, s, a).box.behaviour == s.box.behaviour
  {
    if a.Send? {
      TranslateExtends(s.box, a.local, w.AddrOf(a.arrival), a.ext);
    }
  }

  lemma ExtendsTransitive(a: Nat, b: Nat, c: Nat)
    requires Extends(a, b) && Extends(b, c)
    ensures Extends(a, c)
  {
    hide MappedTo;
    forall local, dst | MappedTo(a, local, dst).Some? ensures MappedTo(c, local, dst) == MappedTo(a, local, dst) {
      assert MappedTo(b, local, dst) == MappedTo(a, local, dst);
    }
  }

  lemma {:induction false} RunExtends(w: World, s: Sys, acts: seq<Act>)
    ensures Extends(s.box, After(w, s, acts).box) && After(w, s, acts).box.behaviour == s.box.behaviour
  {
    if acts != [] {
      var n := |acts| - 1;
      RunExtends(w, s, acts[..n]);
      StepExtends(w, After(w, s, acts[..n]), acts[n]);
      hide Extends, Step;
      ExtendsTransitive(s.box, After(w, s, acts[..n]).box, After(w, s, acts).box);
    }
  }

  /** A measurement: an echo sent when its session is quiet, and what happens until the
      history is pulled. */
  ghost predicate Measures(w: World, s: Sys, a: Act, acts: seq<Act>, id: string) {
    a.Send? && Quiet(s, id) && UndisturbedRun(w, Step(w, s, a), acts, id)
  }

  /** A measurement that is not lost: its observation is there when the history is pulled. */
  ghost predicate Lossless(w: World, s: Sys, a: Act, acts: seq<Act>, id: string) {
    && Measures(w, s, a, acts, id)
    && OwnRecorded(w, ObsOf(After(w, Step(w, s, a), acts).reg, id), ObsOf(s.reg, id), SentBy(w, s, a))
  }

  lemma SentFromMapping(w: World, s: Sys, a: Act)
    requires a.Send?
    ensures MappedTo(Step(w, s, a).box, a.local, w.AddrOf(a.arrival)) == Some(SentBy(w, s, a).src)
  {
    TranslateExtends(s.box, a.local, w.AddrOf(a.arrival), a.ext);
  }

  lemma LosslessSource(w: World, s: Sys, local: Addr, arrival: Socket, id: string, kind: string, ext: Addr,
                       acts: seq<Act>)
    requires IsSessionId(id) && AllPlain(kind)
    requires Lossless(w, s, Measure(local, arrival, id, kind, ext), acts, id)
    ensures var a := Measure(local, arrival, id, kind, ext);
            var found := LastMatch(ObsOf(After(w, Step(w, s, a), acts).reg, id), w.cfg.PortOf(arrival), kind);
            found.Some? && Addr(found.value.srcIp, found.value.srcPort) == SentBy(w, s, a).src
  {
    hide After, Step, LastIndex, React, ReactTo, SentBy, UndisturbedRun, Quiet, SessionIn, ObsOf, IsSessionId, AllPlain,
         ParseUdpPayload, Request, Matches;
    SendScansExactly(w, s, local, arrival, id, kind, ext, acts);
    RecordDescribesDatagram(w, SentBy(w, s, Measure(local, arrival, id, kind, ext)));
  }

  /** The observed source is the mapping of this destination, then and ever after. */
  lemma SourceIsMapping(w: World, s: Sys, local: Addr, arrival: Socket, id: string, ext: Addr, acts: seq<Act>,
                        later: Nat)
    requires IsSessionId(id)
    requires Lossless(w, s, Measure(local, arrival, id, "echo", ext), acts, id)
    requires Extends(After(w, Step(w, s, Measure(local, arrival, id, "echo", ext)), acts).box, later)
    ensures var end := After(w, Step(w, s, Measure(local, arrival, id, "echo", ext)), acts);
            var found := LastMatch(ObsOf(end.reg, id), w.cfg.PortOf(arrival), "echo");
            && found.Some?
            && MappedTo(later, local, w.AddrOf(arrival)) == Some(Addr(found.value.srcIp, found.value.srcPort))
  {
    hide After, Step, LastMatch, SentBy, MappedTo, Extends, Lossless, ObsOf;
    var a := Measure(local, arrival, id, "echo", ext);
    var s1 := Step(w, s, a);
    assert AllPlain("echo");
    LosslessSource(w, s, local, arrival, id, "echo", ext, acts);
    SentFromMapping(w, s, a);
    RunExtends(w, s1, acts);
    ExtendsTransitive(s1.box, After(w, s1, acts).box, later);
    ExtendsAt(s1.box, later, local, w.AddrOf(arrival));
  }

  lemma ExtendsAt(n: Nat, later: Nat, local: Addr, dst: Addr)
    requires Extends(n, later) && MappedTo(n, local, dst).Some?
    ensures MappedTo(later, local, dst) == MappedTo(n, local, dst)
  {
  }

  /** What the verdict says about the mappings to the probe's two ports. */
  ghost predicate IsSound(v: Label, box: Nat, local: Addr, dst1: Addr, dst2: Addr) {
    var x1, x2 := MappedTo(box, local, dst1), MappedTo(box, local, dst2);
    && x1.Some? && x2.Some?
    && (x1.value.ip != local.ip ==> (v.Symmetric? <==> x1.value.port != x2.value.port))
    && (v.Direct? <==> x1.value.ip == local.ip)
    && (box.behaviour.Untranslated? ==> v.Direct?)
    && (!box.behaviour.AddressAndPortDependent? ==> !v.Symmetric?)
  }

  /** Soundness of the mapping half of the verdict, for a probe on one IP and any translator
      with persistent mappings: two measurements of one socket that are not lost, at the two
      probe ports, with anything before, between and beside them. */
  lemma MappingVerdict(w: World, id: string, local: Addr, s: Sys, ext1: Addr, acts1: seq<Act>,
                       between: seq<Act>, ext2: Addr, acts2: seq<Act>, r3: bool, secondIp: bool, r4: bool)
    requires IsSessionId(id)
    requires Lossless(w, s, Measure(local, UdpSocket, id, "echo", ext1), acts1, id)
    requires var end1 := After(w, Step(w, s, Measure(local, UdpSocket, id, "echo", ext1)), acts1);
             Lossless(w, After(w, end1, between), Measure(local, NatSocket, id, "echo", ext2), acts2, id)
    ensures var end1 := After(w, Step(w, s, Measure(local, UdpSocket, id, "echo", ext1)), acts1);
            var end2 := After(w, Step(w, After(w, end1, between), Measure(local, NatSocket, id, "echo", ext2)), acts2);
            var o1 := LastMatch(ObsOf(end1.reg, id), w.cfg.udpPort, "echo");
            var o2 := LastMatch(ObsOf(end2.reg, id), w.cfg.natPort, "echo");
            && o1.Some? && o2.Some?
            && var j := NatJudgment(local.ip, o1.value.srcIp, o1.value.srcPort, o2.value.srcPort, r3, secondIp, r4);
               IsSound(j.verdict, end2.box, local, w.AddrOf(UdpSocket), w.AddrOf(NatSocket))
  {
    var m1, m2 := Measure(local, UdpSocket, id, "echo", ext1), Measure(local, NatSocket, id, "echo", ext2);
    var end1 := After(w, Step(w, s, m1), acts1);
    var s2 := After(w, end1, between);
    var end2 := After(w, Step(w, s2, m2), acts2);
    RunExtends(w, end1, between);
    StepExtends(w, s2, m2);
    RunExtends(w, Step(w, s2, m2), acts2);
    hide Lossless, After, Step, LastMatch, ObsOf, Extends;
    ExtendsTransitive(end1.box, s2.box, Step(w, s2, m2).box);
    ExtendsTransitive(end1.box, Step(w, s2, m2).box, end2.box);
    SourceIsMapping(w, s, local, UdpSocket, id, ext1, acts1, end2.box);
    ExtendsReflexive(end2.box);
    SourceIsMapping(w, s2, local, NatSocket, id, ext2, acts2, end2.box);
    assert w.AddrOf(UdpSocket).ip == w.AddrOf(NatSocket).ip;
    if !end2.box.behaviour.AddressAndPortDependent? {
      OneAddressOneMapping(end2.box, local, w.AddrOf(UdpSocket), w.AddrOf(NatSocket));
    }
  }

  /** In a history without an earlier echo at that port, or after a measurement that was not
      lost, the scan finds nothing but the measurement's own observation. */
  ghost predicate Conclusive(w: World, s: Sys, a: Act, acts: seq<Act>, id: string, kind: string) {
    && Measures(w, s, a, acts, id)
    && (Lossless(w, s, a, acts, id) || LastIndex(ObsOf(s.reg, id), w.cfg.PortOf(a.arrival), kind) < 0)
  }

  lemma FoundIsLossless(w: World, s: Sys, local: Addr, arrival: Socket, id: string, kind: string, ext: Addr,
                        acts: seq<Act>)
    requires IsSessionId(id) && AllPlain(kind)
    requires var a := Measure(local, arrival, id, kind, ext);
             && Conclusive(w, s, a, acts, id, kind)
             && LastMatch(ObsOf(After(w, Step(w, s, a), acts).reg, id), w.cfg.PortOf(arrival), kind).Some?
    ensures Lossless(w, s, Measure(local, arrival, id, kind, ext), acts, id)
  {
    hide After, Step, LastIndex, React, ReactTo, SentBy, UndisturbedRun, Quiet, SessionIn, ObsOf, IsSessionId, AllPlain,
         ParseUdpPayload, Request, Matches, OwnRecorded;
    SendScansExactly(w, s, local, arrival, id, kind, ext, acts);
  }

  /** The same of the label the client prints, under any loss: whatever RunNat returns, if its
      first and third exchange pulled the history at the end of two measurements, each of
      them not lost or the first echo of its session at that port, its verdict is sound. A
      lost exchange makes RunNat fail; it does not make it misjudge. */
  lemma RunVerdict(w: World, id: string, local: Addr, s: Sys, ext1: Addr, acts1: seq<Act>, now1: int,
                   between: seq<Act>, ext2: Addr, acts2: seq<Act>, now2: int, env: nat -> Trial, r: Option<NatResult>)
    requires IsSessionId(id) && IsOutcome(local.ip, w.cfg, env, r) && r.Some?
    requires Conclusive(w, s, Measure(local, UdpSocket, id, "echo", ext1), acts1, id, "echo")
    requires var end1 := After(w, Step(w, s, Measure(local, UdpSocket, id, "echo", ext1)), acts1);
             && Conclusive(w, After(w, end1, between), Measure(local, NatSocket, id, "echo", ext2), acts2, id, "echo")
             && env(0).pulled == Pull(w, end1, now1, id)
    requires var end1 := After(w, Step(w, s, Measure(local, UdpSocket, id, "echo", ext1)), acts1);
             var end2 := After(w, Step(w, After(w, end1, between), Measure(local, NatSocket, id, "echo", ext2)), acts2);
             env(2).pulled == Pull(w, end2, now2, id)
    ensures var end1 := After(w, Step(w, s, Measure(local, UdpSocket, id, "echo", ext1)), acts1);
            var end2 := After(w, Step(w, After(w, end1, between), Measure(local, NatSocket, id, "echo", ext2)), acts2);
            IsSound(r.value.judgment.verdict, end2.box, local, w.AddrOf(UdpSocket), w.AddrOf(NatSocket))
  {
    var m1, m2 := Measure(local, UdpSocket, id, "echo", ext1), Measure(local, NatSocket, id, "echo", ext2);
    var end1 := After(w, Step(w, s, m1), acts1);
    var s2 := After(w, end1, between);
    var end2 := After(w, Step(w, s2, m2), acts2);
    hide Conclusive, Lossless, After, Step, LastMatch, ObsOf, IsSound, Pull, IsDead, IsSessionId, Measure;
    PullExactly(w, end1, now1, id);
    PullExactly(w, end2, now2, id);
    assert Sighted(env(0), w.cfg.udpPort, "echo").Some? && Sighted(env(2), w.cfg.natPort, "echo").Some?;
    assert AllPlain("echo");
    FoundIsLossless(w, s, local, UdpSocket, id, "echo", ext1, acts1);
    FoundIsLossless(w, s2, local, NatSocket, id, "echo", ext2, acts2);
    MappingVerdict(w, id, local, s, ext1, acts1, between, ext2, acts2, env(3).received, w.cfg.secondIp, false);
  }

  lemma ExtendsReflexive(n: Nat)
    ensures Extends(n, n)
  {
  }
}
