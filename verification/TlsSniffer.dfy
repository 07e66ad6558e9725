/** One TLS connection from its first byte to the stored observation, and the session
    identity it carries. */
module TlsSniffer {
  import opened Options
  import opened Text
  import opened Wire
  import opened Proto
  import opened SessionId
  import opened Registry
  import F = HelloFormat
  import B = HelloBuilder
  import P = HelloParser
  import FP = Fingerprint
  import W = FingerprintWriter
  import R = FingerprintReading
  import S = Store

  /** The peer as the socket names it, and the port it connected to. */
  datatype Peer = Peer(ip: string, port: int, tlsPort: int)

  /** The digests, in hexadecimal. */
  datatype Digests = Digests(md5: string -> string, sha: string -> string)

  /** The observation made of a hello. */
  function TlsObs(h: F.ClientHello, peer: Peer, d: Digests): Obs
    requires forall s :: |d.sha(s)| >= 12
  {
    Obs(Tls, SessionOf(h.sni), peer.ip, peer.port, peer.tlsPort, None,
        Some(TlsFingerprint(d.md5(FP.Ja3Text(h)), FP.Ja4(d.sha, h), h.sni)))
  }

  /** The fingerprints do not look at the raw extension data. */
  lemma RawDataUnused(h: F.ClientHello, peer: Peer, d: Digests)
    requires forall s :: |d.sha(s)| >= 12
    ensures TlsObs(h.(extData := map[]), peer, d) == TlsObs(h, peer, d)
  {
  }

  /** Stores the fingerprints under the session named by the SNI prefix, if there is one. */
  method RecordTls(store: S.Store, h: P.HelloRef, peer: Peer, d: Digests, now: int) returns (ghost victim: string)
    requires store.Valid() && FP.IsDigest(d.sha)
    modifies store, store.Repr
    ensures store.Valid()
    ensures store.Abs() ==
            if SessionOf(h.sni) == "" then old(store.Abs())
            else AppendTo(store.limits, now, old(store.Abs()), SessionOf(h.sni),
                          old(TlsObs(P.Fields(h), peer, d)), victim)
    ensures SessionOf(h.sni) != "" ==> LegalVictim(store.limits, now, old(store.Abs()), SessionOf(h.sni), victim)
  {
    hide IsSessionId, AppendTo, FP.Ja3Text, FP.Ja4, LegalVictim, S.Store.Valid, S.Store.Abs, R.ReadsAsJa3, R.ReadsAsJa4;
    victim := "";
    var session := "";
    var i := IndexOf(h.sni, '.');
    if 0 < i < |h.sni| {
      var ok := ValidSessionId(h.sni[..i]);
      if ok {
        session := h.sni[..i];
      }
    }
    var fields := P.Fields(h);
    var ja3 := W.Ja3(fields, d.md5);
    var ja4 := W.Ja4(fields, d.sha);
    var obs := Obs(Tls, session, peer.ip, peer.port, peer.tlsPort, None, Some(TlsFingerprint(ja3, ja4, h.sni)));
    if session != "" {
      var ok;
      ok, victim := store.Append(session, obs, now);
    }
  }

  /** What a connection leaves in the registry, as a function of the bytes it sent. */
  function Recorded(r: Reg, l: Limits, now: int, o: F.Outcome<F.ClientHello>, peer: Peer, d: Digests,
                    victim: string): Reg
    requires forall s :: |d.sha(s)| >= 12
  {
    if o.Done? && SessionOf(o.hello.sni) != ""
    then AppendTo(l, now, r, SessionOf(o.hello.sni), TlsObs(o.hello, peer, d), victim)
    else r
  }

  /** What a pull shows after a connection with a session: with room for it, the newest
      observation is the connection's. */
  lemma ConnectionIsRecorded(r: Reg, l: Limits, now: int, h: F.ClientHello, peer: Peer, d: Digests, victim: string)
    requires FP.IsDigest(d.sha) && SessionOf(h.sni) != ""
    ensures var id, r' := SessionOf(h.sni), Recorded(r, l, now, F.Done(h), peer, d, victim);
            && id in r'
            && var before := if id in r then r[id].obs else [];
               r'[id].obs == if |before| < 4096 then before + [TlsObs(h, peer, d)] else before
  {
    hide AppendTo, SessionOf, TlsObs, IsSessionId;
    SessionIsValid(h.sni);
    NewestExactly(l, now, r, SessionOf(h.sni), TlsObs(h, peer, d), victim);
  }

  lemma SessionIsValid(sni: string)
    requires SessionOf(sni) != ""
    ensures IsSessionId(SessionOf(sni))
  {
    hide IsSessionId;
  }

  ghost predicate IsOfConnection(o: Obs, h: F.ClientHello, peer: Peer, d: Digests) {
    && o.kind == Tls && o.session == SessionOf(h.sni) && o.udp.None? && o.tls.Some?
    && o.srcIp == peer.ip && o.srcPort == peer.port && o.dstPort == peer.tlsPort
    && o.tls.value.sni == h.sni && R.ReadsAsJa4(o.tls.value.ja4, h, d.sha)
    && exists text :: R.ReadsAsJa3(text, h) && o.tls.value.ja3 == d.md5(text)
  }

  /** It holds the hash of a text that reads as the hello's JA3 as its JA3, a JA4 that reads as the
      hello's, the server name, and the peer's addresses. */
  lemma ObsIsOfConnection(h: F.ClientHello, peer: Peer, d: Digests)
    requires FP.IsDigest(d.sha)
    ensures IsOfConnection(TlsObs(h, peer, d), h, peer, d)
  {
    R.Ja3Reads(h);
    R.Ja4Reads(h, d.sha);
    hide SessionOf, R.ReadsAsJa3, FP.Ja3Text, FP.Ja4;
  }

  method ServeTls(store: S.Store, received: seq<seq<byte>>, peer: Peer, d: Digests, now: int)
    returns (ghost victim: string)
    requires store.Valid() && FP.IsDigest(d.sha)
    modifies store, store.Repr
    ensures store.Valid()
    ensures var o := P.RunChunks([], received);
            && store.Abs() == Recorded(old(store.Abs()), store.limits, now, o, peer, d, victim)
            && (o.Done? && SessionOf(o.hello.sni) != "" ==>
                  LegalVictim(store.limits, now, old(store.Abs()), SessionOf(o.hello.sni), victim))
  {
    hide AppendTo, P.RunChunks, TlsObs, P.Shows, IsSessionId, LegalVictim, SessionOf, S.Store.Valid, S.Store.Abs;
    var r, p := P.HandleTlsConn(received);
    victim := "";
    if r.Done? {
      ghost var o := P.RunChunks([], received);
      RawDataUnused(o.hello, peer, d);
      assert P.Fields(r.hello) == o.hello.(extData := map[]);
      victim := RecordTls(store, r.hello, peer, d, now);
    }
  }

  lemma SessionSni(id: string)
    requires IsSessionId(id)
    ensures SessionOf(id + ".1") == id
    ensures B.IsText(B.Sni(id + ".1")) && B.ExtFits(B.Sni(id + ".1"))
  {
    SessionIdHasNoDot(id);
    SessionOfExact(id + ".1", id);
  }

  /** For every sixteen random bytes: a hello that carries the generated identifier with
      ".1" behind it as its server name yields, however its bytes are cut on the way,
      exactly that identifier as the store key. */
  lemma SessionSurvivesTls(random: seq<byte>, b: B.Builder, i: nat, chunks: seq<seq<byte>>)
    requires |random| == 16
    requires B.Fits(b) && i < |b.extensions| && b.extensions[i] == B.EntryOf(B.Sni(IdOf(random) + ".1"))
    requires forall j :: i < j < |b.extensions| ==> b.extensions[j].typ != F.EXT_SNI
    requires P.Flatten(chunks) == B.Build(b) && |B.Build(b)| <= P.MAX_HELLO
    ensures var o := P.RunChunks([], chunks);
            o.Done? && SessionOf(o.hello.sni) == IdOf(random) && IsSessionId(IdOf(random))
  {
    hide B.Build, F.ParseRecord, P.RunChunks, SessionOf, IsSessionId;
    var id := IdOf(random);
    GeneratedIdIsValid(random);
    SessionSni(id);
    P.FragmentationIndependence(chunks);
    B.RoundTripExt(b, i, B.Sni(id + ".1"));
  }
}
