/** What the probe records. Identifiers, times and TTLs of observations are left out. */
module Proto {
  import opened Options

  datatype ObsKind = Http | Tcp | Udp | Tls

  datatype UdpObs = UdpObs(kind: string, replyFrom: string, payloadLen: nat)

  datatype TlsFingerprint = TlsFingerprint(ja3: string, ja4: string, sni: string)

  datatype Obs = Obs(
    kind: ObsKind,
    session: string,
    srcIp: string,
    srcPort: int,
    dstPort: int,
    udp: Option<UdpObs>,
    tls: Option<TlsFingerprint>)
}
