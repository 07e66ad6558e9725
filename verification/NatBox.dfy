/** Network address translators by their mapping behaviour (section 4.1 of RFC 4787),
    with mappings that persist for the length of a measurement. */
module NatBox {
  import opened Options
  import opened UdpProbe

  datatype Behaviour = Untranslated | EndpointIndependent | AddressDependent | AddressAndPortDependent

  /** What a mapping is kept for: the inner address, and as much of the destination as the
      behaviour looks at. */
  datatype Key = Key(local: Addr, dstIp: Option<string>, dstPort: Option<int>)

  function KeyOf(b: Behaviour, local: Addr, dst: Addr): Key {
    match b
    case AddressDependent => Key(local, Some(dst.ip), None)
    case AddressAndPortDependent => Key(local, Some(dst.ip), Some(dst.port))
    case _ => Key(local, None, None)
  }

  datatype Nat = Nat(behaviour: Behaviour, table: map<Key, Addr>)

  /** The external address a packet would leave with, once it has one. */
  function MappedTo(n: Nat, local: Addr, dst: Addr): Option<Addr> {
    var key := KeyOf(n.behaviour, local, dst);
    if n.behaviour.Untranslated? then Some(local)
    else if key in n.table then Some(n.table[key])
    else None
  }

  /** A packet passes outwards; `ext` is the address the translator would assign now. */
  function Translate(n: Nat, local: Addr, dst: Addr, ext: Addr): Nat {
    if MappedTo(n, local, dst).Some? then n else n.(table := n.table[KeyOf(n.behaviour, local, dst) := ext])
  }

  ghost predicate Extends(n: Nat, n': Nat) {
    forall local, dst :: MappedTo(n, local, dst).Some? ==> MappedTo(n', local, dst) == MappedTo(n, local, dst)
  }

  lemma TranslateExtends(n: Nat, local: Addr, dst: Addr, ext: Addr)
    ensures Extends(n, Translate(n, local, dst, ext))
    ensures MappedTo(Translate(n, local, dst, ext), local, dst).Some?
    ensures Translate(n, local, dst, ext).behaviour == n.behaviour
  {
  }

  /** A translator that maps by the inner address alone gives every destination the same one. */
  lemma EndpointIndependence(n: Nat, local: Addr, dst1: Addr, dst2: Addr)
    requires n.behaviour.EndpointIndependent? || n.behaviour.Untranslated?
    ensures MappedTo(n, local, dst1) == MappedTo(n, local, dst2)
  {
  }

  /** Only a mapping that depends on the port can differ between two ports of one host. */
  lemma OneAddressOneMapping(n: Nat, local: Addr, dst1: Addr, dst2: Addr)
    requires dst1.ip == dst2.ip && !n.behaviour.AddressAndPortDependent?
    ensures MappedTo(n, local, dst1) == MappedTo(n, local, dst2)
  {
  }
}
