/** The ClientHello grammar (section 4.1.2 of RFC 8446) as the probe reads it:
    which byte strings are accepted, and what is extracted from them. */
module HelloFormat {
  import opened Options
  import opened Wire

  const HANDSHAKE: byte := 22
  const CLIENT_HELLO: byte := 1
  const EXT_SNI: u16 := 0x0000
  const EXT_GROUPS: u16 := 0x000a
  const EXT_POINT_FORMATS: u16 := 0x000b
  const EXT_SIG_ALGS: u16 := 0x000d
  const EXT_ALPN: u16 := 0x0010
  const EXT_VERSIONS: u16 := 0x002b

  datatype Entry = Entry(typ: u16, data: seq<byte>)

  /** The fields of a ClientHello that the fingerprints use. */
  datatype ClientHello = ClientHello(
    legacyVersion: u16,
    ciphers: seq<u16>,
    extensions: seq<u16>,
    extData: map<u16, seq<byte>>,
    sni: string,
    alpn: seq<string>,
    sigAlgs: seq<u16>,
    suppVersions: seq<u16>,
    groups: seq<u16>,
    pointFormats: seq<byte>)

  datatype Outcome<+H> = NeedMore | Invalid | Done(hello: H)

  /** A ClientHello body as it stands on the wire. */
  datatype Body = Body(
    version: u16,
    random: seq<byte>,
    sessionId: seq<byte>,
    ciphers: seq<u16>,
    compressions: seq<byte>,
    entries: seq<Entry>)

  // ----- the extension block ------------------------------------------------------

  function EncodeEntry(e: Entry): seq<byte> {
    U16Bytes(e.typ) + Vec16(e.data)
  }

  function EncodeEntries(es: seq<Entry>): seq<byte> {
    if es == [] then [] else EncodeEntry(es[0]) + EncodeEntries(es[1..])
  }

  ghost predicate EntriesFit(es: seq<Entry>) {
    forall i :: 0 <= i < |es| ==> |es[i].data| < 65536
  }

  function ParseEntries(block: seq<byte>): (r: Option<seq<Entry>>) {
    if block == [] then Some([])
    else if |block| < 4 then None
    else
      var l := BE16(block, 2);
      if 4 + l > |block| then None
      else
        var rest :- ParseEntries(block[4 + l..]);
        Some([Entry(BE16(block, 0), block[4..4 + l])] + rest)
  }

  lemma EntryBytes(e: Entry, tail: seq<byte>, block: seq<byte>)
    requires |e.data| < 65536 && block == EncodeEntry(e) + tail
    ensures |block| >= 4 && BE16(block, 0) == e.typ && BE16(block, 2) == |e.data|
    ensures block[4..4 + |e.data|] == e.data && block[4 + |e.data|..] == tail
  {
    assert block[..2] == U16Bytes(e.typ);
    assert BE16(block[..2], 0) == e.typ;
    assert block[2..4] == U16Bytes(|e.data|);
    assert BE16(block[2..4], 0) == |e.data|;
  }

  lemma {:induction false} EntriesComplete(es: seq<Entry>)
    requires EntriesFit(es)
    ensures ParseEntries(EncodeEntries(es)) == Some(es)
  {
    if es != [] {
      var block := EncodeEntries(es);
      assert block == EncodeEntry(es[0]) + EncodeEntries(es[1..]);
      hide EncodeEntries, EncodeEntry;
      EntryBytes(es[0], EncodeEntries(es[1..]), block);
      EntriesComplete(es[1..]);
      assert es == [es[0]] + es[1..];
    }
  }

  lemma EntryRebuilds(block: seq<byte>)
    requires |block| >= 4 && 4 + BE16(block, 2) <= |block|
    ensures var l := BE16(block, 2);
            EncodeEntry(Entry(BE16(block, 0), block[4..4 + l])) + block[4 + l..] == block
  {
    var l := BE16(block, 2);
    var d := block[4..4 + l];
    assert U16Bytes(BE16(block, 0)) == block[..2];
    assert Vec16(d) == block[2..4] + d == block[2..4 + l];
    assert block[..2] + block[2..4 + l] == block[..4 + l];
  }

  lemma {:induction false} EntriesSound(block: seq<byte>)
    requires ParseEntries(block).Some?
    ensures EntriesFit(ParseEntries(block).value) && EncodeEntries(ParseEntries(block).value) == block
    decreases |block|
  {
    if block != [] {
      var es := ParseEntries(block).value;
      var l := BE16(block, 2);
      var rest := block[4 + l..];
      assert es[1..] == ParseEntries(rest).value;
      hide ParseEntries, EncodeEntry;
      EntriesSound(rest);
      EntryRebuilds(block);
      assert forall i :: 1 <= i < |es| ==> es[i] == es[1..][i - 1];
    }
  }

  /** The block parser succeeds exactly on the concatenations of entries, and its
      entries re-encode to exactly the bytes it walked over. */
  lemma EntriesExact(block: seq<byte>, es: seq<Entry>)
    ensures ParseEntries(block) == Some(es) <==> EntriesFit(es) && EncodeEntries(es) == block
  {
    if EntriesFit(es) && EncodeEntries(es) == block {
      EntriesComplete(es);
    }
    if ParseEntries(block) == Some(es) {
      EntriesSound(block);
    }
  }

  // ----- what the extensions say --------------------------------------------------

  function Types(es: seq<Entry>): (ts: seq<u16>)
    ensures |ts| == |es| && forall i :: 0 <= i < |es| ==> ts[i] == es[i].typ
  {
    seq(|es|, i requires 0 <= i < |es| => es[i].typ)
  }

  /** The data kept per type when entries are stored one after another. */
  function ExtData(es: seq<Entry>): (m: map<u16, seq<byte>>) {
    if es == [] then map[]
    else ExtData(es[..|es| - 1])[es[|es| - 1].typ := es[|es| - 1].data]
  }

  /** A missing key of a Go map reads as the nil slice. */
  function Lookup(m: map<u16, seq<byte>>, t: u16): seq<byte> {
    if t in m then m[t] else []
  }

  /** The last entry of a type wins. */
  lemma {:induction false} LastWins(es: seq<Entry>, i: nat)
    requires i < |es| && forall j :: i < j < |es| ==> es[j].typ != es[i].typ
    ensures es[i].typ in ExtData(es) && ExtData(es)[es[i].typ] == es[i].data
  {
    var init := es[..|es| - 1];
    if i < |es| - 1 {
      assert init[i] == es[i];
      LastWins(init, i);
    }
  }

  lemma {:induction false} ExtDataKeys(es: seq<Entry>, t: u16)
    ensures t in ExtData(es) <==> t in Types(es)
  {
    if es != [] {
      var init := es[..|es| - 1];
      ExtDataKeys(init, t);
      assert Types(es) == Types(init) + [es[|es| - 1].typ];
    }
  }

  function FirstHostName(list: seq<byte>): string {
    if |list| < 3 then ""
    else
      var l := BE16(list, 1);
      if 3 + l > |list| then ""
      else if list[0] == 0 then AsString(list[3..3 + l])
      else FirstHostName(list[3 + l..])
  }

  /** Section 3 of RFC 6066: the first host_name of the list. */
  function ParseSni(d: seq<byte>): string {
    match TakeVec16(d)
    case None => ""
    case Some((list, _)) => FirstHostName(list)
  }

  function AlpnNames(list: seq<byte>): Option<seq<string>> {
    if list == [] then Some([])
    else
      var (name, rest) :- TakeVec8(list);
      var names :- AlpnNames(rest);
      Some([AsString(name)] + names)
  }

  /** Section 3.1 of RFC 7301: the whole protocol list, or nothing. */
  function ParseAlpn(d: seq<byte>): seq<string> {
    match TakeVec16(d)
    case None => []
    case Some((list, _)) => match AlpnNames(list) case None => [] case Some(names) => names
  }

  function ParseU16List2(d: seq<byte>): seq<u16> {
    match TakeVec16(d)
    case None => []
    case Some((list, _)) => if |list| % 2 != 0 then [] else DecodeU16s(list)
  }

  function ParseU16List1(d: seq<byte>): seq<u16> {
    match TakeVec8(d)
    case None => []
    case Some((list, _)) => if |list| % 2 != 0 then [] else DecodeU16s(list)
  }

  /** Section 5.1.2 of RFC 8422. */
  function ParsePointFormats(d: seq<byte>): seq<byte> {
    match TakeVec8(d)
    case None => []
    case Some((list, _)) => list
  }

  function Interpret(version: u16, ciphers: seq<u16>, es: seq<Entry>): ClientHello {
    var m := ExtData(es);
    ClientHello(version, ciphers, Types(es), m,
                ParseSni(Lookup(m, EXT_SNI)),
                ParseAlpn(Lookup(m, EXT_ALPN)),
                ParseU16List2(Lookup(m, EXT_SIG_ALGS)),
                ParseU16List1(Lookup(m, EXT_VERSIONS)),
                ParseU16List2(Lookup(m, EXT_GROUPS)),
                ParsePointFormats(Lookup(m, EXT_POINT_FORMATS)))
  }

  // ----- the body -------------------------------------------------------------------

  ghost predicate WellFormed(w: Body) {
    && |w.random| == 32
    && |w.sessionId| < 256
    && 1 <= |w.ciphers| < 32768
    && 1 <= |w.compressions| < 256
    && EntriesFit(w.entries)
    && |EncodeEntries(w.entries)| < 65536
  }

  function EncodeBody(w: Body): seq<byte> {
    U16Bytes(w.version) + w.random + AfterRandom(w)
  }

  function AfterRandom(w: Body): seq<byte> {
    Vec8(w.sessionId) + AfterSession(w)
  }

  function AfterSession(w: Body): seq<byte> {
    Vec16(EncodeU16s(w.ciphers)) + AfterCiphers(w)
  }

  function AfterCiphers(w: Body): seq<byte> {
    Vec8(w.compressions) + Vec16(EncodeEntries(w.entries))
  }

  /** Splits a body into its fields and whatever trails the extension block. */
  function Dissect(body: seq<byte>): Option<(Body, seq<byte>)> {
    if |body| < 2 + 32 + 1 + 2 + 1 + 2 then None
    else
      var (sessionId, r1) :- TakeVec8(body[34..]);
      var (cipherBytes, r2) :- TakeVec16(r1);
      if |cipherBytes| < 2 || |cipherBytes| % 2 != 0 then None
      else
        var (compressions, r3) :- TakeVec8(r2);
        if |compressions| < 1 then None
        else
          var (block, trailing) :- TakeVec16(r3);
          var entries :- ParseEntries(block);
          Some((Body(BE16(body, 0), body[2..34], sessionId, DecodeU16s(cipherBytes),
                     compressions, entries), trailing))
  }

  function ParseBody(body: seq<byte>): Outcome<ClientHello> {
    match Dissect(body)
    case None => Invalid
    case Some((w, _)) => Done(Interpret(w.version, w.ciphers, w.entries))
  }

  lemma DissectComplete(w: Body, trailing: seq<byte>)
    requires WellFormed(w)
    ensures Dissect(EncodeBody(w) + trailing) == Some((w, trailing))
  {
    hide TakeVec8, TakeVec16, Vec8, Vec16, ParseEntries, EncodeEntries, EncodeU16s, DecodeU16s;
    var body := EncodeBody(w) + trailing;
    var block, cs := EncodeEntries(w.entries), EncodeU16s(w.ciphers);
    var r3 := Vec16(block) + trailing;
    var r2 := Vec8(w.compressions) + r3;
    var r1 := Vec16(cs) + r2;
    var r0 := Vec8(w.sessionId) + r1;
    assert body == U16Bytes(w.version) + w.random + r0;
    assert body[..2] == U16Bytes(w.version);
    assert BE16(body, 0) == BE16(body[..2], 0) == w.version;
    assert body[2..34] == w.random && body[34..] == r0;
    Vec8Exact(r0, w.sessionId, r1);
    Vec16Exact(r1, cs, r2);
    Vec8Exact(r2, w.compressions, r3);
    Vec16Exact(r3, block, trailing);
    DecodeOfEncode(w.ciphers);
    EntriesExact(block, w.entries);
  }

  lemma DissectSound(body: seq<byte>)
    requires Dissect(body).Some?
    ensures var (w, trailing) := Dissect(body).value;
            WellFormed(w) && body == EncodeBody(w) + trailing
  {
    hide TakeVec8, TakeVec16, Vec8, Vec16, ParseEntries, EncodeEntries, EncodeU16s, DecodeU16s;
    var (w, trailing) := Dissect(body).value;
    var (sid, r1) := TakeVec8(body[34..]).value;
    var (cs, r2) := TakeVec16(r1).value;
    var (comp, r3) := TakeVec8(r2).value;
    var (block, _) := TakeVec16(r3).value;
    Vec8Exact(body[34..], sid, r1);
    Vec16Exact(r1, cs, r2);
    Vec8Exact(r2, comp, r3);
    Vec16Exact(r3, block, trailing);
    EncodeOfDecode(cs);
    EntriesExact(block, w.entries);
    assert r2 == AfterCiphers(w) + trailing;
    assert r1 == AfterSession(w) + trailing;
    assert body[34..] == AfterRandom(w) + trailing;
    assert U16Bytes(BE16(body, 0)) == body[..2];
    assert body == body[..2] + body[2..34] + body[34..];
  }

  /** The body parser accepts exactly the encodings of well-formed bodies, with
      anything after the extension block ignored, and dissects them uniquely. */
  lemma DissectExact(body: seq<byte>, w: Body, trailing: seq<byte>)
    ensures Dissect(body) == Some((w, trailing)) <==> WellFormed(w) && body == EncodeBody(w) + trailing
  {
    if WellFormed(w) && body == EncodeBody(w) + trailing {
      DissectComplete(w, trailing);
    }
    if Dissect(body) == Some((w, trailing)) {
      DissectSound(body);
    }
  }

  // ----- the record -----------------------------------------------------------------

  /** One TLS record holding one handshake message. */
  function ParseRecord(b: seq<byte>): Outcome<ClientHello> {
    if |b| < 5 then NeedMore
    else if b[0] != HANDSHAKE then Invalid
    else
      var recLen := BE16(b, 3);
      if recLen < 4 then Invalid
      else if |b| < 5 + recLen then NeedMore
      else ParseHandshake(b[5..5 + recLen])
  }

  function ParseHandshake(hb: seq<byte>): Outcome<ClientHello>
    requires |hb| >= 4
  {
    if hb[0] != CLIENT_HELLO then Invalid
    else
      var hsLen := hb[1] as int * 65536 + hb[2] as int * 256 + hb[3] as int;
      if |hb| < 4 + hsLen then NeedMore
      else ParseBody(hb[4..4 + hsLen])
  }

  /** The body that a parsed record's hello was read from. */
  function HelloBytes(b: seq<byte>): (body: seq<byte>)
    requires ParseRecord(b).Done?
    ensures ParseRecord(b) == ParseBody(body)
  {
    var hb := b[5..5 + BE16(b, 3) as int];
    hb[4..4 + hb[1] as int * 65536 + hb[2] as int * 256 + hb[3] as int]
  }

  /** The record is complete, and its handshake message is longer than the record. */
  predicate IsStuck(b: seq<byte>) {
    && |b| >= 9 && b[0] == HANDSHAKE && 4 <= BE16(b, 3) && 5 + BE16(b, 3) <= |b| && b[5] == CLIENT_HELLO
    && BE16(b, 3) as int < 4 + b[6] as int * 65536 + b[7] as int * 256 + b[8] as int
  }

  /** The parser waits exactly for the rest of a record header, for the rest of a record,
      or for a message that its record cannot hold. */
  lemma NeedMoreExactly(b: seq<byte>)
    ensures ParseRecord(b).NeedMore? <==>
            || |b| < 5
            || (b[0] == HANDSHAKE && BE16(b, 3) >= 4 && |b| < 5 + BE16(b, 3))
            || IsStuck(b)
  {
    hide Dissect, Interpret;
    if |b| >= 5 && BE16(b, 3) >= 4 && |b| >= 5 + BE16(b, 3) {
      var hb := b[5..5 + BE16(b, 3) as int];
      assert hb[0] == b[5] && hb[1] == b[6] && hb[2] == b[7] && hb[3] == b[8];
    }
  }

  /** In the last case it waits in vain. */
  lemma StuckForever(b: seq<byte>, more: seq<byte>)
    requires IsStuck(b)
    ensures IsStuck(b + more) && ParseRecord(b + more).NeedMore?
  {
    hide ParseRecord;
    assert BE16(b + more, 3) == BE16(b, 3);
    NeedMoreExactly(b + more);
  }

  /** Once a buffer is decided, no further bytes change the decision. */
  lemma DecidedIsStable(b: seq<byte>, more: seq<byte>)
    requires !ParseRecord(b).NeedMore?
    ensures ParseRecord(b + more) == ParseRecord(b)
  {
    hide ParseHandshake;
    assert BE16(b + more, 3) == BE16(b, 3);
    var recLen := BE16(b, 3);
    if b[0] == HANDSHAKE && recLen >= 4 {
      assert (b + more)[5..5 + recLen] == b[5..5 + recLen];
    }
  }
}
