/** The wire encoder that pairs with the parser: a record holding one ClientHello,
    and the extensions it can carry. Lengths are truncated to their fields' width,
    as the conversions byte(n) and uint16(n) do. */
module HelloBuilder {
  import opened Options
  import opened Wire
  import opened HelloFormat

  datatype Builder = Builder(
    recordVersion: u16,
    legacyVersion: u16,
    sessionId: seq<byte>,
    ciphers: seq<u16>,
    compressions: seq<byte>,
    extensions: seq<Entry>)

  function Zeros(n: nat): (z: seq<byte>)
    ensures |z| == n
  {
    seq(n, _ => 0)
  }

  function BodyOf(b: Builder): Body {
    Body(b.legacyVersion, Zeros(32), b.sessionId, b.ciphers, b.compressions, b.extensions)
  }

  function Handshake(body: seq<byte>): seq<byte> {
    [CLIENT_HELLO, |body| / 65536 % 256, |body| / 256 % 256, |body| % 256] + body
  }

  function Record(version: u16, fragment: seq<byte>): seq<byte> {
    [HANDSHAKE] + U16Bytes(version) + Vec16(fragment)
  }

  function Build(b: Builder): seq<byte> {
    Record(b.recordVersion, Handshake(EncodeBody(BodyOf(b))))
  }

  /** Every length fits its field. */
  ghost predicate Fits(b: Builder) {
    && |b.sessionId| < 256
    && 1 <= |b.ciphers| < 32768
    && 1 <= |b.compressions| < 256
    && EntriesFit(b.extensions)
    && |EncodeEntries(b.extensions)| < 65536
    && |Handshake(EncodeBody(BodyOf(b)))| < 65536
  }

  lemma RecordReadsBack(version: u16, body: seq<byte>)
    requires 4 + |body| < 65536
    ensures ParseRecord(Record(version, Handshake(body))) == ParseBody(body)
  {
    hide ParseBody;
    var hb := Handshake(body);
    var b := Record(version, hb);
    assert b[3..5] == U16Bytes(|hb|);
    assert BE16(b, 3) == BE16(b[3..5], 0) == |hb|;
    assert b[5..5 + |hb|] == hb;
    assert hb[4..4 + |body|] == body;
  }

  /** Encode then parse: exactly the builder's version, ciphers and extensions. */
  lemma RoundTrip(b: Builder)
    requires Fits(b)
    ensures ParseRecord(Build(b)) == Done(Interpret(b.legacyVersion, b.ciphers, b.extensions))
  {
    var w := BodyOf(b);
    RecordReadsBack(b.recordVersion, EncodeBody(w));
    hide EncodeBody, Dissect, Interpret;
    DissectComplete(w, []);
    assert EncodeBody(w) + [] == EncodeBody(w);
  }

  // ----- extensions by meaning ------------------------------------------------------

  datatype Ext =
    | Sni(name: string)
    | Alpn(protocols: seq<string>)
    | SigAlgs(algs: seq<u16>)
    | Versions(versions: seq<u16>)
    | Groups(groups: seq<u16>)
    | PointFormats(formats: seq<byte>)
    | Raw(typ: u16, data: seq<byte>)

  function SniList(name: string): seq<byte> {
    [0] + Vec16(AsBytes(name))
  }

  ghost predicate AllByteStrings(ps: seq<string>) {
    forall i :: 0 <= i < |ps| ==> IsByteString(ps[i])
  }

  function AlpnList(ps: seq<string>): seq<byte> {
    if ps == [] then [] else Vec8(AsBytes(ps[0])) + AlpnList(ps[1..])
  }

  ghost predicate IsText(e: Ext) {
    match e
    case Sni(name) => IsByteString(name)
    case Alpn(ps) => AllByteStrings(ps)
    case _ => true
  }

  function EntryOf(e: Ext): Entry {
    match e
    case Sni(name) => Entry(EXT_SNI, Vec16(SniList(name)))
    case Alpn(ps) => Entry(EXT_ALPN, Vec16(AlpnList(ps)))
    case SigAlgs(vs) => Entry(EXT_SIG_ALGS, Vec16(EncodeU16s(vs)))
    case Versions(vs) => Entry(EXT_VERSIONS, Vec8(EncodeU16s(vs)))
    case Groups(vs) => Entry(EXT_GROUPS, Vec16(EncodeU16s(vs)))
    case PointFormats(ps) => Entry(EXT_POINT_FORMATS, Vec8(ps))
    case Raw(typ, data) => Entry(typ, data)
  }

  ghost predicate ExtFits(e: Ext) {
    match e
    case Sni(name) => |SniList(name)| < 65536
    case Alpn(ps) => |AlpnList(ps)| < 65536 && forall i :: 0 <= i < |ps| ==> |ps[i]| < 256
    case SigAlgs(vs) => |vs| < 32768
    case Versions(vs) => |vs| < 128
    case Groups(vs) => |vs| < 32768
    case PointFormats(ps) => |ps| < 256
    case Raw(_, data) => |data| < 65536
  }

  /** The hello reports what the extension says. */
  ghost predicate Reports(h: ClientHello, e: Ext) {
    match e
    case Sni(name) => h.sni == name
    case Alpn(ps) => h.alpn == ps
    case SigAlgs(vs) => h.sigAlgs == vs
    case Versions(vs) => h.suppVersions == vs
    case Groups(vs) => h.groups == vs
    case PointFormats(ps) => h.pointFormats == ps
    case Raw(typ, data) => typ in h.extData && h.extData[typ] == data
  }

  lemma SniReadsBack(name: string)
    requires IsByteString(name) && |SniList(name)| < 65536
    ensures ParseSni(Vec16(SniList(name))) == name
  {
    var list := SniList(name);
    var d := AsBytes(name);
    Vec16Exact(Vec16(list), list, []);
    assert Vec16(list) == Vec16(list) + [];
    assert list[1..3] == U16Bytes(|d|);
    assert BE16(list, 1) == BE16(list[1..3], 0) == |d|;
    assert list[3..3 + |d|] == d;
    StringOfBytes(name);
  }

  lemma {:induction false} AlpnNamesReadBack(ps: seq<string>)
    requires AllByteStrings(ps) && forall i :: 0 <= i < |ps| ==> |ps[i]| < 256
    ensures AlpnNames(AlpnList(ps)) == Some(ps)
  {
    if ps != [] {
      var list := AlpnList(ps);
      assert list == Vec8(AsBytes(ps[0])) + AlpnList(ps[1..]);
      Vec8Exact(list, AsBytes(ps[0]), AlpnList(ps[1..]));
      hide TakeVec8, Vec8;
      AlpnNamesReadBack(ps[1..]);
      StringOfBytes(ps[0]);
      assert list != [];
      assert ps == [ps[0]] + ps[1..];
    }
  }

  lemma WholeVec16(x: seq<byte>)
    requires |x| < 65536
    ensures TakeVec16(Vec16(x)) == Some((x, []))
  {
    Vec16Exact(Vec16(x), x, []);
    assert Vec16(x) == Vec16(x) + [];
  }

  lemma WholeVec8(x: seq<byte>)
    requires |x| < 256
    ensures TakeVec8(Vec8(x)) == Some((x, []))
  {
    Vec8Exact(Vec8(x), x, []);
    assert Vec8(x) == Vec8(x) + [];
  }

  /** Each extension decodes to what it was made from. */
  lemma ExtReadsBack(version: u16, ciphers: seq<u16>, es: seq<Entry>, e: Ext)
    requires IsText(e) && ExtFits(e)
    requires EntryOf(e).typ in ExtData(es) && ExtData(es)[EntryOf(e).typ] == EntryOf(e).data
    ensures Reports(Interpret(version, ciphers, es), e)
  {
    hide ExtData, TakeVec8, TakeVec16, Vec8, Vec16;
    match e {
      case Sni(name) => SniReadsBack(name);
      case Alpn(ps) => WholeVec16(AlpnList(ps)); AlpnNamesReadBack(ps);
      case SigAlgs(vs) => WholeVec16(EncodeU16s(vs)); DecodeOfEncode(vs);
      case Versions(vs) => WholeVec8(EncodeU16s(vs)); DecodeOfEncode(vs);
      case Groups(vs) => WholeVec16(EncodeU16s(vs)); DecodeOfEncode(vs);
      case PointFormats(ps) => WholeVec8(ps);
      case Raw(_, _) =>
    }
  }

  /** An extension that is the last of its type comes back from the wire as it was
      built, whatever stands before and after it. */
  lemma RoundTripExt(b: Builder, i: nat, e: Ext)
    requires Fits(b) && i < |b.extensions|
    requires IsText(e) && ExtFits(e) && b.extensions[i] == EntryOf(e)
    requires forall j :: i < j < |b.extensions| ==> b.extensions[j].typ != b.extensions[i].typ
    ensures var r := ParseRecord(Build(b)); r.Done? && Reports(r.hello, e)
  {
    hide ParseRecord, Build, Interpret, Reports;
    RoundTrip(b);
    LastWins(b.extensions, i);
    ExtReadsBack(b.legacyVersion, b.ciphers, b.extensions, e);
  }

  /** A type that was not sent is reported as absent. */
  lemma AbsentExt(b: Builder)
    requires Fits(b)
    ensures var r := ParseRecord(Build(b));
            && r.Done?
            && r.hello.legacyVersion == b.legacyVersion
            && r.hello.ciphers == b.ciphers
            && r.hello.extensions == Types(b.extensions)
            && (0x0000 !in Types(b.extensions) ==> r.hello.sni == "")
            && (0x0010 !in Types(b.extensions) ==> r.hello.alpn == [])
            && (0x000d !in Types(b.extensions) ==> r.hello.sigAlgs == [])
            && (0x002b !in Types(b.extensions) ==> r.hello.suppVersions == [])
            && (0x000a !in Types(b.extensions) ==> r.hello.groups == [])
            && (0x000b !in Types(b.extensions) ==> r.hello.pointFormats == [])
  {
    hide ParseRecord, Build;
    RoundTrip(b);
    var es := b.extensions;
    ExtDataKeys(es, EXT_SNI);
    ExtDataKeys(es, EXT_ALPN);
    ExtDataKeys(es, EXT_SIG_ALGS);
    ExtDataKeys(es, EXT_VERSIONS);
    ExtDataKeys(es, EXT_GROUPS);
    ExtDataKeys(es, EXT_POINT_FORMATS);
  }

  // ----- the encoder as it is written -------------------------------------------------

  /** A 2-byte-length-prefixed list of 16-bit values, filled by index. */
  method U16List(vals: seq<u16>) returns (b: array<byte>)
    ensures fresh(b) && b[..] == Vec16(EncodeU16s(vals))
  {
    b := new byte[2 + 2 * |vals|];
    PutUint16(b, 0, 2 * |vals|);
    assert EncodeU16s(vals[..0]) == [];
    for i := 0 to |vals|
      invariant b[..2] == U16Bytes(2 * |vals|)
      invariant b[2..2 + 2 * i] == EncodeU16s(vals[..i])
    {
      PutUint16(b, 2 + 2 * i, vals[i]);
      EncodeSnoc(vals, i);
      assert b[2..2 + 2 * i + 2] == b[2..2 + 2 * i] + b[2 + 2 * i..2 + 2 * i + 2];
    }
    assert vals[..|vals|] == vals;
    assert b[..] == b[..2] + b[2..2 + 2 * |vals|];
  }

  /** A 1-byte-length-prefixed list of 16-bit values. */
  method U8List16(vals: seq<u16>) returns (b: array<byte>)
    ensures fresh(b) && b[..] == Vec8(EncodeU16s(vals))
  {
    b := new byte[1 + 2 * |vals|];
    b[0] := 2 * |vals| % 256;
    assert EncodeU16s(vals[..0]) == [];
    for i := 0 to |vals|
      invariant b[0] == 2 * |vals| % 256
      invariant b[1..1 + 2 * i] == EncodeU16s(vals[..i])
    {
      PutUint16(b, 1 + 2 * i, vals[i]);
      EncodeSnoc(vals, i);
      assert b[1..1 + 2 * i + 2] == b[1..1 + 2 * i] + b[1 + 2 * i..1 + 2 * i + 2];
    }
    assert vals[..|vals|] == vals;
    assert b[..] == [b[0]] + b[1..1 + 2 * |vals|];
  }

  method PutUint16(b: array<byte>, i: nat, n: nat)
    requires i + 2 <= b.Length
    modifies b
    ensures b[..] == old(b[..])[..i] + U16Bytes(n) + old(b[..])[i + 2..]
    ensures b[i..i + 2] == U16Bytes(n)
    ensures forall j, k :: 0 <= j <= k <= i ==> b[j..k] == old(b[j..k])
  {
    b[i], b[i + 1] := n / 256 % 256, n % 256;
  }

  /** Appends protocol names one by one. */
  method AlpnBytes(ps: seq<string>) returns (body: seq<byte>)
    ensures body == AlpnList(ps)
  {
    body := [];
    for i := 0 to |ps|
      invariant body + AlpnList(ps[i..]) == AlpnList(ps)
    {
      ghost var rest := AlpnList(ps[i + 1..]);
      assert ps[i..][1..] == ps[i + 1..];
      assert AlpnList(ps[i..]) == Vec8(AsBytes(ps[i])) + rest;
      Assoc(body, Vec8(AsBytes(ps[i])), rest);
      Assoc(body, [|ps[i]| % 256], AsBytes(ps[i]));
      body := body + [|ps[i]| % 256];
      body := body + AsBytes(ps[i]);
    }
  }

  /** The server name extension's data, filled by index. */
  method SniData(name: string) returns (data: array<byte>)
    ensures fresh(data) && data[..] == EntryOf(Sni(name)).data
  {
    var d := AsBytes(name);
    var inner := [0] + U16Bytes(|name|);
    Assoc([0], U16Bytes(|name|), d);
    inner := inner + d;
    data := new byte[2 + |inner|];
    PutUint16(data, 0, |inner|);
    forall i | 0 <= i < |inner| {
      data[2 + i] := inner[i];
    }
    assert data[..] == data[..2] + data[2..2 + |inner|];
  }

  lemma Assoc(x: seq<byte>, y: seq<byte>, z: seq<byte>)
    ensures x + y + z == x + (y + z)
  {
  }

  lemma Assoc4(x: seq<byte>, y: seq<byte>, z: seq<byte>, rest: seq<byte>)
    ensures x + y + z + rest == x + ((y + z) + rest)
  {
  }

  /** The body buffer, written front to back. */
  method WriteBody(b: Builder) returns (body: seq<byte>)
    ensures body == EncodeBody(BodyOf(b))
  {
    body := U16Bytes(b.legacyVersion);
    body := body + Zeros(32);
    ghost var x0 := body;
    body := body + [|b.sessionId| % 256];
    body := body + b.sessionId;
    ghost var x1 := body;
    var ciphers := WriteCiphers(b.ciphers);
    body := body + U16Bytes(2 * |b.ciphers|);
    body := body + ciphers;
    ghost var x2 := body;
    body := body + [|b.compressions| % 256];
    body := body + b.compressions;
    ghost var x3 := body;
    var ext := WriteEntries(b.extensions);
    body := body + U16Bytes(|ext|);
    body := body + ext;

    ghost var w := BodyOf(b);
    hide EncodeU16s, EncodeEntries;
    Assoc(x3, U16Bytes(|ext|), ext);
    Assoc4(x2, [|b.compressions| % 256], b.compressions, Vec16(ext));
    Assoc4(x1, U16Bytes(2 * |b.ciphers|), ciphers, AfterCiphers(w));
    Assoc4(x0, [|b.sessionId| % 256], b.sessionId, AfterSession(w));
  }

  method WriteCiphers(ciphers: seq<u16>) returns (out: seq<byte>)
    ensures out == EncodeU16s(ciphers)
  {
    out := [];
    assert EncodeU16s(ciphers[..0]) == [];
    for i := 0 to |ciphers|
      invariant out == EncodeU16s(ciphers[..i])
    {
      out := out + U16Bytes(ciphers[i]);
      EncodeSnoc(ciphers, i);
    }
    assert ciphers[..|ciphers|] == ciphers;
  }

  /** The handshake and record buffers around it. */
  method WriteHello(b: Builder) returns (out: seq<byte>)
    ensures out == Build(b)
  {
    var body := WriteBody(b);
    hide EncodeBody;
    var hs := [CLIENT_HELLO];
    hs := hs + [|body| / 65536 % 256];
    hs := hs + [|body| / 256 % 256];
    hs := hs + [|body| % 256];
    hs := hs + body;
    out := [HANDSHAKE];
    out := out + U16Bytes(b.recordVersion);
    Assoc(out, U16Bytes(|hs|), hs);
    out := out + U16Bytes(|hs|);
    out := out + hs;
  }

  method WriteEntries(es: seq<Entry>) returns (ext: seq<byte>)
    ensures ext == EncodeEntries(es)
  {
    ext := [];
    for i := 0 to |es|
      invariant ext + EncodeEntries(es[i..]) == EncodeEntries(es)
    {
      ghost var rest := EncodeEntries(es[i + 1..]);
      assert es[i..][1..] == es[i + 1..];
      Assoc(ext, EncodeEntry(es[i]), rest);
      Assoc(ext, U16Bytes(es[i].typ), Vec16(es[i].data));
      Assoc(ext + U16Bytes(es[i].typ), U16Bytes(|es[i].data|), es[i].data);
      ext := ext + U16Bytes(es[i].typ);
      ext := ext + U16Bytes(|es[i].data|);
      ext := ext + es[i].data;
    }
  }
}
