/** JA3 and JA4 as texts. The digests are parameters: what is stated here is about the
    strings that are hashed, and holds for every digest function. */
module Fingerprint {
  import opened Options
  import opened Wire
  import opened Text
  import opened Seqs
  import opened HelloFormat

  // ----- GREASE ---------------------------------------------------------------------

  /** v & 0x0f0f == 0x0a0a: both low nibbles are 0xA. */
  predicate IsGrease(v: u16) {
    v % 16 == 10 && v / 256 % 16 == 10
  }

  predicate NotGrease(v: u16) {
    !IsGrease(v)
  }

  /** GREASE is the low nibble 0xA in both bytes, the high nibbles being anything. */
  lemma GreaseNibbles(v: u16, p: nat, q: nat, lo: nat, hi: nat)
    requires p < 16 && q < 16 && lo < 16 && hi < 16
    requires v == p * 4096 + hi * 256 + q * 16 + lo
    ensures IsGrease(v) <==> hi == 10 && lo == 10
  {
    assert v / 16 == p * 256 + hi * 16 + q && v % 16 == lo;
    assert v / 256 == p * 16 + hi;
  }

  /** The sixteen values of section 2 of RFC 8701 are among them, having equal high
      nibbles; 0x1a2a, which is not one of the sixteen, is too. */
  lemma GreaseValues(n: nat)
    requires n < 16
    ensures IsGrease(n * 0x1010 + 0x0a0a)
    ensures IsGrease(0x1a2a) && n * 0x1010 + 0x0a0a != 0x1a2a
  {
    hide IsGrease;
    GreaseNibbles(n * 0x1010 + 0x0a0a, n, n, 10, 10);
    GreaseNibbles(0x1a2a, 1, 2, 10, 10);
  }

  function NonGrease(vs: seq<u16>): seq<u16> {
    Filter(NotGrease, vs)
  }

  // ----- JA3 ------------------------------------------------------------------------

  function Dec16(v: u16): string {
    Decimal(v)
  }

  function Dec8(v: byte): string {
    Decimal(v)
  }

  function DecList(vs: seq<u16>): string {
    Join(Map(Dec16, vs), '-')
  }

  function ByteDecList(vs: seq<byte>): string {
    Join(Map(Dec8, vs), '-')
  }

  function Ja3Fields(h: ClientHello): seq<string> {
    [Decimal(h.legacyVersion), DecList(NonGrease(h.ciphers)), DecList(NonGrease(h.extensions)),
     DecList(NonGrease(h.groups)), ByteDecList(h.pointFormats)]
  }

  /** The string whose MD5 is the JA3 fingerprint. */
  function Ja3Text(h: ClientHello): string {
    Join(Ja3Fields(h), ',')
  }

  lemma JoinFive(a: string, b: string, c: string, d: string, e: string)
    ensures Join([a, b, c, d, e], ',') == a + "," + b + "," + c + "," + d + "," + e
  {
    JoinAppend([a], b, ',');
    JoinAppend([a, b], c, ',');
    JoinAppend([a, b, c], d, ',');
    JoinAppend([a, b, c, d], e, ',');
    assert [a] + [b] == [a, b] && [a, b] + [c] == [a, b, c];
    assert [a, b, c] + [d] == [a, b, c, d] && [a, b, c, d] + [e] == [a, b, c, d, e];
  }

  lemma DecimalsAreFree(v: nat, c: char)
    requires !('0' <= c <= '9')
    ensures c !in Decimal(v)
  {
  }

  lemma DecListExact(xs: seq<u16>, ys: seq<u16>)
    ensures DecList(xs) == DecList(ys) <==> xs == ys
  {
    forall x: u16, y: u16 | Dec16(x) == Dec16(y) ensures x == y {
      DecimalInjective(x, y);
    }
    MapExact(Dec16, xs, ys);
    JoinExactNonEmpty(Map(Dec16, xs), Map(Dec16, ys), '-');
  }

  lemma ByteDecListExact(xs: seq<byte>, ys: seq<byte>)
    ensures ByteDecList(xs) == ByteDecList(ys) <==> xs == ys
  {
    forall x: byte, y: byte | Dec8(x) == Dec8(y) ensures x == y {
      DecimalInjective(x, y);
    }
    MapExact(Dec8, xs, ys);
    JoinExactNonEmpty(Map(Dec8, xs), Map(Dec8, ys), '-');
  }

  lemma Ja3FieldsAreFree(h: ClientHello)
    ensures AllFree(Ja3Fields(h), ',')
  {
    DecimalsAreFree(h.legacyVersion, ',');
    JoinChars(Map(Dec16, NonGrease(h.ciphers)), '-', ',');
    JoinChars(Map(Dec16, NonGrease(h.extensions)), '-', ',');
    JoinChars(Map(Dec16, NonGrease(h.groups)), '-', ',');
    JoinChars(Map(Dec8, h.pointFormats), '-', ',');
  }

  /** Two hellos have the same JA3 text exactly if they agree on the version, the
      ordered non-GREASE ciphers, extensions and groups, and the point formats. */
  lemma Ja3Exact(h1: ClientHello, h2: ClientHello)
    ensures Ja3Text(h1) == Ja3Text(h2) <==>
            && h1.legacyVersion == h2.legacyVersion
            && NonGrease(h1.ciphers) == NonGrease(h2.ciphers)
            && NonGrease(h1.extensions) == NonGrease(h2.extensions)
            && NonGrease(h1.groups) == NonGrease(h2.groups)
            && h1.pointFormats == h2.pointFormats
  {
    var f1, f2 := Ja3Fields(h1), Ja3Fields(h2);
    Ja3FieldsAreFree(h1);
    Ja3FieldsAreFree(h2);
    DecimalInjective(h1.legacyVersion, h2.legacyVersion);
    DecListExact(NonGrease(h1.ciphers), NonGrease(h2.ciphers));
    DecListExact(NonGrease(h1.extensions), NonGrease(h2.extensions));
    DecListExact(NonGrease(h1.groups), NonGrease(h2.groups));
    ByteDecListExact(h1.pointFormats, h2.pointFormats);
    hide DecList, ByteDecList, Join, NonGrease, Decimal;
    if Ja3Text(h1) == Ja3Text(h2) {
      JoinInjective(f1, f2, ',');
      assert f1[0] == f2[0] && f1[1] == f2[1] && f1[2] == f2[2] && f1[3] == f2[3] && f1[4] == f2[4];
    }
  }

  // ----- JA4: the readable part -------------------------------------------------------

  /** The highest version offered, GREASE ignored, or the legacy version. */
  function MaxVersion(vs: seq<u16>, fallback: u16): u16 {
    if vs == [] then fallback
    else
      var ver := MaxVersion(vs[..|vs| - 1], fallback);
      var v := vs[|vs| - 1];
      if !IsGrease(v) && v > ver then v else ver
  }

  lemma {:induction false} MaxVersionIsMax(vs: seq<u16>, fallback: u16)
    ensures var m := MaxVersion(vs, fallback);
            && m >= fallback
            && (m == fallback || (m in vs && !IsGrease(m)))
            && forall v :: v in vs && !IsGrease(v) ==> v <= m
  {
    if vs != [] {
      assert vs == vs[..|vs| - 1] + [vs[|vs| - 1]];
      MaxVersionIsMax(vs[..|vs| - 1], fallback);
    }
  }

  /** Only the set of non-GREASE versions matters. */
  lemma MaxVersionOfSet(xs: seq<u16>, ys: seq<u16>, fallback: u16)
    requires multiset(NonGrease(xs)) == multiset(NonGrease(ys))
    ensures MaxVersion(xs, fallback) == MaxVersion(ys, fallback)
  {
    var m, n := MaxVersion(xs, fallback), MaxVersion(ys, fallback);
    MaxVersionIsMax(xs, fallback);
    MaxVersionIsMax(ys, fallback);
    assert forall v :: v in NonGrease(xs) <==> v in multiset(NonGrease(xs));
    assert forall v :: v in NonGrease(ys) <==> v in multiset(NonGrease(ys));
    FilterMember(NotGrease, xs, m);
    FilterMember(NotGrease, ys, m);
    FilterMember(NotGrease, xs, n);
    FilterMember(NotGrease, ys, n);
  }

  function VersionCode(ver: u16): (s: string)
    ensures |s| == 2 && '_' !in s
  {
    match ver
    case 0x0304 => "13"
    case 0x0303 => "12"
    case 0x0302 => "11"
    case 0x0301 => "10"
    case 0x0300 => "s3"
    case 0x0002 => "s2"
    case 0xfeff => "d1"
    case 0xfefd => "d2"
    case 0xfefc => "d3"
    case _ => "00"
  }

  function CountNonGrease(vs: seq<u16>): (n: nat)
    ensures n <= 99
  {
    if |NonGrease(vs)| > 99 then 99 else |NonGrease(vs)|
  }

  function TwoDigit(n: nat): (s: string)
    requires n <= 99
    ensures |s| == 2 && '_' !in s
  {
    [HexDigit(n / 10), HexDigit(n % 10)]
  }

  predicate IsAlnum(c: char) {
    '0' <= c <= '9' || 'A' <= c <= 'Z' || 'a' <= c <= 'z'
  }

  function Ja4Alpn(vals: seq<string>): (s: string)
    ensures |s| == 2 && '_' !in s
  {
    if vals == [] || vals[0] == "" then "00"
    else
      var v := vals[0];
      if IsAlnum(v[0]) && IsAlnum(v[|v| - 1]) then [v[0], v[|v| - 1]]
      else
        var hs := HexOf(AsBytes(v));
        [hs[0], hs[|hs| - 1]]
  }

  /** Where the ends of the first protocol name are not both alphanumeric, the two
      characters are its first byte's high and its last byte's low hex digit. */
  lemma Ja4AlpnHexEnds(v: string, rest: seq<string>)
    requires v != "" && !(IsAlnum(v[0]) && IsAlnum(v[|v| - 1]))
    ensures Ja4Alpn([v] + rest) == [HexPair(AsBytes(v)[0])[0], HexPair(AsBytes(v)[|v| - 1])[1]]
  {
    hide HexOf, HexPair, AsBytes, IsAlnum;
    HexEnds(AsBytes(v));
    assert ([v] + rest)[0] == v;
  }

  function Ja4A(h: ClientHello): (s: string)
    ensures |s| == 10 && '_' !in s
  {
    "t" + VersionCode(MaxVersion(h.suppVersions, h.legacyVersion))
    + (if h.sni != "" then "d" else "i")
    + TwoDigit(CountNonGrease(h.ciphers)) + TwoDigit(CountNonGrease(h.extensions))
    + Ja4Alpn(h.alpn)
  }

  // ----- JA4: the hashed parts --------------------------------------------------------

  /** fmt.Sprintf("%04x", v) */
  function Hex4(v: u16): (s: string)
    ensures |s| == 4 && ',' !in s && '_' !in s
  {
    [HexDigit(v / 4096), HexDigit(v / 256 % 16), HexDigit(v / 16 % 16), HexDigit(v % 16)]
  }

  function Hex4Value(s: string): int
    requires |s| == 4
  {
    HexValue(s[0]) * 4096 + HexValue(s[1]) * 256 + HexValue(s[2]) * 16 + HexValue(s[3])
  }

  lemma Hex4ReadsBack(v: u16)
    ensures Hex4Value(Hex4(v)) == v
  {
    assert v / 16 == v / 256 * 16 + v / 16 % 16;
    assert v / 256 == v / 4096 * 16 + v / 256 % 16;
  }

  lemma Hex4Injective()
    ensures Injective(Hex4)
  {
    forall x: u16, y: u16 | Hex4(x) == Hex4(y) ensures x == y {
      Hex4ReadsBack(x);
      Hex4ReadsBack(y);
    }
  }

  function SortedHex(vs: seq<u16>): string {
    Join(SortStrings(Map(Hex4, vs)), ',')
  }

  function CipherText(ciphers: seq<u16>): string {
    SortedHex(NonGrease(ciphers))
  }

  predicate CountedType(t: u16) {
    !IsGrease(t) && t != EXT_SNI && t != EXT_ALPN
  }

  function Counted(exts: seq<u16>): seq<u16> {
    Filter(CountedType, exts)
  }

  /** None stands for the all-zero sentinel. */
  function ExtText(exts: seq<u16>, sigAlgs: seq<u16>): Option<string> {
    if Counted(exts) == [] then None
    else Some(SortedHex(Counted(exts)) + if sigAlgs == [] then "" else "_" + Join(Map(Hex4, sigAlgs), ','))
  }

  lemma HexListIsFree(vs: seq<u16>, c: char)
    requires c == ',' || c == '_'
    ensures AllFree(Map(Hex4, vs), c) && AllNonEmpty(Map(Hex4, vs))
  {
  }

  /** A sorted hex list is a canonical form of the multiset of its values. */
  lemma SortedHexExact(xs: seq<u16>, ys: seq<u16>)
    ensures SortedHex(xs) == SortedHex(ys) <==> multiset(xs) == multiset(ys)
  {
    var s, t := Map(Hex4, xs), Map(Hex4, ys);
    HexListIsFree(xs, ',');
    HexListIsFree(ys, ',');
    Hex4Injective();
    MapMultisetExact(Hex4, xs, ys);
    hide Map, Hex4;
    SortKeepsFree(s, ',');
    SortKeepsFree(t, ',');
    SortKeepsNonEmpty(s);
    SortKeepsNonEmpty(t);
    JoinExactNonEmpty(SortStrings(s), SortStrings(t), ',');
    SortIsCanonical(s, t);
  }

  lemma SortedHexHasNoUnderscore(vs: seq<u16>)
    ensures '_' !in SortedHex(vs)
  {
    HexListIsFree(vs, '_');
    SortKeepsFree(Map(Hex4, vs), '_');
    JoinChars(SortStrings(Map(Hex4, vs)), ',', '_');
  }

  lemma HexListExact(xs: seq<u16>, ys: seq<u16>)
    ensures Join(Map(Hex4, xs), ',') == Join(Map(Hex4, ys), ',') <==> xs == ys
  {
    HexListIsFree(xs, ',');
    HexListIsFree(ys, ',');
    Hex4Injective();
    MapExact(Hex4, xs, ys);
    JoinExactNonEmpty(Map(Hex4, xs), Map(Hex4, ys), ',');
  }

  lemma CipherTextExact(c1: seq<u16>, c2: seq<u16>)
    ensures CipherText(c1) == CipherText(c2) <==> multiset(NonGrease(c1)) == multiset(NonGrease(c2))
  {
    SortedHexExact(NonGrease(c1), NonGrease(c2));
  }

  /** An underscore-free head and an optional tail behind an underscore come apart. */
  lemma TailSplits(a: string, s: string, b: string, t: string)
    requires '_' !in a && '_' !in b
    requires s == "" || s[0] == '_'
    requires t == "" || t[0] == '_'
    requires a + s == b + t
    ensures a == b && s == t
  {
    var x, y := a + s, b + t;
    assert forall i :: 0 <= i < |a| ==> x[i] == a[i] && x[i] != '_';
    assert forall i :: 0 <= i < |b| ==> y[i] == b[i] && y[i] != '_';
    assert s != "" ==> x[|a|] == '_';
    assert t != "" ==> y[|b|] == '_';
    assert |a| == |b|;
    assert a == x[..|a|] && b == y[..|b|] && s == x[|a|..] && t == y[|b|..];
  }

  function AlgsTail(sigAlgs: seq<u16>): string {
    if sigAlgs == [] then "" else "_" + Join(Map(Hex4, sigAlgs), ',')
  }

  lemma AlgsTailExact(s1: seq<u16>, s2: seq<u16>)
    ensures AlgsTail(s1) == AlgsTail(s2) <==> s1 == s2
  {
    HexListExact(s1, s2);
    var j1, j2 := Join(Map(Hex4, s1), ','), Join(Map(Hex4, s2), ',');
    if s1 != [] && s2 != [] && AlgsTail(s1) == AlgsTail(s2) {
      assert j1 == ("_" + j1)[1..] && j2 == ("_" + j2)[1..];
    }
  }

  /** Two hellos have the same JA4 extension text exactly if they count the same
      extension types and, unless there are none, list the same signature algorithms
      in the same order. */
  lemma ExtTextExact(e1: seq<u16>, s1: seq<u16>, e2: seq<u16>, s2: seq<u16>)
    ensures ExtText(e1, s1) == ExtText(e2, s2) <==>
            && multiset(Counted(e1)) == multiset(Counted(e2))
            && (Counted(e1) == [] || s1 == s2)
  {
    var a, b := Counted(e1), Counted(e2);
    assert a == [] <==> multiset(a) == multiset{} by {
      assert a != [] ==> a[0] in multiset(a);
    }
    assert b == [] <==> multiset(b) == multiset{} by {
      assert b != [] ==> b[0] in multiset(b);
    }
    SortedHexExact(a, b);
    AlgsTailExact(s1, s2);
    SortedHexHasNoUnderscore(a);
    SortedHexHasNoUnderscore(b);
    hide SortedHex, Map, Join, Counted;
    if ExtText(e1, s1) == ExtText(e2, s2) && a != [] {
      TailSplits(SortedHex(a), AlgsTail(s1), SortedHex(b), AlgsTail(s2));
    }
  }

  // ----- JA4: the whole ---------------------------------------------------------------

  const ZEROS := "000000000000"

  /** A SHA-256 in hexadecimal: 64 hex characters for every input. */
  ghost predicate IsDigest(sha: string -> string) {
    forall s :: |sha(s)| == 64 && '_' !in sha(s)
  }

  function Ja4Hash(sha: string -> string, s: string): (r: string)
    requires |sha(s)| >= 12
    ensures |r| == 12
  {
    if s == "" then ZEROS else sha(s)[..12]
  }

  function Ja4(sha: string -> string, h: ClientHello): string
    requires forall s :: |sha(s)| >= 12
  {
    Ja4A(h) + "_" + Ja4Hash(sha, CipherText(h.ciphers)) + "_"
    + match ExtText(h.extensions, h.sigAlgs) case None => ZEROS case Some(s) => Ja4Hash(sha, s)
  }

  /** Every JA4 has 36 characters, with underscores at 10 and 23 and nowhere else. */
  lemma Ja4Shape(sha: string -> string, h: ClientHello)
    requires IsDigest(sha)
    ensures |Ja4(sha, h)| == 36
    ensures forall i :: 0 <= i < 36 ==> (Ja4(sha, h)[i] == '_' <==> i == 10 || i == 23)
  {
    hide Ja4A, CipherText, ExtText;
    var b := Ja4Hash(sha, CipherText(h.ciphers));
    var c := match ExtText(h.extensions, h.sigAlgs) case None => ZEROS case Some(s) => Ja4Hash(sha, s);
    assert '_' !in b && '_' !in c;
    assert Ja4(sha, h) == Ja4A(h) + "_" + b + "_" + c;
  }

  /** For a parsed hello the all-zero extension hash never hides signature
      algorithms: where there are some, their own extension is counted. */
  lemma SentinelHidesNothing(b: seq<byte>)
    requires ParseRecord(b).Done?
    ensures var h := ParseRecord(b).hello;
            h.sigAlgs != [] ==> EXT_SIG_ALGS in Counted(h.extensions) && ExtText(h.extensions, h.sigAlgs).Some?
  {
    BodyHasSigAlgs(HelloBytes(b));
  }

  lemma BodyHasSigAlgs(body: seq<byte>)
    requires ParseBody(body).Done?
    ensures var h := ParseBody(body).hello;
            h.sigAlgs != [] ==> EXT_SIG_ALGS in Counted(h.extensions) && ExtText(h.extensions, h.sigAlgs).Some?
  {
    var (w, _) := Dissect(body).value;
    hide Dissect, SortedHex, Join;
    assert ParseBody(body).hello == Interpret(w.version, w.ciphers, w.entries);
    ExtDataKeys(w.entries, EXT_SIG_ALGS);
    FilterMember(CountedType, Types(w.entries), EXT_SIG_ALGS);
    assert ParseU16List2([]) == [];
  }
}
