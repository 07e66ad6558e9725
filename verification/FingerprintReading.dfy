/** What a reader finds in a fingerprint: every part of the hashed texts and of the JA4,
    described by its characters and not by how it is written. */
module FingerprintReading {
  import opened Options
  import opened Text
  import opened Wire
  import opened Seqs
  import opened HelloFormat
  import opened Fingerprint
  import O = Ja4Order

  // ----- which values are kept ------------------------------------------------------------

  /** Both low nibbles are 0xA. */
  predicate Greased(v: u16) {
    v % 16 == 0xa && v / 256 % 16 == 0xa
  }

  /** The kept values are those at the places `idx`, in order, and those places are exactly the
      ones that are to be kept. */
  ghost predicate Selects(idx: seq<nat>, vs: seq<u16>, kept: seq<u16>, keep: u16 -> bool) {
    && |idx| == |kept|
    && (forall i, j :: 0 <= i < j < |idx| ==> idx[i] < idx[j])
    && (forall k :: 0 <= k < |idx| ==> idx[k] < |vs| && kept[k] == vs[idx[k]])
    && (forall i :: 0 <= i < |vs| ==> (i in idx <==> keep(vs[i])))
  }

  ghost predicate IsPart(vs: seq<u16>, kept: seq<u16>, keep: u16 -> bool) {
    exists idx :: Selects(idx, vs, kept, keep)
  }

  lemma {:induction false} FilterSelects(p: u16 -> bool, vs: seq<u16>) returns (idx: seq<nat>)
    ensures Selects(idx, vs, Filter(p, vs), p)
  {
    if vs == [] {
      idx := [];
    } else {
      var init, v := vs[..|vs| - 1], vs[|vs| - 1];
      assert vs == init + [v];
      var before := FilterSelects(p, init);
      idx := before + if p(v) then [|init|] else [];
      hide Selects;
      SelectsMore(before, init, Filter(p, init), p, v);
      assert before + [] == before && Filter(p, init) + [] == Filter(p, init);
    }
  }

  lemma SelectsMore(idx: seq<nat>, vs: seq<u16>, kept: seq<u16>, keep: u16 -> bool, v: u16)
    requires Selects(idx, vs, kept, keep)
    ensures keep(v) ==> Selects(idx + [|vs|], vs + [v], kept + [v], keep)
    ensures !keep(v) ==> Selects(idx, vs + [v], kept, keep)
  {
    var next, all := idx + [|vs|], vs + [v];
    assert forall i :: 0 <= i < |vs| ==> all[i] == vs[i];
    assert forall k :: 0 <= k < |idx| ==> next[k] == idx[k];
    assert next[|idx|] == |vs|;
    assert forall i :: i in idx ==> i < |vs|;
    assert forall i :: i in next <==> i in idx || i == |vs|;
  }

  ghost predicate IsNonGrease(vs: seq<u16>, kept: seq<u16>) {
    IsPart(vs, kept, (v: u16) => !Greased(v))
  }

  lemma NonGreaseIs(vs: seq<u16>)
    ensures IsNonGrease(vs, NonGrease(vs))
  {
    var idx := FilterSelects(NotGrease, vs);
    assert Selects(idx, vs, NonGrease(vs), (v: u16) => !Greased(v));
  }

  // ----- numbers and lists of numbers in decimal --------------------------------------------

  /** Digits that spell the number, without leading zeros. */
  predicate Spells(s: string, n: int) {
    && s != "" && (forall i :: 0 <= i < |s| ==> '0' <= s[i] <= '9')
    && DecimalValue(s) == n && (s[0] == '0' ==> |s| == 1)
  }

  /** The numbers in order with dashes between them; nothing for none. */
  ghost predicate Dashed(s: string, ns: seq<int>)
    decreases |ns|
  {
    if ns == [] then s == ""
    else if |ns| == 1 then Spells(s, ns[0])
    else exists k :: 0 <= k < |s| && s[k] == '-' && Spells(s[..k], ns[0]) && Dashed(s[k + 1..], ns[1..])
  }

  lemma {:induction false} DecimalSpells(n: nat)
    ensures Spells(Decimal(n), n)
  {
    DecimalReadsBack(n);
    if n >= 10 {
      DecimalSpells(n / 10);
      assert Decimal(n)[0] == Decimal(n / 10)[0];
      NotZero(n / 10);
    }
  }

  lemma {:induction false} NotZero(n: nat)
    requires n > 0
    ensures Decimal(n)[0] != '0'
  {
    if n >= 10 {
      NotZero(n / 10);
    }
  }

  lemma {:induction false} JoinIsDashed(parts: seq<string>, ns: seq<int>)
    requires |parts| == |ns| && forall i :: 0 <= i < |ns| ==> Spells(parts[i], ns[i])
    ensures Dashed(Join(parts, '-'), ns)
    decreases |ns|
  {
    hide Spells;
    if |ns| > 1 {
      JoinIsDashed(parts[1..], ns[1..]);
      var s, k := Join(parts, '-'), |parts[0]|;
      assert s[..k] == parts[0] && s[k] == '-' && s[k + 1..] == Join(parts[1..], '-');
    }
  }

  lemma DecListDashed(vs: seq<u16>)
    ensures Dashed(DecList(vs), vs)
  {
    var parts := Map(Dec16, vs);
    forall i | 0 <= i < |vs| ensures Spells(parts[i], vs[i]) {
      DecimalSpells(vs[i]);
    }
    JoinIsDashed(parts, vs);
  }

  lemma ByteDecListDashed(vs: seq<byte>)
    ensures Dashed(ByteDecList(vs), vs)
  {
    var parts := Map(Dec8, vs);
    forall i | 0 <= i < |vs| ensures Spells(parts[i], vs[i]) {
      DecimalSpells(vs[i]);
    }
    JoinIsDashed(parts, vs);
  }

  // ----- JA3 ----------------------------------------------------------------------------

  /** Five parts between commas: the version, then the non-GREASE ciphers, extensions and
      groups and all the point formats, each list in its order. */
  ghost predicate ReadsAsJa3(s: string, h: ClientHello) {
    exists a: string, b: string, c: string, d: string, e: string,
           ciphers: seq<u16>, extensions: seq<u16>, groups: seq<u16> ::
      && s == a + "," + b + "," + c + "," + d + "," + e
      && ',' !in a && ',' !in b && ',' !in c && ',' !in d && ',' !in e
      && IsNonGrease(h.ciphers, ciphers) && IsNonGrease(h.extensions, extensions) && IsNonGrease(h.groups, groups)
      && Spells(a, h.legacyVersion)
      && Dashed(b, ciphers) && Dashed(c, extensions) && Dashed(d, groups) && Dashed(e, h.pointFormats)
  }

  /** The text that is hashed for JA3, for every hello. */
  lemma Ja3Reads(h: ClientHello)
    ensures ReadsAsJa3(Ja3Text(h), h)
  {
    var f, ciphers := Ja3Fields(h), NonGrease(h.ciphers);
    var extensions, groups := NonGrease(h.extensions), NonGrease(h.groups);
    Ja3FieldsAreFree(h);
    assert f[0] == Decimal(h.legacyVersion) && f[1] == DecList(ciphers) && f[2] == DecList(extensions);
    assert f[3] == DecList(groups) && f[4] == ByteDecList(h.pointFormats);
    NonGreaseIs(h.ciphers);
    NonGreaseIs(h.extensions);
    NonGreaseIs(h.groups);
    DecimalSpells(h.legacyVersion);
    DecListDashed(ciphers);
    DecListDashed(extensions);
    DecListDashed(groups);
    ByteDecListDashed(h.pointFormats);
    JoinFive(f[0], f[1], f[2], f[3], f[4]);
    hide Ja3Fields, DecList, ByteDecList, Decimal, Join, NonGrease, Spells, Dashed, IsNonGrease;
    assert f == [f[0], f[1], f[2], f[3], f[4]];
  }

  // ----- hexadecimal -----------------------------------------------------------------------

  /** Four lower-case digits that spell the value. */
  predicate IsHex4(s: string, v: u16) {
    s == [HEX[v / 4096], HEX[v / 256 % 16], HEX[v / 16 % 16], HEX[v % 16]]
  }

  const HEX := "0123456789abcdef"

  /** The values in order with commas between them; nothing for none. */
  predicate Commas(s: string, vs: seq<u16>)
    decreases |vs|
  {
    if vs == [] then s == ""
    else if |vs| == 1 then IsHex4(s, vs[0])
    else |s| > 5 && IsHex4(s[..4], vs[0]) && s[4] == ',' && Commas(s[5..], vs[1..])
  }

  lemma DigitIsHex(n: nat)
    requires n < 16
    ensures HexDigit(n) == HEX[n]
  {
  }

  lemma Hex4IsHex4(v: u16)
    ensures IsHex4(Hex4(v), v)
  {
    DigitIsHex(v / 4096);
    DigitIsHex(v / 256 % 16);
    DigitIsHex(v / 16 % 16);
    DigitIsHex(v % 16);
  }

  lemma {:induction false} HexListCommas(vs: seq<u16>)
    ensures Commas(Join(Map(Hex4, vs), ','), vs)
    decreases |vs|
  {
    hide IsHex4, Hex4;
    if vs != [] {
      Hex4IsHex4(vs[0]);
      var parts := Map(Hex4, vs);
      assert parts[0] == Hex4(vs[0]);
      if |vs| > 1 {
        HexListCommas(vs[1..]);
        assert parts[1..] == Map(Hex4, vs[1..]);
        var s := Join(parts, ',');
        assert s == parts[0] + [','] + Join(parts[1..], ',');
        assert s[..4] == parts[0] && s[4] == ',' && s[5..] == Join(parts[1..], ',');
        NonEmptyJoin(vs[1..]);
      }
    }
  }

  lemma NonEmptyJoin(vs: seq<u16>)
    requires vs != []
    ensures |Join(Map(Hex4, vs), ',')| > 0
  {
    HexListIsFree(vs, ',');
    JoinIsEmpty(Map(Hex4, vs), ',');
    assert Map(Hex4, vs)[0] != "";
  }

  ghost predicate Ascending(vs: seq<u16>) {
    forall i, j :: 0 <= i < j < |vs| ==> vs[i] <= vs[j]
  }

  lemma DigitOrder(m: nat, n: nat)
    requires m < 16 && n < 16
    ensures HexDigit(m) < HexDigit(n) <==> m < n
  {
  }

  /** The order of the texts is the order of the values. */
  lemma HexOrder(v: u16, w: u16)
    requires LexLe(Hex4(v), Hex4(w))
    ensures v <= w
  {
    var a, b := Hex4(v), Hex4(w);
    DigitOrder(v / 4096, w / 4096);
    DigitOrder(v / 256 % 16, w / 256 % 16);
    DigitOrder(v / 16 % 16, w / 16 % 16);
    DigitOrder(v % 16, w % 16);
    assert a[1..][0] == a[1] && b[1..][0] == b[1];
    assert a[1..][1..] == a[2..] && b[1..][1..] == b[2..] && a[2..][1..] == a[3..] && b[2..][1..] == b[3..];
    Digits(v);
    Digits(w);
    hide HexDigit;
    assert LexLe(a, b) ==> a[0] < b[0] || (a[0] == b[0] && LexLe(a[1..], b[1..]));
    assert LexLe(a[1..], b[1..]) ==> a[1] < b[1] || (a[1] == b[1] && LexLe(a[2..], b[2..]));
    assert LexLe(a[2..], b[2..]) ==> a[2] < b[2] || (a[2] == b[2] && LexLe(a[3..], b[3..]));
    assert LexLe(a[3..], b[3..]) ==> a[3] <= b[3];
  }

  lemma Digits(v: u16)
    ensures v == v / 4096 * 4096 + v / 256 % 16 * 256 + v / 16 % 16 * 16 + v % 16
  {
    assert v / 16 == v / 256 * 16 + v / 16 % 16;
    assert v / 256 == v / 4096 * 16 + v / 256 % 16;
  }

  /** The values of a sorted hex list, ascending, and the same as often as among `vs`. */
  ghost predicate ReadsSorted(s: string, vs: seq<u16>) {
    exists sorted: seq<u16> :: multiset(sorted) == multiset(vs) && Ascending(sorted) && Commas(s, sorted)
  }

  function Hex4Back(s: string): u16 {
    if |s| == 4 && 0 <= Hex4Value(s) < 65536 then Hex4Value(s) else 0
  }

  lemma HexBack(vs: seq<u16>) returns (sorted: seq<u16>)
    ensures SortStrings(Map(Hex4, vs)) == Map(Hex4, sorted)
  {
    var ss := SortStrings(Map(Hex4, vs));
    sorted := Map(Hex4Back, ss);
    forall i | 0 <= i < |ss| ensures ss[i] == Hex4(sorted[i]) {
      assert ss[i] in multiset(ss);
      assert ss[i] in multiset(Map(Hex4, vs));
      var j :| 0 <= j < |vs| && ss[i] == Hex4(vs[j]);
      Hex4ReadsBack(vs[j]);
    }
  }

  lemma SortedHexReads(vs: seq<u16>)
    ensures ReadsSorted(SortedHex(vs), vs)
  {
    var sorted := HexBack(vs);
    var ss := SortStrings(Map(Hex4, vs));
    Hex4Injective();
    MapMultisetExact(Hex4, sorted, vs);
    HexListCommas(sorted);
    hide Hex4, Commas, Join;
    forall i, j | 0 <= i < j < |sorted| ensures sorted[i] <= sorted[j] {
      assert ss[i] == Hex4(sorted[i]) && ss[j] == Hex4(sorted[j]);
      HexOrder(sorted[i], sorted[j]);
    }
  }

  // ----- JA4 ----------------------------------------------------------------------------

  /** The greatest of the legacy version and the offers that are not GREASE. */
  ghost predicate IsGreatest(m: u16, offers: seq<u16>, legacy: u16) {
    && legacy <= m
    && (m == legacy || (m in offers && !Greased(m)))
    && forall v :: v in offers && !Greased(v) ==> v <= m
  }

  ghost predicate ReadsAsVersion(s: string, offers: seq<u16>, legacy: u16) {
    exists m :: IsGreatest(m, offers, legacy)
      && (s == "13" <==> m == 0x0304)
      && (s == "12" <==> m == 0x0303)
      && (s == "11" <==> m == 0x0302)
      && (s == "10" <==> m == 0x0301)
      && (s == "s3" <==> m == 0x0300)
      && (s == "s2" <==> m == 0x0002)
      && (s == "d1" <==> m == 0xfeff)
      && (s == "d2" <==> m == 0xfefd)
      && (s == "d3" <==> m == 0xfefc)
      && (s == "00" <==> m !in {0x0304, 0x0303, 0x0302, 0x0301, 0x0300, 0x0002, 0xfeff, 0xfefd, 0xfefc})
  }

  lemma VersionReads(offers: seq<u16>, legacy: u16)
    ensures ReadsAsVersion(VersionCode(MaxVersion(offers, legacy)), offers, legacy)
  {
    var m := MaxVersion(offers, legacy);
    MaxVersionIsMax(offers, legacy);
    hide MaxVersion;
    assert IsGreatest(m, offers, legacy);
    hide IsGreatest;
    CodesApart(m);
  }

  lemma CodesApart(m: u16)
    ensures var s := VersionCode(m);
            && (s == "13" <==> m == 0x0304) && (s == "12" <==> m == 0x0303) && (s == "11" <==> m == 0x0302)
            && (s == "10" <==> m == 0x0301) && (s == "s3" <==> m == 0x0300) && (s == "s2" <==> m == 0x0002)
            && (s == "d1" <==> m == 0xfeff) && (s == "d2" <==> m == 0xfefd) && (s == "d3" <==> m == 0xfefc)
            && (s == "00" <==> m !in {0x0304, 0x0303, 0x0302, 0x0301, 0x0300, 0x0002, 0xfeff, 0xfefd, 0xfefc})
  {
    var s := VersionCode(m);
    assert s == [s[0], s[1]];
  }

  /** Two digits: how many values are kept, or 99 if there are more. */
  ghost predicate ReadsAsCount(s: string, vs: seq<u16>) {
    exists kept: seq<u16> :: IsNonGrease(vs, kept)
      && |s| == 2 && '0' <= s[0] <= '9' && '0' <= s[1] <= '9'
      && DecimalValue(s) == if |kept| > 99 then 99 else |kept|
  }

  lemma CountReads(vs: seq<u16>)
    ensures ReadsAsCount(TwoDigit(CountNonGrease(vs)), vs)
  {
    NonGreaseIs(vs);
    TwoDigitSpells(CountNonGrease(vs));
    hide IsNonGrease, TwoDigit, DecimalValue, NonGrease;
    assert IsNonGrease(vs, NonGrease(vs));
  }

  lemma TwoDigitSpells(n: nat)
    requires n <= 99
    ensures var s := TwoDigit(n); '0' <= s[0] <= '9' && '0' <= s[1] <= '9' && DecimalValue(s) == n
  {
    var s := TwoDigit(n);
    DigitIsHex(n / 10);
    DigitIsHex(n % 10);
    assert s[..1][..0] == "" && s[..1][0] == s[0];
    assert DecimalValue(s[..1]) == 10 * DecimalValue("") + (s[0] as int - '0' as int);
  }

  /** The ends of the first protocol, as they are if both are ASCII letters or digits, else as
      the first and the last digit of its bytes in hexadecimal. */
  predicate ReadsAsProtocol(s: string, alpn: seq<string>) {
    if alpn == [] || alpn[0] == "" then s == "00"
    else
      var first, last := alpn[0][0], alpn[0][|alpn[0]| - 1];
      if InRanges(first) && InRanges(last) then s == [first, last]
      else s == [HEX[first as int % 256 / 16], HEX[last as int % 256 % 16]]
  }

  predicate InRanges(c: char) {
    48 <= c as int <= 57 || 65 <= c as int <= 90 || 97 <= c as int <= 122
  }

  lemma PairIsHex(x: byte)
    ensures HexPair(x) == [HEX[x / 16], HEX[x % 16]]
  {
    DigitIsHex(x / 16);
    DigitIsHex(x % 16);
  }

  lemma ProtocolReads(alpn: seq<string>)
    ensures ReadsAsProtocol(Ja4Alpn(alpn), alpn)
  {
    hide HexOf, HexPair, AsBytes, HexDigit;
    if alpn != [] && alpn[0] != "" {
      var v := alpn[0];
      var first, last := v[0], v[|v| - 1];
      if !(IsAlnum(first) && IsAlnum(last)) {
        Ja4AlpnHexEnds(v, alpn[1..]);
        assert [v] + alpn[1..] == alpn;
        PairIsHex(AsBytes(v)[0]);
        PairIsHex(AsBytes(v)[|v| - 1]);
      }
    }
  }

  /** Twelve digits of the hash of the sorted non-GREASE ciphers, or zeros without any. */
  ghost predicate ReadsAsCipherHash(s: string, ciphers: seq<u16>, sha: string -> string) {
    exists kept: seq<u16>, text: string :: IsNonGrease(ciphers, kept) && ReadsSorted(text, kept)
      && |sha(text)| >= 12 && s == if kept == [] then "000000000000" else sha(text)[..12]
  }

  /** An extension is counted unless it is GREASE, SNI or ALPN. */
  ghost predicate IsCounted(exts: seq<u16>, kept: seq<u16>) {
    IsPart(exts, kept, (v: u16) => !Greased(v) && v != 0x0000 && v != 0x0010)
  }

  /** Twelve digits of the hash of the sorted counted extensions, with the signature algorithms
      in their order behind an underscore if there are any; zeros if nothing is counted. */
  ghost predicate ReadsAsExtHash(s: string, exts: seq<u16>, algs: seq<u16>, sha: string -> string) {
    exists kept: seq<u16>, text: string, tail: string :: IsCounted(exts, kept) && ReadsSorted(text, kept)
      && (if algs == [] then tail == "" else |tail| > 0 && tail[0] == '_' && Commas(tail[1..], algs))
      && |sha(text + tail)| >= 12 && s == if kept == [] then "000000000000" else sha(text + tail)[..12]
  }

  lemma SortedHexEmpty(vs: seq<u16>)
    ensures SortedHex(vs) == "" <==> vs == []
  {
    HexListIsFree(vs, ',');
    SortKeepsNonEmpty(Map(Hex4, vs));
    JoinIsEmpty(SortStrings(Map(Hex4, vs)), ',');
    assert [""][0] == "";
  }

  lemma CipherHashReads(ciphers: seq<u16>, sha: string -> string)
    requires IsDigest(sha)
    ensures ReadsAsCipherHash(Ja4Hash(sha, CipherText(ciphers)), ciphers, sha)
  {
    var kept := NonGrease(ciphers);
    NonGreaseIs(ciphers);
    SortedHexReads(kept);
    SortedHexEmpty(kept);
    hide SortedHex, ReadsSorted, IsNonGrease, NonGrease;
    assert IsNonGrease(ciphers, kept) && ReadsSorted(CipherText(ciphers), kept);
  }

  lemma CountedIs(exts: seq<u16>)
    ensures IsCounted(exts, Counted(exts))
  {
    var idx := FilterSelects(CountedType, exts);
    assert Selects(idx, exts, Counted(exts), (v: u16) => !Greased(v) && v != 0x0000 && v != 0x0010);
  }

  lemma TailReads(algs: seq<u16>)
    ensures var tail := AlgsTail(algs);
            if algs == [] then tail == "" else |tail| > 0 && tail[0] == '_' && Commas(tail[1..], algs)
  {
    HexListCommas(algs);
    hide Commas, Join, Map;
    assert algs != [] ==> AlgsTail(algs)[1..] == Join(Map(Hex4, algs), ',');
  }

  function ExtHash(exts: seq<u16>, algs: seq<u16>, sha: string -> string): string
    requires forall s :: |sha(s)| >= 12
  {
    match ExtText(exts, algs) case None => ZEROS case Some(s) => Ja4Hash(sha, s)
  }

  lemma ExtHashReads(exts: seq<u16>, algs: seq<u16>, sha: string -> string)
    requires IsDigest(sha)
    ensures ReadsAsExtHash(ExtHash(exts, algs, sha), exts, algs, sha)
  {
    var kept, text, tail := Counted(exts), SortedHex(Counted(exts)), AlgsTail(algs);
    CountedIs(exts);
    SortedHexReads(kept);
    SortedHexEmpty(kept);
    TailReads(algs);
    assert kept != [] ==> ExtText(exts, algs) == Some(text + tail);
    hide SortedHex, ReadsSorted, IsCounted, Counted, AlgsTail, Commas;
    assert IsCounted(exts, kept) && ReadsSorted(text, kept);
    assert |sha(text + tail)| >= 12;
  }

  ghost predicate ReadsAsJa4(s: string, h: ClientHello, sha: string -> string) {
    && |s| == 36 && s[0] == 't'
    && ReadsAsVersion(s[1..3], h.suppVersions, h.legacyVersion)
    && s[3] == (if h.sni != "" then 'd' else 'i')
    && ReadsAsCount(s[4..6], h.ciphers) && ReadsAsCount(s[6..8], h.extensions)
    && ReadsAsProtocol(s[8..10], h.alpn)
    && s[10] == '_' && ReadsAsCipherHash(s[11..23], h.ciphers, sha)
    && s[23] == '_' && ReadsAsExtHash(s[24..36], h.extensions, h.sigAlgs, sha)
  }

  lemma Ja4Slices(h: ClientHello, sha: string -> string)
    requires IsDigest(sha)
    ensures var s := Ja4(sha, h);
            && |s| == 36 && s[0] == 't'
            && s[1..3] == VersionCode(MaxVersion(h.suppVersions, h.legacyVersion))
            && s[3] == (if h.sni != "" then 'd' else 'i')
            && s[4..6] == TwoDigit(CountNonGrease(h.ciphers)) && s[6..8] == TwoDigit(CountNonGrease(h.extensions))
            && s[8..10] == Ja4Alpn(h.alpn)
            && s[10] == '_' && s[11..23] == Ja4Hash(sha, CipherText(h.ciphers))
            && s[23] == '_' && s[24..36] == ExtHash(h.extensions, h.sigAlgs, sha)
  {
    var a, b, c := Ja4A(h), Ja4Hash(sha, CipherText(h.ciphers)), ExtHash(h.extensions, h.sigAlgs, sha);
    O.Ja4AParts(h);
    assert |b| == 12 && |c| == 12;
    assert a[0] == 't';
    hide VersionCode, MaxVersion, CountNonGrease, TwoDigit, Ja4Alpn, CipherText, ExtText, Ja4A, ExtHash, Ja4Hash;
    assert Ja4(sha, h) == a + "_" + b + "_" + c;
    PartsApart(a, b, c, Ja4(sha, h));
  }

  lemma PartsApart(a: string, b: string, c: string, s: string)
    requires |a| == 10 && |b| == 12 && |c| == 12 && s == a + "_" + b + "_" + c
    ensures |s| == 36 && s[0] == a[0] && s[3] == a[3] && s[1..3] == a[1..3] && s[4..6] == a[4..6] && s[6..8] == a[6..8]
    ensures s[8..10] == a[8..] && s[10] == '_' && s[11..23] == b && s[23] == '_' && s[24..36] == c
  {
  }

  /** The JA4 of every hello, part by part. */
  lemma Ja4Reads(h: ClientHello, sha: string -> string)
    requires IsDigest(sha)
    ensures ReadsAsJa4(Ja4(sha, h), h, sha)
  {
    Ja4Slices(h, sha);
    VersionReads(h.suppVersions, h.legacyVersion);
    CountReads(h.ciphers);
    CountReads(h.extensions);
    ProtocolReads(h.alpn);
    CipherHashReads(h.ciphers, sha);
    ExtHashReads(h.extensions, h.sigAlgs, sha);
    hide ReadsAsVersion, ReadsAsCount, ReadsAsProtocol, ReadsAsCipherHash, ReadsAsExtHash, Ja4;
  }
}
