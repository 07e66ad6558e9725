/** JA4 does not depend on the order in which ciphers and extensions stand on the wire,
    nor on GREASE values inserted among them. */
module Ja4Order {
  import opened Wire
  import opened Seqs
  import opened HelloFormat
  import opened HelloBuilder
  import opened Fingerprint

  function TypeOf(e: Entry): u16 {
    e.typ
  }

  predicate IsReal(e: Entry) {
    !IsGrease(e.typ)
  }

  /** The entries that are not GREASE, in order. */
  function Real(es: seq<Entry>): seq<Entry> {
    Filter(IsReal, es)
  }

  /** An entry up to GREASE among the supported versions. */
  function Canonical(e: Entry): Entry {
    if e.typ == EXT_VERSIONS then Entry(e.typ, EncodeU16s(NonGrease(ParseU16List1(e.data)))) else e
  }

  ghost predicate SameEntries(es1: seq<Entry>, es2: seq<Entry>) {
    multiset(Map(Canonical, Real(es1))) == multiset(Map(Canonical, Real(es2)))
  }

  lemma TypesAreMapped(es: seq<Entry>)
    ensures Types(es) == Map(TypeOf, es)
  {
  }

  lemma RealTypes(es: seq<Entry>)
    ensures NonGrease(Types(es)) == Types(Real(es))
  {
    TypesAreMapped(es);
    TypesAreMapped(Real(es));
    FilterOfMap(TypeOf, IsReal, NotGrease, es);
  }

  lemma SameTypes(es1: seq<Entry>, es2: seq<Entry>)
    requires SameEntries(es1, es2)
    ensures multiset(Types(Real(es1))) == multiset(Types(Real(es2)))
  {
    var c1, c2 := Map(Canonical, Real(es1)), Map(Canonical, Real(es2));
    MapPermutes(TypeOf, c1, c2);
    assert Types(Real(es1)) == Map(TypeOf, c1);
    assert Types(Real(es2)) == Map(TypeOf, c2);
  }

  /** GREASE entries do not disturb what is kept for other types. */
  lemma {:induction false} RealKeepsData(es: seq<Entry>, t: u16)
    requires !IsGrease(t)
    ensures Lookup(ExtData(es), t) == Lookup(ExtData(Real(es)), t)
  {
    if es != [] {
      var init, e := es[..|es| - 1], es[|es| - 1];
      RealKeepsData(init, t);
      if IsReal(e) {
        assert Real(es) == Real(init) + [e];
        assert Real(es)[..|Real(es)| - 1] == Real(init);
      } else {
        assert Real(es) == Real(init);
      }
    }
  }

  /** What is kept for a type is one of its entries. */
  lemma {:induction false} KeptIsEntry(es: seq<Entry>, t: u16)
    requires t in Types(es)
    ensures Entry(t, Lookup(ExtData(es), t)) in es
  {
    var init, e := es[..|es| - 1], es[|es| - 1];
    assert es == init + [e] && e == Entry(e.typ, e.data);
    if e.typ != t {
      assert Types(es) == Types(init) + [e.typ];
      KeptIsEntry(init, t);
      ExtDataKeys(init, t);
    }
  }

  lemma Partner(es1: seq<Entry>, es2: seq<Entry>, e: Entry) returns (e': Entry)
    requires SameEntries(es1, es2) && e in Real(es1)
    ensures e' in Real(es2) && Canonical(e') == Canonical(e)
  {
    var c1, c2 := Map(Canonical, Real(es1)), Map(Canonical, Real(es2));
    var i :| 0 <= i < |Real(es1)| && Real(es1)[i] == e;
    assert c1[i] == Canonical(e) && c1[i] in multiset(c1);
    assert Canonical(e) in multiset(c2);
    var j :| 0 <= j < |c2| && c2[j] == Canonical(e);
    e' := Real(es2)[j];
  }

  lemma SameVersions(d1: seq<byte>, d2: seq<byte>)
    requires Canonical(Entry(EXT_VERSIONS, d1)) == Canonical(Entry(EXT_VERSIONS, d2))
    ensures NonGrease(ParseU16List1(d1)) == NonGrease(ParseU16List1(d2))
  {
    DecodeOfEncode(NonGrease(ParseU16List1(d1)));
    DecodeOfEncode(NonGrease(ParseU16List1(d2)));
  }

  /** The counted types are determined by the non-GREASE ones. */
  lemma CountedFromReal(ts1: seq<u16>, ts2: seq<u16>)
    requires multiset(NonGrease(ts1)) == multiset(NonGrease(ts2))
    ensures multiset(Counted(ts1)) == multiset(Counted(ts2))
  {
    hide Filter;
    forall t: u16 ensures multiset(Counted(ts1))[t] == multiset(Counted(ts2))[t] {
      FilterCount(CountedType, ts1, t);
      FilterCount(CountedType, ts2, t);
      FilterCount(NotGrease, ts1, t);
      FilterCount(NotGrease, ts2, t);
    }
  }

  lemma SameSize(xs: seq<u16>, ys: seq<u16>)
    requires multiset(NonGrease(xs)) == multiset(NonGrease(ys))
    ensures CountNonGrease(xs) == CountNonGrease(ys)
  {
    assert |NonGrease(xs)| == |multiset(NonGrease(xs))|;
    assert |NonGrease(ys)| == |multiset(NonGrease(ys))|;
  }

  /** The three pre-hash parts agree. */
  ghost predicate SameJa4(h1: ClientHello, h2: ClientHello) {
    && Ja4A(h1) == Ja4A(h2)
    && CipherText(h1.ciphers) == CipherText(h2.ciphers)
    && ExtText(h1.extensions, h1.sigAlgs) == ExtText(h2.extensions, h2.sigAlgs)
  }

  // ----- what JA4 reads of an extension ---------------------------------------------------

  datatype Reading =
    | Name(present: bool)
    | Protocol(code: string)
    | Algs(algs: seq<u16>)
    | Version(code: string)
    | Unread

  function ReadingOf(legacy: u16, t: u16, d: seq<byte>): Reading {
    if t == EXT_SNI then Name(ParseSni(d) != "")
    else if t == EXT_ALPN then Protocol(Ja4Alpn(ParseAlpn(d)))
    else if t == EXT_SIG_ALGS then Algs(ParseU16List2(d))
    else if t == EXT_VERSIONS then Version(VersionCode(MaxVersion(ParseU16List1(d), legacy)))
    else Unread
  }

  function Read(legacy: u16, e: Entry): Reading {
    ReadingOf(legacy, e.typ, e.data)
  }

  /** What is read of the entry that counts. */
  function ReadingIn(legacy: u16, es: seq<Entry>, t: u16): Reading {
    ReadingOf(legacy, t, Lookup(ExtData(es), t))
  }

  /** Entries of one type all read the same. */
  ghost predicate ReadAlike(legacy: u16, es: seq<Entry>) {
    forall e, f :: e in es && f in es && e.typ == f.typ ==> Read(legacy, e) == Read(legacy, f)
  }

  const READ_TYPES := [EXT_SNI, EXT_ALPN, EXT_SIG_ALGS, EXT_VERSIONS]

  ghost predicate SameReadings(legacy: u16, es1: seq<Entry>, es2: seq<Entry>) {
    && ReadingIn(legacy, es1, EXT_SNI) == ReadingIn(legacy, es2, EXT_SNI)
    && ReadingIn(legacy, es1, EXT_ALPN) == ReadingIn(legacy, es2, EXT_ALPN)
    && ReadingIn(legacy, es1, EXT_SIG_ALGS) == ReadingIn(legacy, es2, EXT_SIG_ALGS)
    && ReadingIn(legacy, es1, EXT_VERSIONS) == ReadingIn(legacy, es2, EXT_VERSIONS)
  }

  /** In particular if none of the four types that JA4 reads is repeated, whatever is
      repeated otherwise. */
  lemma ReadOnceReadAlike(legacy: u16, es: seq<Entry>)
    requires forall t :: t in READ_TYPES ==> multiset(Types(es))[t] <= 1
    ensures ReadAlike(legacy, es)
  {
    forall e, f | e in es && f in es && e.typ == f.typ ensures Read(legacy, e) == Read(legacy, f) {
      var i :| 0 <= i < |es| && es[i] == e;
      var j :| 0 <= j < |es| && es[j] == f;
      assert Types(es)[i] == Types(es)[j];
      if e.typ in READ_TYPES && i != j {
        Twice(Types(es), if i < j then i else j, if i < j then j else i);
      }
      assert e.typ !in READ_TYPES ==> Read(legacy, e) == Unread by {
        assert READ_TYPES[0] == EXT_SNI && READ_TYPES[1] == EXT_ALPN;
        assert READ_TYPES[2] == EXT_SIG_ALGS && READ_TYPES[3] == EXT_VERSIONS;
      }
    }
  }

  lemma CanonicalReads(legacy: u16, e: Entry, f: Entry)
    requires Canonical(e) == Canonical(f)
    ensures e.typ == f.typ && Read(legacy, e) == Read(legacy, f)
  {
    hide ParseU16List1, ParseU16List2, ParseSni, ParseAlpn, MaxVersion, VersionCode, Ja4Alpn, NonGrease;
    if e.typ == EXT_VERSIONS {
      assert e == Entry(EXT_VERSIONS, e.data) && f == Entry(EXT_VERSIONS, f.data);
      SameVersions(e.data, f.data);
      MaxVersionOfSet(ParseU16List1(e.data), ParseU16List1(f.data), legacy);
    }
  }

  lemma SameReading(legacy: u16, es1: seq<Entry>, es2: seq<Entry>, t: u16)
    requires !IsGrease(t) && SameEntries(es1, es2) && ReadAlike(legacy, Real(es1))
    ensures ReadingIn(legacy, es1, t) == ReadingIn(legacy, es2, t)
  {
    var r1, r2 := Real(es1), Real(es2);
    SameTypes(es1, es2);
    RealKeepsData(es1, t);
    RealKeepsData(es2, t);
    hide Real, ExtData, Canonical, ReadingOf;
    assert t in Types(r1) <==> t in multiset(Types(r1));
    assert t in Types(r2) <==> t in multiset(Types(r2));
    ExtDataKeys(r1, t);
    ExtDataKeys(r2, t);
    if t in Types(r1) {
      KeptIsEntry(r1, t);
      KeptIsEntry(r2, t);
      var e' := Partner(es2, es1, Entry(t, Lookup(ExtData(r2), t)));
      CanonicalReads(legacy, e', Entry(t, Lookup(ExtData(r2), t)));
      assert Read(legacy, e') == Read(legacy, Entry(t, Lookup(ExtData(r1), t)));
    }
  }

  // ----- the parts of the readable text are fixed in width ------------------------------------

  lemma TwoDigitExact(m: nat, n: nat)
    requires m <= 99 && n <= 99
    ensures TwoDigit(m) == TwoDigit(n) <==> m == n
  {
    if TwoDigit(m) == TwoDigit(n) {
      assert TwoDigit(m)[0] == TwoDigit(n)[0] && TwoDigit(m)[1] == TwoDigit(n)[1];
      assert m / 10 == n / 10 && m % 10 == n % 10;
    }
  }

  lemma Ja4AParts(h: ClientHello)
    ensures var s := Ja4A(h);
            && s[1..3] == VersionCode(MaxVersion(h.suppVersions, h.legacyVersion))
            && s[3] == (if h.sni != "" then 'd' else 'i')
            && s[4..6] == TwoDigit(CountNonGrease(h.ciphers)) && s[6..8] == TwoDigit(CountNonGrease(h.extensions))
            && s[8..] == Ja4Alpn(h.alpn)
  {
    hide VersionCode, MaxVersion, CountNonGrease, TwoDigit, Ja4Alpn;
  }

  /** Two hellos have the same readable part exactly if they agree in all five of its
      parts. */
  lemma Ja4AExact(h1: ClientHello, h2: ClientHello)
    ensures Ja4A(h1) == Ja4A(h2) <==>
            && VersionCode(MaxVersion(h1.suppVersions, h1.legacyVersion))
               == VersionCode(MaxVersion(h2.suppVersions, h2.legacyVersion))
            && (h1.sni != "" <==> h2.sni != "")
            && CountNonGrease(h1.ciphers) == CountNonGrease(h2.ciphers)
            && CountNonGrease(h1.extensions) == CountNonGrease(h2.extensions)
            && Ja4Alpn(h1.alpn) == Ja4Alpn(h2.alpn)
  {
    Ja4AParts(h1);
    Ja4AParts(h2);
    TwoDigitExact(CountNonGrease(h1.ciphers), CountNonGrease(h2.ciphers));
    TwoDigitExact(CountNonGrease(h1.extensions), CountNonGrease(h2.extensions));
    hide VersionCode, MaxVersion, CountNonGrease, TwoDigit, Ja4Alpn;
  }

  /** Given the same ciphers and types but for GREASE and order, two hellos have the same JA4
      exactly if the four extensions it reads do. */
  lemma SameJa4Exact(version: u16, c1: seq<u16>, es1: seq<Entry>, c2: seq<u16>, es2: seq<Entry>)
    requires multiset(NonGrease(c1)) == multiset(NonGrease(c2))
    requires multiset(NonGrease(Types(es1))) == multiset(NonGrease(Types(es2)))
    ensures SameJa4(Interpret(version, c1, es1), Interpret(version, c2, es2)) <==> SameReadings(version, es1, es2)
  {
    var h1, h2 := Interpret(version, c1, es1), Interpret(version, c2, es2);
    Ja4AExact(h1, h2);
    hide NonGrease, MaxVersion, VersionCode, CipherText, ExtText, Ja4A, Ja4Alpn, CountNonGrease, ParseSni, ParseAlpn,
         ParseU16List1, ParseU16List2, ParsePointFormats, ExtData, Types;
    SameSize(c1, c2);
    SameSize(Types(es1), Types(es2));
    CipherTextExact(c1, c2);
    CountedFromReal(Types(es1), Types(es2));
    ExtTextExact(h1.extensions, h1.sigAlgs, h2.extensions, h2.sigAlgs);
    NothingCounted(es1);
    NothingCounted(es2);
    hide Counted;
    assert multiset(Counted(Types(es1))) == multiset(Counted(Types(es2)));
    assert |Counted(Types(es1))| == |multiset(Counted(Types(es1)))|;
    assert |Counted(Types(es2))| == |multiset(Counted(Types(es2)))|;
  }

  lemma NothingCounted(es: seq<Entry>)
    ensures Counted(Types(es)) == [] ==> ParseU16List2(Lookup(ExtData(es), EXT_SIG_ALGS)) == []
  {
    hide ExtData, Filter;
    ExtDataKeys(es, EXT_SIG_ALGS);
    FilterMember(CountedType, Types(es), EXT_SIG_ALGS);
  }

  /** On the wire: two encodings whose ciphers and extension types agree as multisets of
      non-GREASE values, in whatever order, with whatever GREASE between them and whatever
      data in the extensions JA4 does not read, are parsed into hellos with the same JA4
      texts exactly if SNI, ALPN, signature algorithms and supported versions read the same;
      their JA4 is then the same for every digest. */
  lemma WireOrderIndependence(b1: Builder, b2: Builder, sha: string -> string)
    requires HelloBuilder.Fits(b1) && HelloBuilder.Fits(b2) && IsDigest(sha)
    requires b1.legacyVersion == b2.legacyVersion
    requires multiset(NonGrease(b1.ciphers)) == multiset(NonGrease(b2.ciphers))
    requires multiset(NonGrease(Types(b1.extensions))) == multiset(NonGrease(Types(b2.extensions)))
    ensures var r1, r2 := ParseRecord(Build(b1)), ParseRecord(Build(b2));
            && r1.Done? && r2.Done?
            && (SameJa4(r1.hello, r2.hello) <==> SameReadings(b1.legacyVersion, b1.extensions, b2.extensions))
            && (SameJa4(r1.hello, r2.hello) ==> Ja4(sha, r1.hello) == Ja4(sha, r2.hello))
  {
    hide ParseRecord, Build, Interpret, Ja4A, CipherText, ExtText, SameReadings;
    RoundTrip(b1);
    RoundTrip(b2);
    SameJa4Exact(b1.legacyVersion, b1.ciphers, b1.extensions, b2.ciphers, b2.extensions);
  }

  /** It is enough that the non-GREASE entries agree as multisets up to GREASE versions and do
      not contradict each other within a type. */
  lemma SameEntriesRead(legacy: u16, es1: seq<Entry>, es2: seq<Entry>)
    requires SameEntries(es1, es2) && ReadAlike(legacy, Real(es1))
    ensures multiset(NonGrease(Types(es1))) == multiset(NonGrease(Types(es2)))
    ensures SameReadings(legacy, es1, es2)
  {
    assert !IsGrease(EXT_SNI) && !IsGrease(EXT_ALPN) && !IsGrease(EXT_SIG_ALGS) && !IsGrease(EXT_VERSIONS);
    hide ReadingIn, ReadAlike, SameEntries, IsGrease, NonGrease;
    SameReading(legacy, es1, es2, EXT_SNI);
    SameReading(legacy, es1, es2, EXT_ALPN);
    SameReading(legacy, es1, es2, EXT_SIG_ALGS);
    SameReading(legacy, es1, es2, EXT_VERSIONS);
    SameTypes(es1, es2);
    RealTypes(es1);
    RealTypes(es2);
  }

  lemma {:induction false} EncodedWithout(es: seq<Entry>, j: nat)
    requires j < |es|
    ensures |EncodeEntries(es)| == |EncodeEntries(Without(es, j))| + |EncodeEntry(es[j])|
  {
    hide EncodeEntry;
    if j == 0 {
      assert Without(es, 0) == es[1..];
    } else {
      EncodedWithout(es[1..], j - 1);
      assert Without(es, j)[1..] == Without(es[1..], j - 1) && Without(es, j)[0] == es[0];
    }
  }

  lemma {:induction false} EncodedSizePermutes(es1: seq<Entry>, es2: seq<Entry>)
    requires multiset(es1) == multiset(es2)
    ensures |EncodeEntries(es1)| == |EncodeEntries(es2)|
    decreases |es1|
  {
    hide EncodeEntry, EncodeEntries, Without;
    assert |es1| == |multiset(es1)| && |es2| == |multiset(es2)|;
    if es1 != [] {
      assert es1[0] in multiset(es2);
      var j :| 0 <= j < |es2| && es2[j] == es1[0];
      WithoutMultiset(es1, 0);
      WithoutMultiset(es2, j);
      EncodedSizePermutes(Without(es1, 0), Without(es2, j));
      EncodedWithout(es1, 0);
      EncodedWithout(es2, j);
    }
  }

  /** A permuted hello fits its length fields if the original does. */
  lemma PermutedFits(b: Builder, ciphers: seq<u16>, entries: seq<Entry>)
    requires HelloBuilder.Fits(b)
    requires multiset(b.ciphers) == multiset(ciphers) && multiset(b.extensions) == multiset(entries)
    ensures HelloBuilder.Fits(b.(ciphers := ciphers, extensions := entries))
  {
    EncodedSizePermutes(b.extensions, entries);
    assert |b.ciphers| == |multiset(b.ciphers)| && |ciphers| == |multiset(ciphers)|;
    forall i | 0 <= i < |entries| ensures |entries[i].data| < 65536 {
      assert entries[i] in multiset(entries);
      assert entries[i] in b.extensions;
    }
    var b' := b.(ciphers := ciphers, extensions := entries);
    hide EncodeEntries, EncodeU16s;
    assert |EncodeBody(BodyOf(b'))| == |EncodeBody(BodyOf(b))|;
  }

  /** The hello with its ciphers and extension entries in another order. */
  function Reordered(b: Builder, ciphers: seq<u16>, entries: seq<Entry>): Builder {
    b.(ciphers := ciphers, extensions := entries)
  }

  ghost predicate Permutes(b: Builder, ciphers: seq<u16>, entries: seq<Entry>) {
    multiset(b.ciphers) == multiset(ciphers) && multiset(b.extensions) == multiset(entries)
  }

  /** Every rearrangement is parsed into a hello with the same JA4. */
  ghost predicate OrderFree(b: Builder) {
    forall ciphers, entries :: Permutes(b, ciphers, entries) ==>
      var r1, r2 := ParseRecord(Build(b)), ParseRecord(Build(Reordered(b, ciphers, entries)));
      r1.Done? && r2.Done? && SameJa4(r1.hello, r2.hello)
  }

  lemma ReorderedExact(b: Builder, ciphers: seq<u16>, entries: seq<Entry>)
    requires HelloBuilder.Fits(b) && Permutes(b, ciphers, entries)
    ensures var r1, r2 := ParseRecord(Build(b)), ParseRecord(Build(Reordered(b, ciphers, entries)));
            && r1.Done? && r2.Done?
            && (SameJa4(r1.hello, r2.hello) <==> SameReadings(b.legacyVersion, b.extensions, entries))
  {
    var es := b.extensions;
    hide ParseRecord, Build, Interpret, SameJa4, SameReadings, HelloBuilder.Fits, NonGrease;
    PermutedFits(b, ciphers, entries);
    RoundTrip(b);
    RoundTrip(Reordered(b, ciphers, entries));
    FilterPermutes(NotGrease, b.ciphers, ciphers);
    NonGreaseIsFilter(b.ciphers, ciphers);
    TypesAreMapped(es);
    TypesAreMapped(entries);
    MapPermutes(TypeOf, es, entries);
    FilterPermutes(NotGrease, Types(es), Types(entries));
    NonGreaseIsFilter(Types(es), Types(entries));
    SameJa4Exact(b.legacyVersion, b.ciphers, es, ciphers, entries);
  }

  lemma NonGreaseIsFilter(xs: seq<u16>, ys: seq<u16>)
    ensures NonGrease(xs) == Filter(NotGrease, xs) && NonGrease(ys) == Filter(NotGrease, ys)
  {
  }

  /** The reading of a permuted list is that of some entry of the type. */
  lemma SameReadingPermuted(legacy: u16, es: seq<Entry>, entries: seq<Entry>, t: u16)
    requires multiset(es) == multiset(entries) && ReadAlike(legacy, es)
    ensures ReadingIn(legacy, es, t) == ReadingIn(legacy, entries, t)
  {
    hide ReadingOf, ExtData;
    TypesAreMapped(es);
    TypesAreMapped(entries);
    MapPermutes(TypeOf, es, entries);
    assert t in Types(es) <==> t in multiset(Types(es));
    assert t in Types(entries) <==> t in multiset(Types(entries));
    ExtDataKeys(es, t);
    ExtDataKeys(entries, t);
    if t in Types(es) {
      KeptIsEntry(es, t);
      KeptIsEntry(entries, t);
      var e := Entry(t, Lookup(ExtData(entries), t));
      assert e in multiset(entries);
      assert e in es;
      assert Read(legacy, e) == Read(legacy, Entry(t, Lookup(ExtData(es), t)));
    }
  }

  /** An entry moved to the end is the one that counts. */
  function MovedLast(es: seq<Entry>, i: nat): seq<Entry>
    requires i < |es|
  {
    Without(es, i) + [es[i]]
  }

  lemma MovedLastReads(legacy: u16, es: seq<Entry>, i: nat)
    requires i < |es|
    ensures multiset(MovedLast(es, i)) == multiset(es)
    ensures ReadingIn(legacy, MovedLast(es, i), es[i].typ) == Read(legacy, es[i])
  {
    hide ReadingOf;
    WithoutMultiset(es, i);
    LastWins(MovedLast(es, i), |es| - 1);
  }

  lemma SameReadingsAt(legacy: u16, es1: seq<Entry>, es2: seq<Entry>, t: u16)
    requires SameReadings(legacy, es1, es2)
    ensures ReadingIn(legacy, es1, t) == ReadingIn(legacy, es2, t)
  {
  }

  /** When order does not matter: exactly if the entries of each type that JA4 reads, SNI,
      ALPN, signature algorithms and supported versions, all read the same. */
  lemma OrderFreeExactly(b: Builder)
    requires HelloBuilder.Fits(b)
    ensures OrderFree(b) <==> ReadAlike(b.legacyVersion, b.extensions)
  {
    var legacy, es := b.legacyVersion, b.extensions;
    if OrderFree(b) {
      OrderFreeReadsAlike(b);
    }
    if ReadAlike(legacy, es) {
      forall ciphers, entries | Permutes(b, ciphers, entries)
        ensures var r1, r2 := ParseRecord(Build(b)), ParseRecord(Build(Reordered(b, ciphers, entries)));
                r1.Done? && r2.Done? && SameJa4(r1.hello, r2.hello)
      {
        hide ParseRecord, Build, SameJa4, ReadAlike, ReadingIn, HelloBuilder.Fits;
        ReorderedExact(b, ciphers, entries);
        SameReadingPermuted(legacy, es, entries, EXT_SNI);
        SameReadingPermuted(legacy, es, entries, EXT_ALPN);
        SameReadingPermuted(legacy, es, entries, EXT_SIG_ALGS);
        SameReadingPermuted(legacy, es, entries, EXT_VERSIONS);
      }
    }
  }

  lemma OrderFreeReadsAlike(b: Builder)
    requires HelloBuilder.Fits(b) && OrderFree(b)
    ensures ReadAlike(b.legacyVersion, b.extensions)
  {
    hide ParseRecord, Build, SameJa4, ReadingIn, HelloBuilder.Fits, Read, SameReadings, MovedLast;
    var legacy, es := b.legacyVersion, b.extensions;
    forall e, f | e in es && f in es && e.typ == f.typ ensures Read(legacy, e) == Read(legacy, f) {
      var i :| 0 <= i < |es| && es[i] == e;
      var j :| 0 <= j < |es| && es[j] == f;
      MovedLastReads(legacy, es, i);
      MovedLastReads(legacy, es, j);
      assert Permutes(b, b.ciphers, MovedLast(es, i)) && Permutes(b, b.ciphers, MovedLast(es, j));
      ReorderedExact(b, b.ciphers, MovedLast(es, i));
      ReorderedExact(b, b.ciphers, MovedLast(es, j));
      SameReadingsAt(legacy, es, MovedLast(es, i), e.typ);
      SameReadingsAt(legacy, es, MovedLast(es, j), f.typ);
    }
  }

  /** In particular: any permutation of the ciphers and of the entries of a hello that repeats
      none of the four types. */
  lemma PermutationIndependence(b: Builder, ciphers: seq<u16>, entries: seq<Entry>, sha: string -> string)
    requires HelloBuilder.Fits(b) && IsDigest(sha) && Permutes(b, ciphers, entries)
    requires forall t :: t in READ_TYPES ==> multiset(Types(b.extensions))[t] <= 1
    ensures var r1, r2 := ParseRecord(Build(b)), ParseRecord(Build(Reordered(b, ciphers, entries)));
            && r1.Done? && r2.Done?
            && SameJa4(r1.hello, r2.hello)
            && Ja4(sha, r1.hello) == Ja4(sha, r2.hello)
  {
    hide ParseRecord, Build, HelloBuilder.Fits, Ja4A, CipherText, ExtText, Permutes;
    ReadOnceReadAlike(b.legacyVersion, b.extensions);
    OrderFreeExactly(b);
  }

  /** A hello with two ALPN extensions. */
  function TwoAlpns(version: u16, cipher: u16, first: string, second: string): Builder {
    Builder(0x0301, version, [], [cipher], [0], [EntryOf(Alpn([first])), EntryOf(Alpn([second]))])
  }

  lemma TwoAlpnsFit(version: u16, cipher: u16, first: string, second: string)
    requires |first| == |second| == 2
    ensures HelloBuilder.Fits(TwoAlpns(version, cipher, first, second))
  {
    var e, f := EntryOf(Alpn([first])), EntryOf(Alpn([second]));
    assert AlpnList([first]) == Vec8(AsBytes(first)) + [] && AlpnList([second]) == Vec8(AsBytes(second)) + [];
    assert |e.data| == 5 && |f.data| == 5;
    assert [e, f][1..] == [f] && [f][1..] == [];
    assert EncodeEntries([f]) == EncodeEntry(f) + EncodeEntries([]);
    assert EncodeEntries([e, f]) == EncodeEntry(e) + EncodeEntries([f]);
    assert |EncodeEntries([e, f])| == 18;
    assert |EncodeU16s([cipher])| == 2;
  }

  /** Such a hello shows its order: of two ALPN extensions the later one counts, so that
      swapping them on the wire gives another JA4. */
  lemma RepeatedTypesShowTheirOrder(version: u16, cipher: u16)
    ensures var r1 := ParseRecord(Build(TwoAlpns(version, cipher, "h2", "h3")));
            var r2 := ParseRecord(Build(TwoAlpns(version, cipher, "h3", "h2")));
            r1.Done? && r2.Done? && Ja4A(r1.hello) != Ja4A(r2.hello)
  {
    TwoAlpnsFit(version, cipher, "h2", "h3");
    TwoAlpnsFit(version, cipher, "h3", "h2");
    TwoCharacterAlpn("h2");
    TwoCharacterAlpn("h3");
    AlpnOfPair(version, [cipher], "h2", "h3");
    AlpnOfPair(version, [cipher], "h3", "h2");
    var b1, b2 := TwoAlpns(version, cipher, "h2", "h3"), TwoAlpns(version, cipher, "h3", "h2");
    hide ParseRecord, Build, Interpret, HelloBuilder.Fits, Ja4A, Ja4Alpn, EntryOf;
    RoundTrip(b1);
    RoundTrip(b2);
    Ja4AExact(ParseRecord(Build(b1)).hello, ParseRecord(Build(b2)).hello);
  }

  lemma TwoCharacterAlpn(v: string)
    requires |v| == 2 && IsAlnum(v[0]) && IsAlnum(v[1])
    ensures Ja4Alpn([v]) == v
  {
  }

  lemma AlpnOfPair(version: u16, ciphers: seq<u16>, first: string, second: string)
    requires |first| == |second| == 2 && IsByteString(first) && IsByteString(second)
    ensures Interpret(version, ciphers, [EntryOf(Alpn([first])), EntryOf(Alpn([second]))]).alpn == [second]
  {
    var es := [EntryOf(Alpn([first])), EntryOf(Alpn([second]))];
    assert AlpnList([second]) == Vec8(AsBytes(second)) + [];
    LastWins(es, 1);
    ExtReadsBack(version, ciphers, es, Alpn([second]));
  }
}
