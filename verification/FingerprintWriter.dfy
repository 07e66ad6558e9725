/** The fingerprints as they are computed: string builders filled by loops, tied to the
    texts of Fingerprint. */
module FingerprintWriter {
  import opened Wire
  import opened Text
  import opened Seqs
  import opened HelloFormat
  import FP = Fingerprint
  import R = FingerprintReading

  /** strings.Builder */
  class StringBuilder {
    var s: string

    constructor ()
      ensures s == ""
    {
      s := "";
    }

    method WriteString(t: string)
      modifies this
      ensures s == old(s) + t
    {
      s := s + t;
    }
  }

  /** What a builder holds after one more item of a list has been written to it. */
  function Glue(written: string, empty: bool, item: string): string {
    if empty then written + item else written + "-" + item
  }

  lemma JoinMore<T>(f: T -> string, xs: seq<T>, x: T, before: string)
    ensures before + Join(Map(f, xs + [x]), '-') == Glue(before + Join(Map(f, xs), '-'), xs == [], f(x))
  {
    MapSnoc(f, xs, x);
    JoinAppend(Map(f, xs), f(x), '-');
    var j := Join(Map(f, xs), '-');
    assert before + (j + ['-'] + f(x)) == before + j + "-" + f(x);
    assert xs == [] ==> before + j == before;
  }

  lemma NonGreaseMore(vs: seq<u16>, i: nat)
    requires i < |vs|
    ensures FP.NonGrease(vs[..i + 1]) ==
            if FP.IsGrease(vs[i]) then FP.NonGrease(vs[..i]) else FP.NonGrease(vs[..i]) + [vs[i]]
  {
    assert vs[..i + 1] == vs[..i] + [vs[i]];
    FilterSnoc(FP.NotGrease, vs[..i], vs[i]);
    assert FP.NonGrease(vs[..i]) + [] == FP.NonGrease(vs[..i]);
  }

  method WriteDecList(sb: StringBuilder, vals: seq<u16>)
    modifies sb
    ensures sb.s == old(sb.s) + FP.DecList(FP.NonGrease(vals))
  {
    var first := true;
    ghost var start, kept := sb.s, [];
    assert FP.NonGrease(vals[..0]) == [] && start == start + FP.DecList([]);
    hide FP.NonGrease, Join, Map, Decimal;
    for i := 0 to |vals|
      invariant kept == FP.NonGrease(vals[..i]) && (first <==> kept == [])
      invariant sb.s == start + FP.DecList(kept)
    {
      var v := vals[i];
      NonGreaseMore(vals, i);
      if FP.IsGrease(v) {
        continue;
      }
      JoinMore(FP.Dec16, kept, v, start);
      kept := kept + [v];
      if !first {
        sb.WriteString("-");
      }
      sb.WriteString(Decimal(v));
      first := false;
    }
    assert vals[..|vals|] == vals;
  }

  method WriteByteDecList(sb: StringBuilder, vals: seq<byte>)
    modifies sb
    ensures sb.s == old(sb.s) + FP.ByteDecList(vals)
  {
    ghost var start := sb.s;
    assert start == start + FP.ByteDecList(vals[..0]);
    hide Join, Map, Decimal;
    for i := 0 to |vals|
      invariant sb.s == start + FP.ByteDecList(vals[..i])
    {
      assert vals[..i + 1] == vals[..i] + [vals[i]];
      JoinMore(FP.Dec8, vals[..i], vals[i], start);
      if i > 0 {
        sb.WriteString("-");
      }
      sb.WriteString(Decimal(vals[i]));
    }
    assert vals[..|vals|] == vals;
  }

  /** Builds the string that is hashed, and hashes it. */
  method Ja3(h: ClientHello, md5: string -> string) returns (r: string)
    ensures r == md5(FP.Ja3Text(h))
    ensures exists text :: R.ReadsAsJa3(text, h) && r == md5(text)
  {
    R.Ja3Reads(h);
    hide R.ReadsAsJa3;
    hide FP.DecList, FP.ByteDecList, FP.NonGrease, Decimal, Join;
    var sb := new StringBuilder();
    sb.WriteString(Decimal(h.legacyVersion));
    assert sb.s == Decimal(h.legacyVersion);
    sb.WriteString(",");
    WriteDecList(sb, h.ciphers);
    sb.WriteString(",");
    WriteDecList(sb, h.extensions);
    sb.WriteString(",");
    WriteDecList(sb, h.groups);
    sb.WriteString(",");
    WriteByteDecList(sb, h.pointFormats);
    ghost var f := FP.Ja3Fields(h);
    FP.JoinFive(f[0], f[1], f[2], f[3], f[4]);
    r := md5(sb.s);
  }

  method CountNonGrease(vals: seq<u16>) returns (n: nat)
    ensures n == FP.CountNonGrease(vals)
  {
    n := 0;
    for i := 0 to |vals|
      invariant n == |FP.NonGrease(vals[..i])|
    {
      NonGreaseMore(vals, i);
      if !FP.IsGrease(vals[i]) {
        n := n + 1;
      }
    }
    assert vals[..|vals|] == vals;
    if n > 99 {
      n := 99;
    }
  }

  method Ja4Version(vs: seq<u16>, fallback: u16) returns (code: string)
    ensures code == FP.VersionCode(FP.MaxVersion(vs, fallback))
    ensures R.ReadsAsVersion(code, vs, fallback)
  {
    R.VersionReads(vs, fallback);
    hide R.ReadsAsVersion, FP.VersionCode;
    var ver := fallback;
    for i := 0 to |vs|
      invariant ver == FP.MaxVersion(vs[..i], fallback)
    {
      assert vs[..i + 1][..i] == vs[..i];
      if !FP.IsGrease(vs[i]) && vs[i] > ver {
        ver := vs[i];
      }
    }
    assert vs[..|vs|] == vs;
    code := FP.VersionCode(ver);
  }

  /** Collects the hex forms of the values that pass a test. */
  method CollectHex(vs: seq<u16>, keep: u16 -> bool) returns (vals: seq<string>)
    ensures vals == Map(FP.Hex4, Filter(keep, vs))
  {
    vals := [];
    for i := 0 to |vs|
      invariant vals == Map(FP.Hex4, Filter(keep, vs[..i]))
    {
      assert vs[..i + 1] == vs[..i] + [vs[i]];
      FilterSnoc(keep, vs[..i], vs[i]);
      MapSnoc(FP.Hex4, Filter(keep, vs[..i]), vs[i]);
      assert Filter(keep, vs[..i]) + [] == Filter(keep, vs[..i]);
      if !keep(vs[i]) {
        continue;
      }
      vals := vals + [FP.Hex4(vs[i])];
    }
    assert vs[..|vs|] == vs;
  }

  method CiphersHexSorted(ciphers: seq<u16>) returns (s: string)
    ensures s == FP.CipherText(ciphers)
  {
    var vals := CollectHex(ciphers, FP.NotGrease);
    vals := SortStrings(vals);
    s := Join(vals, ',');
  }

  method Ja4ExtensionHash(exts: seq<u16>, sigAlgs: seq<u16>, sha: string -> string) returns (r: string)
    requires FP.IsDigest(sha)
    ensures r == match FP.ExtText(exts, sigAlgs) case None => FP.ZEROS case Some(s) => FP.Ja4Hash(sha, s)
  {
    var vals := CollectHex(exts, FP.CountedType);
    if |vals| == 0 {
      return FP.ZEROS;
    }
    vals := SortStrings(vals);
    var s := Join(vals, ',');
    if |sigAlgs| > 0 {
      var algs := [];
      for i := 0 to |sigAlgs|
        invariant algs == Map(FP.Hex4, sigAlgs[..i])
      {
        assert sigAlgs[..i + 1] == sigAlgs[..i] + [sigAlgs[i]];
        MapSnoc(FP.Hex4, sigAlgs[..i], sigAlgs[i]);
        algs := algs + [FP.Hex4(sigAlgs[i])];
      }
      assert sigAlgs[..|sigAlgs|] == sigAlgs;
      s := s + ("_" + Join(algs, ','));
    }
    assert s + "" == s;
    r := FP.Ja4Hash(sha, s);
  }

  /** The JA4 of a hello, which reads as it should, part by part. */
  method Ja4(h: ClientHello, sha: string -> string) returns (r: string)
    requires FP.IsDigest(sha)
    ensures r == FP.Ja4(sha, h)
    ensures R.ReadsAsJa4(r, h, sha)
  {
    r := WriteJa4(h, sha);
    R.Ja4Reads(h, sha);
  }

  method WriteJa4(h: ClientHello, sha: string -> string) returns (r: string)
    requires FP.IsDigest(sha)
    ensures r == FP.Ja4(sha, h)
  {
    hide R.ReadsAsVersion;
    hide FP.CountNonGrease, FP.MaxVersion, FP.CipherText, FP.ExtText, FP.Ja4Alpn, FP.VersionCode, FP.TwoDigit;
    var a := new StringBuilder();
    a.WriteString("t");
    var code := Ja4Version(h.suppVersions, h.legacyVersion);
    a.WriteString(code);
    if h.sni != "" {
      a.WriteString("d");
    } else {
      a.WriteString("i");
    }
    var n := CountNonGrease(h.ciphers);
    a.WriteString(FP.TwoDigit(n));
    n := CountNonGrease(h.extensions);
    a.WriteString(FP.TwoDigit(n));
    a.WriteString(FP.Ja4Alpn(h.alpn));
    assert a.s == FP.Ja4A(h);
    a.WriteString("_");
    var text := CiphersHexSorted(h.ciphers);
    a.WriteString(FP.Ja4Hash(sha, text));
    a.WriteString("_");
    var ext := Ja4ExtensionHash(h.extensions, h.sigAlgs, sha);
    a.WriteString(ext);
    r := a.s;
  }
}
