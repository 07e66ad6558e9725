/** The wire format in numbers: where each field of a record stands, which type code carries
    which extension, and which bytes each extension decoder accepts. Nothing here refers to
    the parser's named constants. */
module HelloLayout {
  import opened Options
  import opened Wire
  import opened HelloFormat
  import opened HelloBuilder
  import P = HelloParser

  // ----- the record ---------------------------------------------------------------------

  /** A list of numbers is the bytes of each, high byte first, one after another. */
  lemma {:induction false} NumberAt(vs: seq<u16>, i: nat)
    requires i < |vs|
    ensures EncodeU16s(vs)[2 * i] as int * 256 + EncodeU16s(vs)[2 * i + 1] as int == vs[i]
  {
    var init, last := vs[..|vs| - 1], vs[|vs| - 1];
    assert EncodeU16s(vs) == EncodeU16s(init) + U16Bytes(last);
    if i < |vs| - 1 {
      NumberAt(init, i);
    }
  }

  lemma OneEntry(e: Entry)
    requires |e.data| < 65536
    ensures EncodeEntry(e) == [e.typ / 256, e.typ % 256, |e.data| / 256, |e.data| % 256] + e.data
  {
  }

  /** An entry among others: its type and length, high byte first, and its data. */
  lemma {:induction false} EntryLayout(before: seq<Entry>, e: Entry, behind: seq<Entry>)
    requires |e.data| < 65536
    ensures EncodeEntries(before + [e] + behind)
         == EncodeEntries(before) + [e.typ / 256, e.typ % 256, |e.data| / 256, |e.data| % 256] + e.data
            + EncodeEntries(behind)
  {
    var all := before + [e] + behind;
    OneEntry(e);
    hide EncodeEntry;
    if before == [] {
      assert all[1..] == behind && all[0] == e;
    } else {
      assert all[1..] == before[1..] + [e] + behind && all[0] == before[0];
      EntryLayout(before[1..], e, behind);
    }
  }

  /** A built record, byte by byte: the record header, the handshake header, version, random,
      session, ciphers, compressions and extensions, each behind its length. */
  lemma BuildLayout(b: Builder)
    requires HelloBuilder.Fits(b)
    ensures var block, ciphers := EncodeEntries(b.extensions), EncodeU16s(b.ciphers);
            var v, w, s, c := b.recordVersion, b.legacyVersion, |b.sessionId|, 2 * |b.ciphers|;
            var m, e := |b.compressions|, |block|;
            var n := 40 + s + c + m + e;
            && n + 4 < 65536
            && Build(b)
               == [22, v / 256, v % 256, (n + 4) / 256, (n + 4) % 256]
                  + ([1, 0, n / 256, n % 256]
                     + ([w / 256, w % 256] + Zeros(32)
                        + ([s] + b.sessionId
                           + ([c / 256, c % 256] + ciphers
                              + ([m] + b.compressions
                                 + ([e / 256, e % 256] + block))))))
  {
    var block, ciphers := EncodeEntries(b.extensions), EncodeU16s(b.ciphers);
    hide EncodeEntries, EncodeU16s;
    var body := EncodeBody(BodyOf(b));
    assert |Handshake(body)| == |body| + 4 < 65536;
    BodyLayout(b);
    hide EncodeBody, HelloBuilder.Fits;
    HeaderLayout(b.recordVersion, body);
  }

  lemma HeaderLayout(v: u16, body: seq<byte>)
    requires |body| + 4 < 65536
    ensures var n := |body|;
            Record(v, Handshake(body))
            == [22, v / 256, v % 256, (n + 4) / 256, (n + 4) % 256] + ([1, 0, n / 256, n % 256] + body)
  {
    var n, hs := |body|, Handshake(body);
    NoOverflow(n);
    assert |hs| == n + 4;
    assert [HANDSHAKE] + U16Bytes(v) + U16Bytes(n + 4) == [22, v / 256, v % 256, (n + 4) / 256, (n + 4) % 256];
  }

  lemma NoOverflow(n: nat)
    requires n + 4 < 65536
    ensures n / 65536 % 256 == 0 && n / 256 % 256 == n / 256 && (n + 4) / 256 % 256 == (n + 4) / 256
  {
  }

  lemma BodyLayout(b: Builder)
    requires HelloBuilder.Fits(b)
    ensures var block, ciphers := EncodeEntries(b.extensions), EncodeU16s(b.ciphers);
            var w, s, c, m, e := b.legacyVersion, |b.sessionId|, 2 * |b.ciphers|, |b.compressions|, |block|;
            EncodeBody(BodyOf(b))
            == [w / 256, w % 256] + Zeros(32)
               + ([s] + b.sessionId
                  + ([c / 256, c % 256] + ciphers
                     + ([m] + b.compressions
                        + ([e / 256, e % 256] + block))))
  {
    var block, ciphers := EncodeEntries(b.extensions), EncodeU16s(b.ciphers);
    var c, m, e := 2 * |b.ciphers|, |b.compressions|, |block|;
    assert e < 65536 && c < 65536 && m < 256 && |b.sessionId| < 256;
    assert U16Bytes(b.legacyVersion) == [b.legacyVersion / 256, b.legacyVersion % 256];
    hide EncodeEntries, EncodeU16s, HelloBuilder.Fits, Vec8, Vec16, U16Bytes, Zeros;
    Vec16Layout(block);
    Vec16Layout(ciphers);
    Vec8Layout(b.sessionId);
    Vec8Layout(b.compressions);
  }

  lemma Vec16Layout(x: seq<byte>)
    requires |x| < 65536
    ensures Vec16(x) == [|x| / 256, |x| % 256] + x
  {
  }

  lemma Vec8Layout(x: seq<byte>)
    requires |x| < 256
    ensures Vec8(x) == [|x|] + x
  {
  }

  // ----- the type codes -------------------------------------------------------------------

  /** Which extension each field of the hello comes from, by its code: the last entry of the
      type decides. */
  lemma TypeCodes(b: Builder, i: nat)
    requires HelloBuilder.Fits(b) && i < |b.extensions|
    requires forall j :: i < j < |b.extensions| ==> b.extensions[j].typ != b.extensions[i].typ
    ensures var r, t, d := ParseRecord(Build(b)), b.extensions[i].typ, b.extensions[i].data;
            && r.Done?
            && (t == 0x0000 ==> r.hello.sni == ParseSni(d))
            && (t == 0x0010 ==> r.hello.alpn == ParseAlpn(d))
            && (t == 0x000d ==> r.hello.sigAlgs == ParseU16List2(d))
            && (t == 0x002b ==> r.hello.suppVersions == ParseU16List1(d))
            && (t == 0x000a ==> r.hello.groups == ParseU16List2(d))
            && (t == 0x000b ==> r.hello.pointFormats == ParsePointFormats(d))
  {
    hide ParseRecord, Build, ParseSni, ParseAlpn, ParseU16List1, ParseU16List2, ParsePointFormats;
    RoundTrip(b);
    LastWins(b.extensions, i);
  }

  // ----- what the decoders accept -----------------------------------------------------------

  function Skipped(es: seq<(byte, seq<byte>)>): seq<byte> {
    if es == [] then [] else [es[0].0] + Vec16(es[0].1) + Skipped(es[1..])
  }

  /** Entries of other types, then a host name; what stands behind it is not looked at. */
  ghost predicate HoldsHostName(list: seq<byte>, es: seq<(byte, seq<byte>)>, name: string, tail: seq<byte>) {
    && (forall i :: 0 <= i < |es| ==> es[i].0 != 0 && |es[i].1| < 65536)
    && IsByteString(name) && |name| < 65536
    && list == Skipped(es) + ([0] + Vec16(AsBytes(name)) + tail)
  }

  lemma EntryOfNames(t: byte, x: seq<byte>, rest: seq<byte>)
    requires |x| < 65536
    ensures var list := [t] + Vec16(x) + rest;
            BE16(list, 1) == |x| && list[3..3 + |x|] == x && list[3 + |x|..] == rest
  {
    var list := [t] + Vec16(x) + rest;
    assert list[1..3] == U16Bytes(|x|);
    assert BE16(list, 1) == BE16(list[1..3], 0);
  }

  lemma NamesRebuild(list: seq<byte>)
    requires |list| >= 3 && 3 + BE16(list, 1) <= |list|
    ensures var l := BE16(list, 1) as int; [list[0]] + Vec16(list[3..3 + l]) + list[3 + l..] == list
  {
    var l := BE16(list, 1) as int;
    assert U16Bytes(l) == list[1..3];
    assert list == [list[0]] + list[1..3] + list[3..3 + l] + list[3 + l..];
  }

  lemma {:induction false} HostNameComplete(list: seq<byte>, es: seq<(byte, seq<byte>)>, name: string, tail: seq<byte>)
    requires HoldsHostName(list, es, name, tail)
    ensures FirstHostName(list) == name
    decreases |es|
  {
    if es == [] {
      EntryOfNames(0, AsBytes(name), tail);
      assert list == [0] + Vec16(AsBytes(name)) + tail;
      StringOfBytes(name);
    } else {
      var rest := Skipped(es[1..]) + ([0] + Vec16(AsBytes(name)) + tail);
      EntryOfNames(es[0].0, es[0].1, rest);
      assert list == [es[0].0] + Vec16(es[0].1) + rest;
      hide Vec16, AsBytes;
      HostNameComplete(rest, es[1..], name, tail);
    }
  }

  lemma HoldsMore(t: byte, x: seq<byte>, list: seq<byte>, es: seq<(byte, seq<byte>)>, name: string, tail: seq<byte>)
    requires t != 0 && |x| < 65536 && HoldsHostName(list, es, name, tail)
    ensures HoldsHostName([t] + Vec16(x) + list, [(t, x)] + es, name, tail)
  {
    hide Vec16, AsBytes, IsByteString;
    assert ([(t, x)] + es)[1..] == es;
    Assoc([t] + Vec16(x), Skipped(es), [0] + Vec16(AsBytes(name)) + tail);
  }

  lemma {:induction false} HostNameSound(list: seq<byte>) returns (es: seq<(byte, seq<byte>)>, tail: seq<byte>)
    requires FirstHostName(list) != ""
    ensures HoldsHostName(list, es, FirstHostName(list), tail)
    decreases |list|
  {
    var l := BE16(list, 1) as int;
    var x, rest := list[3..3 + l], list[3 + l..];
    NamesRebuild(list);
    if list[0] == 0 {
      es, tail := [], rest;
      assert AsBytes(AsString(x)) == x;
      assert Skipped([]) + list == list;
    } else {
      hide Vec16, HoldsHostName;
      var more;
      more, tail := HostNameSound(rest);
      HoldsMore(list[0], x, rest, more, FirstHostName(rest), tail);
      es := [(list[0], x)] + more;
    }
  }

  /** Section 3 of RFC 6066: a name is read exactly from a list of that length that holds it
      as its first entry of type 0, behind well-formed entries of other types; anything may
      follow. All other data reads as no name. */
  lemma SniExactly(d: seq<byte>, name: string)
    requires name != ""
    ensures ParseSni(d) == name <==>
            exists list, rest, es, tail ::
              |list| < 65536 && d == Vec16(list) + rest && HoldsHostName(list, es, name, tail)
  {
    hide HoldsHostName, Vec16, TakeVec16;
    if ParseSni(d) == name {
      var (list, rest) := TakeVec16(d).value;
      Vec16Exact(d, list, rest);
      var es, tail := HostNameSound(list);
    }
    if list, rest, es, tail :| |list| < 65536 && d == Vec16(list) + rest && HoldsHostName(list, es, name, tail) {
      Vec16Exact(d, list, rest);
      HostNameComplete(list, es, name, tail);
    }
  }

  lemma {:induction false} AlpnNamesSound(list: seq<byte>)
    requires AlpnNames(list).Some?
    ensures var ps := AlpnNames(list).value;
            AllByteStrings(ps) && (forall i :: 0 <= i < |ps| ==> |ps[i]| < 256) && AlpnList(ps) == list
    decreases |list|
  {
    if list != [] {
      var (name, rest) := TakeVec8(list).value;
      Vec8Exact(list, name, rest);
      hide TakeVec8, Vec8;
      AlpnNamesSound(rest);
      var ps := AlpnNames(list).value;
      assert ps[1..] == AlpnNames(rest).value;
      assert AsBytes(AsString(name)) == name;
      assert forall i :: 1 <= i < |ps| ==> ps[i] == ps[1..][i - 1];
    }
  }

  /** Section 3.1 of RFC 7301: protocols are read exactly from a list of that length that holds
      just them, each behind its length byte. All other data reads as no protocols. */
  lemma AlpnExactly(d: seq<byte>, ps: seq<string>)
    requires ps != []
    ensures ParseAlpn(d) == ps <==>
            && AllByteStrings(ps) && (forall i :: 0 <= i < |ps| ==> |ps[i]| < 256)
            && exists rest :: |AlpnList(ps)| < 65536 && d == Vec16(AlpnList(ps)) + rest
  {
    hide Vec16, TakeVec16, AlpnList, AlpnNames;
    if ParseAlpn(d) == ps {
      var (list, rest) := TakeVec16(d).value;
      Vec16Exact(d, list, rest);
      AlpnNamesSound(list);
    }
    if AllByteStrings(ps) && forall i :: 0 <= i < |ps| ==> |ps[i]| < 256 {
      if rest :| |AlpnList(ps)| < 65536 && d == Vec16(AlpnList(ps)) + rest {
        Vec16Exact(d, AlpnList(ps), rest);
        AlpnNamesReadBack(ps);
      }
    }
  }

  /** A list of 16-bit values behind a two-byte length, with anything behind it. */
  lemma U16List2Exactly(d: seq<byte>, vs: seq<u16>)
    requires vs != []
    ensures ParseU16List2(d) == vs <==> exists rest :: |vs| < 32768 && d == Vec16(EncodeU16s(vs)) + rest
  {
    hide Vec16, TakeVec16, EncodeU16s, DecodeU16s;
    if ParseU16List2(d) == vs {
      var (list, rest) := TakeVec16(d).value;
      Vec16Exact(d, list, rest);
      EncodeOfDecode(list);
    }
    if rest :| |vs| < 32768 && d == Vec16(EncodeU16s(vs)) + rest {
      Vec16Exact(d, EncodeU16s(vs), rest);
      DecodeOfEncode(vs);
    }
  }

  /** The same behind a one-byte length. */
  lemma U16List1Exactly(d: seq<byte>, vs: seq<u16>)
    requires vs != []
    ensures ParseU16List1(d) == vs <==> exists rest :: |vs| < 128 && d == Vec8(EncodeU16s(vs)) + rest
  {
    hide Vec8, TakeVec8, EncodeU16s, DecodeU16s;
    if ParseU16List1(d) == vs {
      var (list, rest) := TakeVec8(d).value;
      Vec8Exact(d, list, rest);
      EncodeOfDecode(list);
    }
    if rest :| |vs| < 128 && d == Vec8(EncodeU16s(vs)) + rest {
      Vec8Exact(d, EncodeU16s(vs), rest);
      DecodeOfEncode(vs);
    }
  }

  /** Section 5.1.2 of RFC 8422: bytes behind a one-byte length. */
  lemma PointFormatsExactly(d: seq<byte>, x: seq<byte>)
    requires x != []
    ensures ParsePointFormats(d) == x <==> exists rest :: |x| < 256 && d == Vec8(x) + rest
  {
    hide TakeVec8, Vec8;
    if ParsePointFormats(d) == x {
      var (list, rest) := TakeVec8(d).value;
      Vec8Exact(d, list, rest);
    }
    if rest :| |x| < 256 && d == Vec8(x) + rest {
      Vec8Exact(d, x, rest);
    }
  }

  // ----- what the body parser accepts ---------------------------------------------------------

  /** A body is accepted exactly if its lengths, walked from byte 34 on, stay within it, there
      is at least one cipher and one compression, and the extension block is a concatenation
      of entries. */
  lemma AcceptedExactly(body: seq<byte>)
    ensures ParseBody(body).Done? <==>
            && |body| >= 40
            && var p1 := 35 + body[34] as int;
            && p1 + 2 <= |body|
            && var c := body[p1] as int * 256 + body[p1 + 1] as int;
            && c >= 2 && c % 2 == 0 && p1 + 2 + c + 1 <= |body|
            && var p2 := p1 + 2 + c;
            && body[p2] >= 1 && p2 + 1 + body[p2] as int + 2 <= |body|
            && var p3 := p2 + 1 + body[p2] as int;
            && var n := body[p3] as int * 256 + body[p3 + 1] as int;
            && p3 + 2 + n <= |body|
            && exists es :: EntriesFit(es) && EncodeEntries(es) == body[p3 + 2..p3 + 2 + n]
    ensures ParseBody(body).Done? || ParseBody(body).Invalid?
  {
    hide ParseEntries, EncodeEntries, Interpret, ParseBody;
    P.BodyByCursor(body);
    var c := P.CursorFrom(body);
    if c.At? {
      var block := body[c.extStart..c.extEnd];
      if ParseEntries(block).Some? {
        EntriesExact(block, ParseEntries(block).value);
      }
      if es :| EntriesFit(es) && EncodeEntries(es) == block {
        EntriesExact(block, es);
      }
    }
  }

  /** The verdict on any bytes, from the record header and the handshake header down to the
      body. */
  lemma RecordExactly(b: seq<byte>)
    ensures ParseRecord(b) ==
            if |b| < 5 then NeedMore
            else if b[0] != 22 then Invalid
            else
              var recLen := b[3] as int * 256 + b[4] as int;
              if recLen < 4 then Invalid
              else if |b| < 5 + recLen then NeedMore
              else if b[5] != 1 then Invalid
              else
                var hsLen := b[6] as int * 65536 + b[7] as int * 256 + b[8] as int;
                if recLen < 4 + hsLen then NeedMore else ParseBody(b[9..9 + hsLen])
  {
    hide ParseBody;
    if |b| >= 5 && BE16(b, 3) >= 4 && |b| >= 5 + BE16(b, 3) {
      var recLen := BE16(b, 3) as int;
      var hb := b[5..5 + recLen];
      assert hb[0] == b[5] && hb[1] == b[6] && hb[2] == b[7] && hb[3] == b[8];
      var hsLen := b[6] as int * 65536 + b[7] as int * 256 + b[8] as int;
      if recLen >= 4 + hsLen {
        SliceOfSlice(b, 5, 5 + recLen, 4, 4 + hsLen);
      }
    }
  }
}
