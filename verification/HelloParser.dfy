/** The incremental parser as the probe runs it: a byte buffer that is appended to
    and reused, and cursors that walk slices of it. Every method is tied to the
    grammar of HelloFormat. */
module HelloParser {
  import opened Options
  import opened Wire
  import F = HelloFormat
  type Outcome<+H> = F.Outcome<H>

  /** The most the buffer may hold; a connection that would exceed it is refused. */
  const MAX_HELLO := 64 * 1024

  /** A Go slice of a byte array. */
  datatype View = View(arr: array<byte>, lo: nat, hi: nat)

  /** A returned ClientHello. Lists of 16-bit values and strings are copies by their
      Go types; `pointFormats` is a byte slice of its own, while `extData` still
      points into the parser's buffer. */
  datatype HelloRef = HelloRef(
    legacyVersion: u16,
    ciphers: seq<u16>,
    extensions: seq<u16>,
    extData: map<u16, View>,
    sni: string,
    alpn: seq<string>,
    sigAlgs: seq<u16>,
    suppVersions: seq<u16>,
    groups: seq<u16>,
    pointFormats: array<byte>)

  /** Everything of a returned hello but its views into the buffer. */
  function Fields(h: HelloRef): F.ClientHello
    reads h.pointFormats
  {
    F.ClientHello(h.legacyVersion, h.ciphers, h.extensions, map[], h.sni, h.alpn,
                  h.sigAlgs, h.suppVersions, h.groups, h.pointFormats[..])
  }

  /** The views lie in `buf` and currently show `m`. */
  ghost predicate Shows(views: map<u16, View>, buf: array<byte>, m: map<u16, seq<byte>>)
    reads buf
  {
    && views.Keys == m.Keys
    && forall t :: t in views ==>
         && views[t].arr == buf
         && views[t].lo <= views[t].hi <= buf.Length
         && buf[views[t].lo..views[t].hi] == m[t]
  }

  /** The views end before `n`. */
  ghost predicate EndBefore(views: map<u16, View>, n: nat) {
    forall t :: t in views ==> views[t].hi <= n
  }

  ghost predicate Agrees(r: Outcome<HelloRef>, buf: array<byte>, o: Outcome<F.ClientHello>)
    reads buf
    reads if r.Done? then {r.hello.pointFormats} else {}
  {
    match r
    case NeedMore => o.NeedMore?
    case Invalid => o.Invalid?
    case Done(h) => o.Done? && Fields(h) == o.hello.(extData := map[]) && Shows(h.extData, buf, o.hello.extData)
  }

  // ----- vectors seen from a cursor -------------------------------------------------

  lemma Vec8At(d: seq<byte>, pos: nat)
    requires pos <= |d|
    ensures TakeVec8(d[pos..]) ==
            if pos + 1 > |d| || pos + 1 + d[pos] > |d| then None
            else Some((d[pos + 1..pos + 1 + d[pos]], d[pos + 1 + d[pos]..]))
  {
    if pos + 1 <= |d| && pos + 1 + d[pos] <= |d| {
      SliceOfSuffix(d, pos, 1, 1 + d[pos] as int);
    }
  }

  lemma Vec16At(d: seq<byte>, pos: nat)
    requires pos <= |d|
    ensures TakeVec16(d[pos..]) ==
            if pos + 2 > |d| || pos + 2 + BE16(d, pos) > |d| then None
            else Some((d[pos + 2..pos + 2 + BE16(d, pos)], d[pos + 2 + BE16(d, pos)..]))
  {
    if pos + 2 <= |d| {
      assert BE16(d[pos..], 0) == BE16(d, pos);
      if pos + 2 + BE16(d, pos) <= |d| {
        SliceOfSuffix(d, pos, 2, 2 + BE16(d, pos) as int);
      }
    }
  }

  // ----- the extension decoders -------------------------------------------------------

  /** Reads 16-bit values two bytes at a time. */
  method ReadU16s(d: seq<byte>, n: nat) returns (out: seq<u16>)
    requires n <= |d| && n % 2 == 0
    ensures out == DecodeU16s(d[..n])
  {
    out := [];
    var i := 0;
    assert d[..0] == [];
    while i < n
      invariant i <= n && i % 2 == 0
      invariant out == DecodeU16s(d[..i])
    {
      DecodeSnoc(d, i);
      out := out + [BE16(d, i)];
      i := i + 2;
    }
  }

  method ReadU16List2(d: seq<byte>) returns (out: seq<u16>)
    ensures out == F.ParseU16List2(d)
  {
    Vec16At(d, 0);
    assert d[0..] == d;
    if |d| < 2 {
      return [];
    }
    var n := BE16(d, 0);
    var rest := d[2..];
    if n > |rest| || n % 2 != 0 {
      return [];
    }
    assert rest[..n] == d[2..2 + n];
    out := ReadU16s(rest, n);
  }

  method ReadU16List1(d: seq<byte>) returns (out: seq<u16>)
    ensures out == F.ParseU16List1(d)
  {
    Vec8At(d, 0);
    assert d[0..] == d;
    if |d| < 1 {
      return [];
    }
    var n := d[0];
    var rest := d[1..];
    if n > |rest| || n % 2 != 0 {
      return [];
    }
    assert rest[..n] == d[1..1 + n];
    out := ReadU16s(rest, n);
  }

  /** Copies the formats out, so that the result does not share the buffer. */
  method ReadPointFormats(d: seq<byte>) returns (out: array<byte>)
    ensures fresh(out) && out[..] == F.ParsePointFormats(d)
  {
    if |d| < 1 || d[0] > |d[1..]| {
      return new byte[0];
    }
    var n := d[0];
    out := new byte[n](i requires 0 <= i < n && 1 + n <= |d| => d[1 + i]);
    assert out[..] == d[1..1 + n];
  }

  lemma HostNameAt(list: seq<byte>, pos: nat)
    requires pos <= |list|
    ensures F.FirstHostName(list[pos..]) ==
            if pos + 3 > |list| then ""
            else
              var l := BE16(list, pos + 1) as int;
              if pos + 3 + l > |list| then ""
              else if list[pos] == 0 then AsString(list[pos + 3..pos + 3 + l])
              else F.FirstHostName(list[pos + 3 + l..])
  {
    var s := list[pos..];
    if |s| >= 3 {
      var l := BE16(s, 1) as int;
      assert l == BE16(list, pos + 1);
      if 3 + l <= |s| {
        SliceOfSuffix(list, pos, 3, 3 + l);
      }
    }
  }

  method ReadSni(d: seq<byte>) returns (name: string)
    ensures name == F.ParseSni(d)
  {
    hide F.FirstHostName;
    if |d| < 2 {
      return "";
    }
    var n: nat := BE16(d, 0);
    if n > |d[2..]| {
      return "";
    }
    var list := d[2..2 + n];
    var pos := 0;
    assert list[0..] == list;
    while pos < n
      invariant pos <= n
      invariant F.FirstHostName(list[pos..]) == F.FirstHostName(list)
    {
      HostNameAt(list, pos);
      if pos + 3 > n {
        return "";
      }
      var typ := list[pos];
      var l: nat := BE16(list, pos + 1);
      pos := pos + 3;
      if pos + l > n {
        return "";
      }
      if typ == 0 {
        return AsString(list[pos..pos + l]);
      }
      pos := pos + l;
    }
    HostNameAt(list, n);
    return "";
  }

  /** The names read so far in front of those still to come. */
  ghost function Before<T>(done: seq<T>, rest: Option<seq<T>>): Option<seq<T>> {
    if rest.None? then None else Some(done + rest.value)
  }

  lemma BeforeBefore<T>(xs: seq<T>, ys: seq<T>, rest: Option<seq<T>>)
    ensures Before([], rest) == rest
    ensures Before(xs, Before(ys, rest)) == Before(xs + ys, rest)
  {
    if rest.Some? {
      assert [] + rest.value == rest.value;
      assert xs + (ys + rest.value) == xs + ys + rest.value;
    }
  }

  lemma AlpnNamesAt(list: seq<byte>, pos: nat)
    requires pos < |list|
    ensures F.AlpnNames(list[pos..]) ==
            var l := list[pos] as int;
            if pos + 1 + l > |list| then None
            else Before([AsString(list[pos + 1..pos + 1 + l])], F.AlpnNames(list[pos + 1 + l..]))
  {
    Vec8At(list, pos);
  }

  lemma AlpnNamesEnd(list: seq<byte>)
    requires list == []
    ensures F.AlpnNames(list) == Some([])
  {
  }

  method ReadAlpn(d: seq<byte>) returns (out: seq<string>)
    ensures out == F.ParseAlpn(d)
  {
    hide F.AlpnNames;
    if |d| < 2 {
      return [];
    }
    var n: nat := BE16(d, 0);
    if n > |d[2..]| {
      return [];
    }
    var list := d[2..2 + n];
    out := [];
    var pos := 0;
    assert list[0..] == list;
    BeforeBefore(out, out, F.AlpnNames(list));
    while pos < n
      invariant pos <= n
      invariant F.AlpnNames(list) == Before(out, F.AlpnNames(list[pos..]))
    {
      AlpnNamesAt(list, pos);
      var l: nat := list[pos];
      pos := pos + 1;
      if pos + l > n {
        return [];
      }
      var name := AsString(list[pos..pos + l]);
      BeforeBefore(out, [name], F.AlpnNames(list[pos + l..]));
      out := out + [name];
      pos := pos + l;
    }
    AlpnNamesEnd(list[n..]);
  }

  // ----- the body ---------------------------------------------------------------------

  lemma EntriesAt(body: seq<byte>, pos: nat, end: nat)
    requires pos < end <= |body|
    ensures F.ParseEntries(body[pos..end]) ==
            if pos + 4 > end then None
            else
              var l := BE16(body, pos + 2) as int;
              if pos + 4 + l > end then None
              else Before([F.Entry(BE16(body, pos), body[pos + 4..pos + 4 + l])],
                          F.ParseEntries(body[pos + 4 + l..end]))
  {
    var s := body[pos..end];
    if |s| >= 4 {
      var l := BE16(s, 2) as int;
      assert l == BE16(body, pos + 2) && BE16(s, 0) == BE16(body, pos);
      if 4 + l <= |s| {
        SliceOfSlice(body, pos, end, 4, 4 + l);
        SliceOfSlice(body, pos, end, 4 + l, |s|);
      }
    }
  }

  lemma ShowsMore(views: map<u16, View>, buf: array<byte>, es: seq<F.Entry>, e: F.Entry, v: View)
    requires Shows(views, buf, F.ExtData(es))
    requires v.arr == buf && v.lo <= v.hi <= buf.Length && buf[v.lo..v.hi] == e.data
    ensures Shows(views[e.typ := v], buf, F.ExtData(es + [e]))
    ensures F.Types(es + [e]) == F.Types(es) + [e.typ]
  {
    assert (es + [e])[..|es|] == es;
  }

  lemma NoEntries(buf: array<byte>, rest: seq<byte>)
    requires rest == []
    ensures F.ParseEntries(rest) == Some([])
    ensures Shows(map[], buf, F.ExtData([])) && F.Types([]) == []
  {
  }

  /** Walks the extension block body[pos..extEnd], where body is buf[base..end]. */
  method ReadExtensions(buf: array<byte>, base: nat, end: nat, start: nat, extEnd: nat)
    returns (ok: bool, types: seq<u16>, data: map<u16, View>, ghost es: seq<F.Entry>)
    requires base <= end <= buf.Length && start <= extEnd <= end - base
    ensures ok <==> F.ParseEntries(buf[base..end][start..extEnd]).Some?
    ensures ok ==> es == F.ParseEntries(buf[base..end][start..extEnd]).value
    ensures ok ==> types == F.Types(F.ParseEntries(buf[base..end][start..extEnd]).value)
    ensures ok ==> Shows(data, buf, F.ExtData(F.ParseEntries(buf[base..end][start..extEnd]).value))
    ensures EndBefore(data, end)
  {
    hide F.ParseEntries, F.ExtData, Shows;
    var body := buf[base..end];
    ghost var block := body[start..extEnd];
    NoEntries(buf, []);
    var pos := start;
    types, data, es, ok := [], map[], [], true;
    BeforeBefore(es, es, F.ParseEntries(block));
    while pos < extEnd
      invariant ok && start <= pos <= extEnd
      invariant F.ParseEntries(block) == Before(es, F.ParseEntries(body[pos..extEnd]))
      invariant types == F.Types(es)
      invariant Shows(data, buf, F.ExtData(es))
      invariant EndBefore(data, end)
    {
      EntriesAt(body, pos, extEnd);
      if pos + 4 > extEnd {
        return false, [], map[], [];
      }
      var typ := BE16(body, pos);
      var l: nat := BE16(body, pos + 2);
      pos := pos + 4;
      if pos + l > extEnd {
        return false, [], map[], [];
      }
      ghost var e := F.Entry(typ, body[pos..pos + l]);
      BeforeBefore(es, [e], F.ParseEntries(body[pos + l..extEnd]));
      SliceOfSlice(buf[..], base, end, pos, pos + l);
      ShowsMore(data, buf, es, e, View(buf, base + pos, base + pos + l));
      types := types + [typ];
      data := data[typ := View(buf, base + pos, base + pos + l)];
      es := es + [e];
      pos := pos + l;
    }
    NoEntries(buf, body[extEnd..extEnd]);
    assert es + [] == es;
  }

  method DataOf(buf: array<byte>, data: map<u16, View>, t: u16, ghost m: map<u16, seq<byte>>) returns (d: seq<byte>)
    requires Shows(data, buf, m)
    ensures d == F.Lookup(m, t)
  {
    if t in data {
      d := data[t].arr[data[t].lo..data[t].hi];
    } else {
      d := [];
    }
  }

  /** The fields of a body by position. */
  datatype Cursor = Bad | At(ciphers: seq<byte>, extStart: nat, extEnd: nat)

  function CursorFrom(body: seq<byte>): (c: Cursor)
    ensures c.At? ==> c.extStart <= c.extEnd <= |body| && |c.ciphers| % 2 == 0
  {
    if |body| < 40 then Bad else
    var p0 := 34;
    if p0 + 1 > |body| || p0 + 1 + body[p0] > |body| then Bad else
    var p1 := p0 + 1 + body[p0] as int;
    if p1 + 2 > |body| || p1 + 2 + BE16(body, p1) > |body| then Bad else
    var p2 := p1 + 2 + BE16(body, p1) as int;
    if BE16(body, p1) < 2 || BE16(body, p1) % 2 != 0 then Bad else
    if p2 + 1 > |body| || p2 + 1 + body[p2] > |body| || body[p2] < 1 then Bad else
    var p3 := p2 + 1 + body[p2] as int;
    if p3 + 2 > |body| || p3 + 2 + BE16(body, p3) > |body| then Bad else
    At(body[p1 + 2..p2], p3 + 2, p3 + 2 + BE16(body, p3) as int)
  }

  /** The grammar, read by position. */
  lemma BodyByCursor(body: seq<byte>)
    ensures var c := CursorFrom(body);
            F.ParseBody(body) ==
            if c.Bad? then F.Invalid
            else
              var es := F.ParseEntries(body[c.extStart..c.extEnd]);
              if es.None? then F.Invalid
              else F.Done(F.Interpret(BE16(body, 0), DecodeU16s(c.ciphers), es.value))
  {
    hide F.ParseEntries, F.Interpret, TakeVec8, TakeVec16, DecodeU16s;
    if |body| < 40 {
      return;
    }
    var p0 := 34;
    Vec8At(body, p0);
    if p0 + 1 + body[p0] <= |body| {
      var p1 := p0 + 1 + body[p0] as int;
      Vec16At(body, p1);
      if p1 + 2 <= |body| && p1 + 2 + BE16(body, p1) <= |body| {
        var p2 := p1 + 2 + BE16(body, p1) as int;
        Vec8At(body, p2);
        if p2 + 1 <= |body| && p2 + 1 + body[p2] <= |body| {
          Vec16At(body, p2 + 1 + body[p2] as int);
        }
      }
    }
  }

  method ParseBody(buf: array<byte>, base: nat, end: nat) returns (r: Outcome<HelloRef>)
    requires base <= end <= buf.Length
    ensures Agrees(r, buf, F.ParseBody(buf[base..end]))
    ensures r.Done? ==> fresh(r.hello.pointFormats) && EndBefore(r.hello.extData, end)
  {
    hide F.ParseBody, DecodeU16s, F.ParseEntries, F.Interpret, F.ExtData, F.Types, Shows, Fields;
    var body := buf[base..end];
    BodyByCursor(body);
    if |body| < 2 + 32 + 1 + 2 + 1 + 2 {
      return F.Invalid;
    }
    var pos := 0;
    var version := BE16(body, pos);
    pos := pos + 2 + 32;

    var sidLen: nat := body[pos];
    pos := pos + 1;
    if pos + sidLen > |body| {
      return F.Invalid;
    }
    pos := pos + sidLen;

    if pos + 2 > |body| {
      return F.Invalid;
    }
    var cipherLen: nat := BE16(body, pos);
    pos := pos + 2;
    if cipherLen < 2 || cipherLen % 2 != 0 || pos + cipherLen > |body| {
      return F.Invalid;
    }
    SliceOfSlice(body, pos, |body|, 0, cipherLen);
    var ciphers := ReadU16s(body[pos..], cipherLen);
    assert body[pos..][..cipherLen] == body[pos..pos + cipherLen];
    pos := pos + cipherLen;

    if pos >= |body| {
      return F.Invalid;
    }
    var compLen: nat := body[pos];
    pos := pos + 1;
    if compLen < 1 || pos + compLen > |body| {
      return F.Invalid;
    }
    pos := pos + compLen;

    if pos + 2 > |body| {
      return F.Invalid;
    }
    var extLen: nat := BE16(body, pos);
    pos := pos + 2;
    if pos + extLen > |body| {
      return F.Invalid;
    }
    assert CursorFrom(body).At? && CursorFrom(body).extStart == pos && CursorFrom(body).extEnd == pos + extLen;
    assert DecodeU16s(CursorFrom(body).ciphers) == ciphers;
    var ok, types, data, es := ReadExtensions(buf, base, end, pos, pos + extLen);
    if !ok {
      return F.Invalid;
    }
    r := Extract(buf, version, ciphers, types, data, es);
  }

  /** Decodes the extensions the fingerprints use. */
  method Extract(buf: array<byte>, version: u16, ciphers: seq<u16>, types: seq<u16>, data: map<u16, View>,
                 ghost es: seq<F.Entry>)
    returns (r: Outcome<HelloRef>)
    requires types == F.Types(es) && Shows(data, buf, F.ExtData(es))
    ensures r.Done? && Agrees(r, buf, F.Done(F.Interpret(version, ciphers, es)))
    ensures fresh(r.hello.pointFormats) && r.hello.extData == data
  {
    hide F.ExtData, F.Lookup;
    ghost var m := F.ExtData(es);
    var d := DataOf(buf, data, F.EXT_SNI, m);
    var sni := ReadSni(d);
    d := DataOf(buf, data, F.EXT_ALPN, m);
    var alpn := ReadAlpn(d);
    d := DataOf(buf, data, F.EXT_SIG_ALGS, m);
    var sigAlgs := ReadU16List2(d);
    d := DataOf(buf, data, F.EXT_VERSIONS, m);
    var versions := ReadU16List1(d);
    d := DataOf(buf, data, F.EXT_GROUPS, m);
    var groups := ReadU16List2(d);
    d := DataOf(buf, data, F.EXT_POINT_FORMATS, m);
    var formats := ReadPointFormats(d);
    r := F.Done(HelloRef(version, ciphers, types, data, sni, alpn, sigAlgs, versions, groups, formats));
  }

  /** Parses the first `n` bytes of the buffer as one record. */
  method ParseRecord(buf: array<byte>, n: nat) returns (r: Outcome<HelloRef>)
    requires n <= buf.Length
    ensures Agrees(r, buf, F.ParseRecord(buf[..n]))
    ensures r.Done? ==> fresh(r.hello.pointFormats) && EndBefore(r.hello.extData, n)
  {
    hide F.ParseBody;
    ghost var b := buf[..n];
    if n < 5 {
      return F.NeedMore;
    }
    if buf[0] != F.HANDSHAKE {
      return F.Invalid;
    }
    var recLen := BE16(buf[..n], 3);
    if recLen < 4 {
      return F.Invalid;
    }
    if n < 5 + recLen {
      return F.NeedMore;
    }
    ghost var hb := b[5..5 + recLen];
    assert forall i :: 0 <= i < 4 ==> hb[i] == buf[5 + i];
    if buf[5] != F.CLIENT_HELLO {
      return F.Invalid;
    }
    var hsLen := buf[6] as int * 65536 + buf[7] as int * 256 + buf[8] as int;
    if recLen < 4 + hsLen {
      return F.NeedMore;
    }
    SliceOfSlice(b, 5, 5 + recLen, 4, 4 + hsLen);
    SliceOfSlice(buf[..], 0, n, 9, 9 + hsLen);
    r := ParseBody(buf, 9, 9 + hsLen);
  }

  // ----- the parser object --------------------------------------------------------------

  /** What one Feed answers: NeedMore is (nil, false, nil), Invalid is the error. */
  function FeedOutcome(pending: seq<byte>, b: seq<byte>): Outcome<F.ClientHello> {
    if |pending| + |b| > MAX_HELLO then F.Invalid else F.ParseRecord(pending + b)
  }

  /** What stays buffered after it. */
  function FeedPending(pending: seq<byte>, b: seq<byte>): seq<byte> {
    if FeedOutcome(pending, b).NeedMore? then pending + b else []
  }

  class HelloParser {
    var buf: array<byte>
    var len: nat

    ghost predicate Valid()
      reads this
    {
      len <= buf.Length && len <= MAX_HELLO
    }

    ghost function Pending(): seq<byte>
      requires Valid()
      reads this, buf
    {
      buf[..len]
    }

    constructor ()
      ensures Valid() && Pending() == [] && fresh(buf)
    {
      buf := new byte[0];
      len := 0;
    }

    /** append(p.buf, b...): in place while the capacity lasts, else into a new array
        of some larger capacity. */
    method Append(b: seq<byte>)
      requires Valid() && len + |b| <= MAX_HELLO
      modifies this, buf
      ensures Valid() && (buf == old(buf) || fresh(buf))
      ensures len == old(len) + |b| && Pending() == old(Pending()) + b
      ensures old(len) + |b| <= old(buf.Length) ==> buf == old(buf)
    {
      if len + |b| > buf.Length {
        var capacity: nat :| capacity >= len + |b|;
        var grown := new byte[capacity];
        forall i | 0 <= i < len {
          grown[i] := buf[i];
        }
        buf := grown;
      }
      forall i | 0 <= i < |b| {
        buf[len + i] := b[i];
      }
      len := len + |b|;
      assert buf[..len] == old(buf[..len]) + b;
    }

    /** Adds bytes and attempts parsing. A returned hello shares nothing with the
        buffer except its extData views; when the array is reused, those read the
        bytes fed last. */
    method Feed(b: seq<byte>) returns (r: Outcome<HelloRef>)
      requires Valid()
      modifies this, buf
      ensures Valid() && (buf == old(buf) || fresh(buf))
      ensures Pending() == FeedPending(old(Pending()), b)
      ensures Pending() == if r.NeedMore? then old(Pending()) + b else []
      ensures old(len) + |b| > 65536 ==> r.Invalid?
      ensures Agrees(r, buf, FeedOutcome(old(Pending()), b))
      ensures r.Done? ==> fresh(r.hello.pointFormats) && r.hello.pointFormats != buf
      ensures r.Done? ==> EndBefore(r.hello.extData, MAX_HELLO)
      ensures old(len) == 0 && |b| <= old(buf.Length) && |b| <= MAX_HELLO ==> buf == old(buf) && buf[..|b|] == b
    {
      hide F.ParseRecord;
      if len + |b| > MAX_HELLO {
        len := 0;
        return F.Invalid;
      }
      Append(b);
      r := ParseRecord(buf, len);
      match r {
        case Done(h) => len := 0;
        case Invalid => len := 0;
        case NeedMore =>
      }
    }
  }

  /** Aliasing safety: what JA3, JA4 and the SNI are computed from is untouched by any
      later sequence of feeds, although the backing array is reused. */
  method FeedMore(p: HelloParser, h: HelloRef, chunks: seq<seq<byte>>)
    requires p.Valid() && h.pointFormats != p.buf
    modifies p, p.buf
    ensures p.Valid() && (p.buf == old(p.buf) || fresh(p.buf))
    ensures Fields(h) == old(Fields(h))
  {
    for i := 0 to |chunks|
      invariant p.Valid() && (p.buf == old(p.buf) || fresh(p.buf))
      invariant h.pointFormats[..] == old(h.pointFormats[..])
    {
      var _ := p.Feed(chunks[i]);
    }
  }

  /** After a verdict, a feed that fits the capacity overwrites the array from the front. */
  method Overwrite(p: HelloParser, v: View, b: seq<byte>)
    requires p.Valid() && p.Pending() == [] && v.arr == p.buf
    requires v.lo <= v.hi <= |b| <= p.buf.Length && |b| <= MAX_HELLO
    modifies p, p.buf
    ensures p.Valid() && v.arr == p.buf && v.arr[v.lo..v.hi] == b[v.lo..v.hi]
  {
    hide FeedOutcome;
    var _ := p.Feed(b);
    SliceOfSlice(v.arr[..], 0, |b|, v.lo, v.hi);
    assert v.arr[..][0..|b|] == b;
  }

  /** The one exception: whatever hello a feed returns, another feed can change what each of
      its extData views that is not empty shows. */
  method StaleView(p: HelloParser, first: seq<byte>, t: u16) returns (r: Outcome<HelloRef>, before: seq<byte>)
    requires p.Valid()
    modifies p, p.buf
    ensures p.Valid()
    ensures var o := FeedOutcome(old(p.Pending()), first);
            o.Done? && t in o.hello.extData && o.hello.extData[t] != [] ==>
              && r.Done? && t in r.hello.extData && before == o.hello.extData[t]
              && var v := r.hello.extData[t];
                 v.arr == p.buf && v.lo <= v.hi <= v.arr.Length && v.arr[v.lo..v.hi] != before
  {
    hide FeedOutcome, Fields;
    before := [];
    r := p.Feed(first);
    if r.Done? && t in r.hello.extData {
      var v := r.hello.extData[t];
      before := v.arr[v.lo..v.hi];
      if before != [] {
        assert v.arr == p.buf && v.lo <= v.hi <= p.buf.Length && v.hi <= MAX_HELLO && p.Pending() == [];
        hide Shows, EndBefore, Agrees;
        var other: byte := (before[0] as int + 1) % 256;
        Overwrite(p, v, seq(v.hi, _ => other));
        assert v.arr[v.lo..v.hi][0] == other;
      }
    }
  }

  // ----- fragmentation --------------------------------------------------------------------

  function Flatten(chunks: seq<seq<byte>>): seq<byte> {
    if chunks == [] then [] else chunks[0] + Flatten(chunks[1..])
  }

  /** Feeding the reads of a connection until the first completion; empty reads are
      not fed. NeedMore stands for a connection that ends undecided. */
  function RunChunks(pending: seq<byte>, chunks: seq<seq<byte>>): Outcome<F.ClientHello>
    decreases |chunks|
  {
    if chunks == [] then F.NeedMore
    else if chunks[0] == [] then RunChunks(pending, chunks[1..])
    else
      var o := FeedOutcome(pending, chunks[0]);
      if o.NeedMore? then RunChunks(pending + chunks[0], chunks[1..]) else o
  }

  /** The connection loop. */
  method HandleTlsConn(received: seq<seq<byte>>) returns (r: Outcome<HelloRef>, p: HelloParser)
    ensures Agrees(r, p.buf, RunChunks([], received))
  {
    p := new HelloParser();
    for i := 0 to |received|
      invariant p.Valid() && fresh(p) && fresh(p.buf)
      invariant RunChunks([], received) == RunChunks(p.Pending(), received[i..])
    {
      if |received[i]| > 0 {
        r := p.Feed(received[i]);
        if !r.NeedMore? {
          return;
        }
      }
      assert received[i..][1..] == received[i + 1..];
    }
    r := F.NeedMore;
  }

  /** Some read takes the buffer over the cap while everything before it was undecided. */
  ghost predicate Overflows(pending: seq<byte>, chunks: seq<seq<byte>>) {
    exists k :: 0 < k <= |chunks| && OverflowsAt(pending, chunks, k)
  }

  ghost predicate OverflowsAt(pending: seq<byte>, chunks: seq<seq<byte>>, k: nat)
    requires 0 < k <= |chunks|
  {
    && |pending + Flatten(chunks[..k])| > MAX_HELLO
    && F.ParseRecord(pending + Flatten(chunks[..k - 1])).NeedMore?
  }

  lemma FlattenFirst(chunks: seq<seq<byte>>)
    requires chunks != []
    ensures Flatten(chunks[..1]) == chunks[0]
  {
    assert chunks[..1][1..] == [];
  }

  lemma OverflowShift(pending: seq<byte>, chunks: seq<seq<byte>>, k: nat)
    requires 1 < k <= |chunks|
    ensures OverflowsAt(pending, chunks, k) == OverflowsAt(pending + chunks[0], chunks[1..], k - 1)
  {
    hide F.ParseRecord;
    assert chunks[..k][1..] == chunks[1..][..k - 1];
    assert chunks[..k - 1][1..] == chunks[1..][..k - 2];
    assert pending + Flatten(chunks[..k]) == pending + chunks[0] + Flatten(chunks[1..][..k - 1]);
    assert pending + Flatten(chunks[..k - 1]) == pending + chunks[0] + Flatten(chunks[1..][..k - 2]);
  }

  lemma OverflowStep(pending: seq<byte>, chunks: seq<seq<byte>>)
    requires chunks != [] && |pending + chunks[0]| <= MAX_HELLO
    ensures Overflows(pending, chunks) == Overflows(pending + chunks[0], chunks[1..])
  {
    hide F.ParseRecord;
    FlattenFirst(chunks);
    if Overflows(pending, chunks) {
      var k :| 0 < k <= |chunks| && OverflowsAt(pending, chunks, k);
      OverflowShift(pending, chunks, k);
    }
    if Overflows(pending + chunks[0], chunks[1..]) {
      var k :| 0 < k <= |chunks[1..]| && OverflowsAt(pending + chunks[0], chunks[1..], k);
      OverflowShift(pending, chunks, k + 1);
    }
  }

  /** The exact verdict of every connection, however its bytes are cut: the cap strikes
      if some read overflows an undecided buffer, else the reads give what parsing the
      whole stream at once gives. */
  lemma {:induction false} ChunkedVerdict(pending: seq<byte>, chunks: seq<seq<byte>>)
    requires |pending| <= MAX_HELLO && F.ParseRecord(pending).NeedMore?
    ensures RunChunks(pending, chunks) ==
            if Overflows(pending, chunks) then F.Invalid else F.ParseRecord(pending + Flatten(chunks))
    decreases |chunks|
  {
    hide F.ParseRecord;
    if chunks == [] {
      assert pending + [] == pending;
    } else {
      var c, rest := chunks[0], chunks[1..];
      assert pending + Flatten(chunks) == pending + c + Flatten(rest);
      if |pending + c| > MAX_HELLO {
        FlattenFirst(chunks);
        assert pending + Flatten(chunks[..0]) == pending;
        assert OverflowsAt(pending, chunks, 1);
      } else {
        OverflowStep(pending, chunks);
        assert c == [] ==> pending + c == pending;
        if F.ParseRecord(pending + c).NeedMore? {
          ChunkedVerdict(pending + c, rest);
        } else {
          F.DecidedIsStable(pending + c, Flatten(rest));
          DecidedNeverOverflows(pending + c, rest);
        }
      }
    }
  }

  lemma DecidedNeverOverflows(pending: seq<byte>, chunks: seq<seq<byte>>)
    requires !F.ParseRecord(pending).NeedMore?
    ensures !Overflows(pending, chunks)
  {
    hide F.ParseRecord;
    forall k | 0 < k <= |chunks| ensures !OverflowsAt(pending, chunks, k) {
      F.DecidedIsStable(pending, Flatten(chunks[..k - 1]));
    }
  }

  lemma {:induction false} FlattenTake(chunks: seq<seq<byte>>, k: nat)
    requires k <= |chunks|
    ensures |Flatten(chunks[..k])| <= |Flatten(chunks)|
  {
    if k > 0 {
      FlattenTake(chunks[1..], k - 1);
      assert chunks[..k][1..] == chunks[1..][..k - 1];
    }
  }

  /** Fragmentation independence for streams within the cap. */
  lemma FragmentationIndependence(chunks: seq<seq<byte>>)
    requires |Flatten(chunks)| <= 65536
    ensures RunChunks([], chunks) == F.ParseRecord(Flatten(chunks))
  {
    ChunkedVerdict([], chunks);
    hide F.ParseRecord;
    forall k | 0 < k <= |chunks| ensures !OverflowsAt([], chunks, k) {
      FlattenTake(chunks, k);
    }
    assert [] + Flatten(chunks) == Flatten(chunks);
  }
}
