/** Bytes, 16-bit numbers and length-prefixed vectors of the TLS presentation
    language (section 3 of RFC 8446). */
module Wire {
  import opened Options
  import opened Text

  type byte = x: int | 0 <= x < 256
  type u16 = x: int | 0 <= x < 65536

  // ----- 16-bit numbers ---------------------------------------------------------

  /** binary.BigEndian.Uint16(d[i:]) */
  function BE16(d: seq<byte>, i: nat): u16
    requires i + 2 <= |d|
  {
    d[i] as int * 256 + d[i + 1] as int
  }

  /** binary.BigEndian.PutUint16 of a Go int converted to uint16: the conversion
      keeps the low 16 bits. */
  function U16Bytes(n: nat): (d: seq<byte>)
    ensures |d| == 2 && BE16(d, 0) == n % 65536
  {
    [n / 256 % 256, n % 256]
  }

  function EncodeU16s(vs: seq<u16>): (d: seq<byte>)
    ensures |d| == 2 * |vs|
  {
    if vs == [] then [] else EncodeU16s(vs[..|vs| - 1]) + U16Bytes(vs[|vs| - 1])
  }

  function DecodeU16s(d: seq<byte>): (vs: seq<u16>)
    requires |d| % 2 == 0
    ensures |vs| == |d| / 2
  {
    if d == [] then [] else DecodeU16s(d[..|d| - 2]) + [BE16(d, |d| - 2)]
  }

  lemma {:induction false} DecodeOfEncode(vs: seq<u16>)
    ensures DecodeU16s(EncodeU16s(vs)) == vs
  {
    if vs != [] {
      var init, last := vs[..|vs| - 1], vs[|vs| - 1];
      var d := EncodeU16s(vs);
      assert d[..|d| - 2] == EncodeU16s(init);
      assert d[|d| - 2..] == U16Bytes(last);
      assert BE16(d, |d| - 2) == BE16(d[|d| - 2..], 0) == last;
      DecodeOfEncode(init);
    }
  }

  lemma PairBytes(d: seq<byte>, i: nat)
    requires i + 2 <= |d|
    ensures U16Bytes(BE16(d, i)) == d[i..i + 2]
  {
  }

  lemma {:induction false} EncodeOfDecode(d: seq<byte>)
    requires |d| % 2 == 0
    ensures EncodeU16s(DecodeU16s(d)) == d
  {
    if d != [] {
      var init, vs := d[..|d| - 2], DecodeU16s(d);
      EncodeOfDecode(init);
      PairBytes(d, |d| - 2);
      hide U16Bytes, BE16;
      assert vs == DecodeU16s(init) + [BE16(d, |d| - 2)] && vs[..|vs| - 1] == DecodeU16s(init);
      assert d == init + d[|d| - 2..];
    }
  }

  lemma DecodeSnoc(d: seq<byte>, i: nat)
    requires i % 2 == 0 && i + 2 <= |d|
    ensures DecodeU16s(d[..i + 2]) == DecodeU16s(d[..i]) + [BE16(d, i)]
  {
    assert d[..i + 2][..i] == d[..i];
    assert BE16(d[..i + 2], i) == BE16(d, i);
  }

  lemma EncodeSnoc(vs: seq<u16>, i: nat)
    requires i < |vs|
    ensures EncodeU16s(vs[..i + 1]) == EncodeU16s(vs[..i]) + U16Bytes(vs[i])
  {
    assert vs[..i + 1][..i] == vs[..i];
  }

  // ----- length-prefixed vectors --------------------------------------------------

  /** Reads an opaque<0..255>: its content and what follows it. */
  function TakeVec8(d: seq<byte>): (r: Option<(seq<byte>, seq<byte>)>)
    ensures r.Some? ==> 1 + |r.value.0| + |r.value.1| == |d|
  {
    if |d| < 1 then None
    else if 1 + d[0] > |d| then None
    else Some((d[1..1 + d[0]], d[1 + d[0]..]))
  }

  /** Reads an opaque<0..65535>. */
  function TakeVec16(d: seq<byte>): (r: Option<(seq<byte>, seq<byte>)>)
    ensures r.Some? ==> 2 + |r.value.0| + |r.value.1| == |d|
  {
    if |d| < 2 then None
    else if 2 + BE16(d, 0) > |d| then None
    else Some((d[2..2 + BE16(d, 0)], d[2 + BE16(d, 0)..]))
  }

  function Vec8(x: seq<byte>): seq<byte> {
    [|x| % 256] + x
  }

  function Vec16(x: seq<byte>): seq<byte> {
    U16Bytes(|x|) + x
  }

  /** TakeVec8 accepts exactly the encodings of short enough contents. */
  lemma Vec8Exact(d: seq<byte>, x: seq<byte>, rest: seq<byte>)
    ensures TakeVec8(d) == Some((x, rest)) <==> |x| < 256 && d == Vec8(x) + rest
  {
    if |x| < 256 && d == Vec8(x) + rest {
      assert d[0] == |x|;
      assert d[1..1 + |x|] == x;
      assert d[1 + |x|..] == rest;
    }
    if TakeVec8(d) == Some((x, rest)) {
      assert d == [d[0]] + d[1..1 + d[0]] + d[1 + d[0]..];
    }
  }

  lemma Vec16Exact(d: seq<byte>, x: seq<byte>, rest: seq<byte>)
    ensures TakeVec16(d) == Some((x, rest)) <==> |x| < 65536 && d == Vec16(x) + rest
  {
    if |x| < 65536 && d == Vec16(x) + rest {
      assert d[..2] == U16Bytes(|x|);
      assert BE16(d, 0) == BE16(d[..2], 0) == |x|;
      assert d[2..2 + |x|] == x;
      assert d[2 + |x|..] == rest;
    }
    if TakeVec16(d) == Some((x, rest)) {
      var n := BE16(d, 0);
      assert U16Bytes(n) == d[..2];
      assert d == d[..2] + d[2..2 + n] + d[2 + n..];
    }
  }

  lemma SliceOfSlice(d: seq<byte>, a: nat, b: nat, c: nat, e: nat)
    requires a <= b <= |d| && c <= e <= b - a
    ensures d[a..b][c..e] == d[a + c..a + e]
  {
    var x, y := d[a..b][c..e], d[a + c..a + e];
    assert forall i :: 0 <= i < |x| ==> x[i] == y[i];
  }

  lemma SliceOfSuffix(d: seq<byte>, a: nat, c: nat, e: nat)
    requires a <= |d| && c <= e <= |d| - a
    ensures d[a..][c..e] == d[a + c..a + e] && d[a..][e..] == d[a + e..]
  {
    var x, y := d[a..][c..e], d[a + c..a + e];
    assert forall i :: 0 <= i < |x| ==> x[i] == y[i];
    var v, w := d[a..][e..], d[a + e..];
    assert forall i :: 0 <= i < |v| ==> v[i] == w[i];
  }

  // ----- bytes as text --------------------------------------------------------------

  /** string(d): the bytes themselves, as a Go string. */
  function AsString(d: seq<byte>): (s: string)
    ensures |s| == |d| && forall i :: 0 <= i < |d| ==> s[i] == d[i] as char
  {
    seq(|d|, i requires 0 <= i < |d| => d[i] as char)
  }

  ghost predicate IsByteString(s: string) {
    forall i :: 0 <= i < |s| ==> s[i] as int < 256
  }

  /** []byte(s) */
  function AsBytes(s: string): (d: seq<byte>)
    ensures |d| == |s| && forall i :: 0 <= i < |s| ==> d[i] == s[i] as int % 256
  {
    seq(|s|, i requires 0 <= i < |s| => s[i] as int % 256)
  }

  lemma StringOfBytes(s: string)
    requires IsByteString(s)
    ensures AsString(AsBytes(s)) == s
  {
  }

  /** The two digits of a byte. */
  function HexPair(x: byte): (s: string)
    ensures |s| == 2 && forall i :: 0 <= i < 2 ==> '0' <= s[i] <= '9' || 'a' <= s[i] <= 'f'
  {
    [HexDigit(x / 16), HexDigit(x % 16)]
  }

  /** hex.EncodeToString, and the %x verb on a byte slice. */
  function HexOf(d: seq<byte>): (s: string)
    ensures |s| == 2 * |d|
    ensures forall i :: 0 <= i < |s| ==> '0' <= s[i] <= '9' || 'a' <= s[i] <= 'f'
  {
    if d == [] then "" else HexPair(d[0]) + HexOf(d[1..])
  }

  /** The digits of the byte at `i` stand at `p` and behind it. */
  lemma {:induction false} HexAt(d: seq<byte>, i: nat, p: nat)
    requires i < |d| && p == 2 * i
    ensures HexOf(d)[p] == HexPair(d[i])[0] && HexOf(d)[p + 1] == HexPair(d[i])[1]
  {
    hide HexPair;
    if i > 0 {
      HexAt(d[1..], i - 1, p - 2);
      assert d[1..][i - 1] == d[i];
    }
  }

  lemma HexEnds(d: seq<byte>)
    requires d != []
    ensures HexOf(d)[0] == HexPair(d[0])[0] && HexOf(d)[2 * |d| - 1] == HexPair(d[|d| - 1])[1]
  {
    hide HexOf, HexPair;
    HexAt(d, 0, 0);
    HexAt(d, |d| - 1, 2 * |d| - 2);
  }

  /** The two digits give the byte back. */
  lemma PairReadsBack(x: byte)
    ensures HexValue(HexPair(x)[0]) * 16 + HexValue(HexPair(x)[1]) == x
  {
    assert HexValue(HexDigit(x / 16)) == x / 16 && HexValue(HexDigit(x % 16)) == x % 16;
  }
}
