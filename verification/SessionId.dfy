/** Session identifiers, generated on the client and validated on the probe. */
module SessionId {
  import opened Text
  import opened Wire

  // ----- validation -------------------------------------------------------------------

  predicate IsHex(c: char) {
    '0' <= c <= '9' || 'a' <= c <= 'f' || 'A' <= c <= 'F'
  }

  predicate IsDashPosition(i: int) {
    i == 8 || i == 13 || i == 18 || i == 23
  }

  /** A UUID in 8-4-4-4-12 form, or 32 hex characters. */
  predicate IsSessionId(id: string) {
    || (|id| == 36 && forall i :: 0 <= i < 36 ==> if IsDashPosition(i) then id[i] == '-' else IsHex(id[i]))
    || (|id| == 32 && forall i :: 0 <= i < 32 ==> IsHex(id[i]))
  }

  method ValidSessionId(id: string) returns (ok: bool)
    ensures ok == IsSessionId(id)
    ensures ok <==>
            || (|id| == 36 && forall i :: 0 <= i < 36 ==>
                  if i == 8 || i == 13 || i == 18 || i == 23 then id[i] as int == 45
                  else 48 <= id[i] as int <= 57 || 65 <= id[i] as int <= 70 || 97 <= id[i] as int <= 102)
            || (|id| == 32 && forall i :: 0 <= i < 32 ==>
                  48 <= id[i] as int <= 57 || 65 <= id[i] as int <= 70 || 97 <= id[i] as int <= 102)
  {
    if |id| == 36 {
      for i := 0 to |id|
        invariant forall j :: 0 <= j < i ==> if IsDashPosition(j) then id[j] == '-' else IsHex(id[j])
      {
        var c := id[i];
        if IsDashPosition(i) {
          if c != '-' {
            return false;
          }
        } else if !IsHex(c) {
          return false;
        }
      }
      return true;
    } else if |id| == 32 {
      for i := 0 to |id|
        invariant forall j :: 0 <= j < i ==> IsHex(id[j])
      {
        if !IsHex(id[i]) {
          return false;
        }
      }
      return true;
    } else {
      return false;
    }
  }

  // ----- generation -------------------------------------------------------------------

  /** Sixteen random bytes with the version and variant bits of section 5.4 of RFC 9562. */
  function Stamp(random: seq<byte>): (b: seq<byte>)
    requires |random| == 16
    ensures |b| == 16
  {
    random[6 := random[6] % 16 + 0x40][8 := random[8] % 64 + 0x80]
  }

  function FormatId(b: seq<byte>): string
    requires |b| == 16
  {
    HexOf(b[0..4]) + "-" + HexOf(b[4..6]) + "-" + HexOf(b[6..8]) + "-" + HexOf(b[8..10]) + "-" + HexOf(b[10..16])
  }

  function IdOf(random: seq<byte>): string
    requires |random| == 16
  {
    FormatId(Stamp(random))
  }

  method NewId(random: seq<byte>) returns (id: string)
    requires |random| == 16
    ensures id == IdOf(random)
  {
    var b := new byte[16](i requires 0 <= i < 16 && |random| == 16 => random[i]);
    b[6] := b[6] % 16 + 0x40;
    b[8] := b[8] % 64 + 0x80;
    assert b[..] == Stamp(random);
    id := HexOf(b[0..4]) + "-" + HexOf(b[4..6]) + "-" + HexOf(b[6..8]) + "-" + HexOf(b[8..10]) + "-" + HexOf(b[10..16]);
    assert b[..][0..4] == b[0..4] && b[..][4..6] == b[4..6] && b[..][6..8] == b[6..8];
    assert b[..][8..10] == b[8..10] && b[..][10..16] == b[10..16];
  }

  /** The hex groups of an identifier and where they stand. */
  lemma Groups(b: seq<byte>)
    requires |b| == 16
    ensures var id := FormatId(b);
            && |id| == 36
            && id[0..8] == HexOf(b[0..4]) && id[9..13] == HexOf(b[4..6]) && id[14..18] == HexOf(b[6..8])
            && id[19..23] == HexOf(b[8..10]) && id[24..36] == HexOf(b[10..16])
            && id[8] == '-' && id[13] == '-' && id[18] == '-' && id[23] == '-'
  {
    var g1, g2, g3, g4, g5 := HexOf(b[0..4]), HexOf(b[4..6]), HexOf(b[6..8]), HexOf(b[8..10]), HexOf(b[10..16]);
    hide HexOf;
    Dashed(g1, g2, g3, g4, g5, FormatId(b));
  }

  lemma Dashed(g1: string, g2: string, g3: string, g4: string, g5: string, id: string)
    requires |g1| == 8 && |g2| == |g3| == |g4| == 4 && |g5| == 12
    requires id == g1 + "-" + g2 + "-" + g3 + "-" + g4 + "-" + g5
    ensures |id| == 36 && id[0..8] == g1 && id[9..13] == g2 && id[14..18] == g3 && id[19..23] == g4 && id[24..36] == g5
    ensures id[8] == '-' && id[13] == '-' && id[18] == '-' && id[23] == '-'
  {
  }

  lemma GroupChars(b: seq<byte>, i: nat)
    requires |b| == 16 && i < 36 && !IsDashPosition(i)
    ensures |FormatId(b)| == 36
    ensures var c := FormatId(b)[i]; '0' <= c <= '9' || 'a' <= c <= 'f'
  {
    Groups(b);
    var id := FormatId(b);
    hide FormatId;
    if i < 8 {
      assert id[i] == id[0..8][i];
    } else if i < 13 {
      assert id[i] == id[9..13][i - 9];
    } else if i < 18 {
      assert id[i] == id[14..18][i - 14];
    } else if i < 23 {
      assert id[i] == id[19..23][i - 19];
    } else {
      assert id[i] == id[24..36][i - 24];
    }
  }

  lemma FormattedIdIsValid(b: seq<byte>)
    requires |b| == 16
    ensures var id := FormatId(b); IsSessionId(id) && |id| == 36 && '.' !in id
  {
    var id := FormatId(b);
    Groups(b);
    hide FormatId;
    forall i | 0 <= i < 36 ensures if IsDashPosition(i) then id[i] == '-' else IsHex(id[i]) {
      if !IsDashPosition(i) {
        GroupChars(b, i);
      }
    }
    SessionIdHasNoDot(id);
  }

  /** Every generated identifier is accepted, is 36 characters long, carries the version
      digit 4 and a variant digit 8, 9, a or b, and holds no dot. */
  lemma GeneratedIdIsValid(random: seq<byte>)
    requires |random| == 16
    ensures var id := IdOf(random);
            && IsSessionId(id) && |id| == 36
            && id[14] == '4' && id[19] in "89ab"
            && '.' !in id
  {
    var b := Stamp(random);
    FormattedIdIsValid(b);
    ByteDigits(b, 6);
    ByteDigits(b, 8);
    StampDigits(random);
    assert HexPair(b[6])[0] == HexDigit(b[6] / 16) && HexPair(b[8])[0] == HexDigit(b[8] / 16);
    hide FormatId, IsSessionId, HexDigit, HexPair, Stamp;
    VariantDigits(b[8] / 16);
  }

  lemma StampDigits(random: seq<byte>)
    requires |random| == 16
    ensures Stamp(random)[6] / 16 == 4 && 8 <= Stamp(random)[8] / 16 <= 11
  {
  }

  lemma VariantDigits(n: int)
    requires 8 <= n <= 11
    ensures HexDigit(n) in "89ab" && HexDigit(4) == '4'
  {
    assert HexDigit(8) == "89ab"[0] && HexDigit(9) == "89ab"[1];
    assert HexDigit(10) == "89ab"[2] && HexDigit(11) == "89ab"[3];
  }

  /** The place of a byte's two digits, behind the dashes before it. */
  function DigitsAt(i: nat): nat {
    2 * i + (if i < 4 then 0 else if i < 6 then 1 else if i < 8 then 2 else if i < 10 then 3 else 4)
  }

  lemma ByteDigits(b: seq<byte>, i: nat)
    requires |b| == 16 && i < 16
    ensures |FormatId(b)| == 36
    ensures FormatId(b)[DigitsAt(i)] == HexPair(b[i])[0] && FormatId(b)[DigitsAt(i) + 1] == HexPair(b[i])[1]
  {
    Groups(b);
    var id, p := FormatId(b), DigitsAt(i);
    hide FormatId, HexOf, HexPair;
    if i < 4 {
      DigitsInGroup(id, 0, 8, b, 0, 4, i, p);
    } else if i < 6 {
      DigitsInGroup(id, 9, 13, b, 4, 6, i - 4, p);
    } else if i < 8 {
      DigitsInGroup(id, 14, 18, b, 6, 8, i - 6, p);
    } else if i < 10 {
      DigitsInGroup(id, 19, 23, b, 8, 10, i - 8, p);
    } else {
      DigitsInGroup(id, 24, 36, b, 10, 16, i - 10, p);
    }
  }

  lemma DigitsInGroup(id: string, i: nat, j: nat, b: seq<byte>, k: nat, l: nat, n: nat, p: nat)
    requires i < j <= |id| && k < l <= |b| && id[i..j] == HexOf(b[k..l]) && n < l - k && p == i + 2 * n
    ensures p + 1 < |id| && id[p] == HexPair(b[k + n])[0] && id[p + 1] == HexPair(b[k + n])[1]
  {
    hide HexOf, HexPair;
    var g, s := b[k..l], id[i..j];
    HexAt(g, n, p - i);
    assert g[n] == b[k + n] && s[p - i] == id[p] && s[p - i + 1] == id[p + 1];
  }

  /** The value of two hexadecimal digits. */
  function TwoDigits(id: string, p: nat): int
    requires p + 1 < |id|
  {
    HexValue(id[p]) * 16 + HexValue(id[p + 1])
  }

  /** An identifier spells the random bytes in order, but for the six bits that are set. */
  lemma GeneratedIdReads(random: seq<byte>, i: nat)
    requires |random| == 16 && i < 16
    ensures |IdOf(random)| == 36
    ensures TwoDigits(IdOf(random), DigitsAt(i)) ==
            if i == 6 then 0x40 + random[6] % 16 else if i == 8 then 0x80 + random[8] % 64 else random[i]
  {
    var b := Stamp(random);
    ByteDigits(b, i);
    PairReadsBack(b[i]);
    hide FormatId, HexPair, HexValue, DigitsAt;
  }

  ghost predicate SameFreeBits(r1: seq<byte>, r2: seq<byte>)
    requires |r1| == 16 && |r2| == 16
  {
    && (forall i :: 0 <= i < 16 && i != 6 && i != 8 ==> r1[i] == r2[i])
    && r1[6] % 16 == r2[6] % 16 && r1[8] % 64 == r2[8] % 64
  }

  lemma SameFreeBitsSameId(r1: seq<byte>, r2: seq<byte>)
    requires |r1| == 16 && |r2| == 16 && SameFreeBits(r1, r2)
    ensures IdOf(r1) == IdOf(r2)
  {
    hide FormatId;
    assert Stamp(r1) == Stamp(r2);
  }

  lemma SameIdSameFreeBits(r1: seq<byte>, r2: seq<byte>)
    requires |r1| == 16 && |r2| == 16 && IdOf(r1) == IdOf(r2)
    ensures SameFreeBits(r1, r2)
  {
    GeneratedIdReads(r1, 6);
    GeneratedIdReads(r2, 6);
    GeneratedIdReads(r1, 8);
    GeneratedIdReads(r2, 8);
    hide IdOf, TwoDigits, DigitsAt;
    forall i | 0 <= i < 16 && i != 6 && i != 8 ensures r1[i] == r2[i] {
      GeneratedIdReads(r1, i);
      GeneratedIdReads(r2, i);
    }
  }

  /** Identifiers collide exactly if all the 122 bits do that are not set. */
  lemma GeneratedIdInjective(r1: seq<byte>, r2: seq<byte>)
    requires |r1| == 16 && |r2| == 16
    ensures IdOf(r1) == IdOf(r2) <==>
            && (forall i :: 0 <= i < 16 && i != 6 && i != 8 ==> r1[i] == r2[i])
            && r1[6] % 16 == r2[6] % 16 && r1[8] % 64 == r2[8] % 64
  {
    hide IdOf;
    if IdOf(r1) == IdOf(r2) {
      SameIdSameFreeBits(r1, r2);
    }
    if SameFreeBits(r1, r2) {
      SameFreeBitsSameId(r1, r2);
    }
  }

  // ----- carried in a server name -------------------------------------------------------

  /** The session carried as the prefix of a server name, or "". */
  function SessionOf(sni: string): string {
    var i := IndexOf(sni, '.');
    if 0 < i < |sni| && IsSessionId(sni[..i]) then sni[..i] else ""
  }

  lemma SessionIdHasNoDot(id: string)
    requires IsSessionId(id)
    ensures '.' !in id && id != ""
  {
  }

  /** A server name carries a session exactly if it is a valid identifier, a dot, and
      anything. */
  lemma SessionOfExact(sni: string, id: string)
    requires id != ""
    ensures SessionOf(sni) == id <==>
            IsSessionId(id) && |id| < |sni| && sni[..|id|] == id && sni[|id|] == '.'
  {
    if IsSessionId(id) && |id| < |sni| && sni[..|id|] == id && sni[|id|] == '.' {
      SessionIdHasNoDot(id);
      IndexOfIs(sni, '.', |id|);
    }
  }
}
