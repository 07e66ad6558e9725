/** Byte strings as the program prints, joins and sorts them. A Go string is a
    sequence of bytes; here it is a `string` whose characters stand for bytes. */
module Text {

  // ----- joining --------------------------------------------------------------

  /** strings.Join with a one-byte separator. */
  function Join(parts: seq<string>, sep: char): string {
    if |parts| == 0 then ""
    else if |parts| == 1 then parts[0]
    else parts[0] + [sep] + Join(parts[1..], sep)
  }

  ghost predicate AllFree(parts: seq<string>, sep: char) {
    forall i :: 0 <= i < |parts| ==> sep !in parts[i]
  }

  ghost predicate AllNonEmpty(parts: seq<string>) {
    forall i :: 0 <= i < |parts| ==> parts[i] != ""
  }

  /** The first separator of a string determines what stands before and after it. */
  lemma SplitFirst(a: string, x: string, b: string, y: string, sep: char)
    requires sep !in a && sep !in b
    requires a + [sep] + x == b + [sep] + y
    ensures a == b && x == y
  {
    var s, t := a + [sep] + x, b + [sep] + y;
    assert s[|a|] == sep && t[|b|] == sep;
    assert forall i :: 0 <= i < |a| ==> s[i] == a[i] && s[i] != sep;
    assert forall i :: 0 <= i < |b| ==> t[i] == b[i] && t[i] != sep;
    assert |a| == |b|;
    assert a == s[..|a|] && b == t[..|b|];
    assert x == s[|a| + 1..] && y == t[|b| + 1..];
  }

  lemma {:induction false} JoinInjective(xs: seq<string>, ys: seq<string>, sep: char)
    requires AllFree(xs, sep) && AllFree(ys, sep)
    requires xs != [] && ys != []
    requires Join(xs, sep) == Join(ys, sep)
    ensures xs == ys
  {
    var s, t := Join(xs, sep), Join(ys, sep);
    assert |ys| >= 2 ==> t[|ys[0]|] == sep && sep in t;
    assert |xs| >= 2 ==> s[|xs[0]|] == sep && sep in s;
    if |xs| >= 2 && |ys| >= 2 {
      SplitFirst(xs[0], Join(xs[1..], sep), ys[0], Join(ys[1..], sep), sep);
      JoinInjective(xs[1..], ys[1..], sep);
      assert xs == [xs[0]] + xs[1..] && ys == [ys[0]] + ys[1..];
    }
  }

  lemma JoinIsEmpty(xs: seq<string>, sep: char)
    ensures Join(xs, sep) == "" <==> xs == [] || xs == [""]
  {
    if |xs| >= 2 {
      assert Join(xs, sep)[|xs[0]|] == sep;
    }
  }

  /** Joining separator-free parts loses nothing, except that no parts and one
      empty part look alike. */
  lemma JoinExact(xs: seq<string>, ys: seq<string>, sep: char)
    requires AllFree(xs, sep) && AllFree(ys, sep)
    ensures Join(xs, sep) == Join(ys, sep)
       <==> xs == ys || (xs == [] && ys == [""]) || (xs == [""] && ys == [])
  {
    JoinIsEmpty(xs, sep);
    JoinIsEmpty(ys, sep);
    if Join(xs, sep) == Join(ys, sep) && xs != [] && ys != [] {
      JoinInjective(xs, ys, sep);
    }
  }

  lemma JoinExactNonEmpty(xs: seq<string>, ys: seq<string>, sep: char)
    requires AllFree(xs, sep) && AllFree(ys, sep) && AllNonEmpty(xs) && AllNonEmpty(ys)
    ensures Join(xs, sep) == Join(ys, sep) <==> xs == ys
  {
    assert [""][0] == "";
    JoinExact(xs, ys, sep);
  }

  /** A joined string only holds characters of its parts and the separator. */
  lemma {:induction false} JoinChars(xs: seq<string>, sep: char, c: char)
    requires AllFree(xs, c) && c != sep
    ensures c !in Join(xs, sep)
  {
    if |xs| >= 2 {
      JoinChars(xs[1..], sep, c);
    }
  }

  lemma {:induction false} JoinAppend(xs: seq<string>, y: string, sep: char)
    ensures Join(xs + [y], sep) == if xs == [] then y else Join(xs, sep) + [sep] + y
  {
    if |xs| >= 1 {
      assert (xs + [y])[1..] == xs[1..] + [y];
      JoinAppend(xs[1..], y, sep);
    }
  }

  // ----- searching --------------------------------------------------------------

  /** strings.IndexByte, with the length of the string for "not there". */
  function IndexOf(s: string, c: char): (i: nat)
    ensures i <= |s| && c !in s[..i]
    ensures i < |s| ==> s[i] == c
  {
    if s == "" then 0
    else if s[0] == c then 0
    else
      var i := IndexOf(s[1..], c);
      assert s[..i + 1] == [s[0]] + s[1..][..i];
      i + 1
  }

  lemma IndexOfIs(s: string, c: char, k: nat)
    requires k < |s| && s[k] == c && c !in s[..k]
    ensures IndexOf(s, c) == k
  {
    var i := IndexOf(s, c);
    assert forall j :: 0 <= j < k ==> s[..k][j] == s[j] && s[j] != c;
    assert forall j :: 0 <= j < i ==> s[..i][j] == s[j] && s[j] != c;
  }

  // ----- numbers in decimal -----------------------------------------------------

  /** strconv.Itoa on a number that is not negative. */
  function Decimal(n: nat): (s: string)
    ensures s != ""
    ensures forall i :: 0 <= i < |s| ==> '0' <= s[i] <= '9'
  {
    var digit := ('0' as int + n % 10) as char;
    if n < 10 then [digit] else Decimal(n / 10) + [digit]
  }

  function DecimalValue(s: string): int {
    if s == "" then 0 else 10 * DecimalValue(s[..|s| - 1]) + (s[|s| - 1] as int - '0' as int)
  }

  lemma {:induction false} DecimalReadsBack(n: nat)
    ensures DecimalValue(Decimal(n)) == n
  {
    if n < 10 {
      assert Decimal(n)[..0] == "";
    } else {
      DecimalReadsBack(n / 10);
      assert Decimal(n)[..|Decimal(n)| - 1] == Decimal(n / 10);
    }
  }

  lemma DecimalInjective(a: nat, b: nat)
    ensures Decimal(a) == Decimal(b) <==> a == b
  {
    DecimalReadsBack(a);
    DecimalReadsBack(b);
  }

  // ----- hexadecimal ------------------------------------------------------------

  function HexDigit(n: int): (c: char)
    requires 0 <= n < 16
    ensures '0' <= c <= '9' || 'a' <= c <= 'f'
    ensures HexValue(c) == n
  {
    if n < 10 then ('0' as int + n) as char else ('a' as int + n - 10) as char
  }

  function HexValue(c: char): int {
    if '0' <= c <= '9' then c as int - '0' as int
    else if 'a' <= c <= 'f' then c as int - 'a' as int + 10
    else -1
  }

  // ----- byte-wise order and sorting ----------------------------------------------

  /** The order sort.Strings uses. */
  predicate LexLe(a: string, b: string) {
    if a == "" then true
    else if b == "" then false
    else if a[0] == b[0] then LexLe(a[1..], b[1..])
    else a[0] < b[0]
  }

  /** One string comes before another if it is a prefix of it, or smaller where they first
      differ. */
  lemma {:induction false} LexLeExactly(a: string, b: string)
    ensures LexLe(a, b) <==> a <= b || exists k :: 0 <= k < |a| && k < |b| && a[..k] == b[..k] && a[k] < b[k]
  {
    if a != "" && b != "" && a[0] == b[0] {
      var c, d := a[1..], b[1..];
      LexLeExactly(c, d);
      assert a == [a[0]] + c && b == [b[0]] + d;
      if k :| 0 <= k < |c| && k < |d| && c[..k] == d[..k] && c[k] < d[k] {
        assert a[..k + 1] == [a[0]] + c[..k] && b[..k + 1] == [b[0]] + d[..k];
        assert a[k + 1] == c[k] && b[k + 1] == d[k];
      }
      if k :| 0 <= k < |a| && k < |b| && a[..k] == b[..k] && a[k] < b[k] {
        assert k > 0;
        assert c[..k - 1] == a[..k][1..] && d[..k - 1] == b[..k][1..];
        assert a[k] == c[k - 1] && b[k] == d[k - 1];
      }
    } else if a != "" && b != "" {
      assert a[..0] == b[..0];
    }
  }

  lemma {:induction false} LexTotal(a: string, b: string)
    ensures LexLe(a, b) || LexLe(b, a)
  {
    if a != "" && b != "" && a[0] == b[0] {
      LexTotal(a[1..], b[1..]);
    }
  }

  lemma {:induction false} LexAntisymmetric(a: string, b: string)
    requires LexLe(a, b) && LexLe(b, a)
    ensures a == b
  {
    if a != "" && b != "" {
      LexAntisymmetric(a[1..], b[1..]);
      assert a == [a[0]] + a[1..] && b == [b[0]] + b[1..];
    }
  }

  lemma {:induction false} LexTransitive(a: string, b: string, c: string)
    requires LexLe(a, b) && LexLe(b, c)
    ensures LexLe(a, c)
  {
    if a != "" && a[0] == b[0] == c[0] {
      LexTransitive(a[1..], b[1..], c[1..]);
    }
  }

  ghost predicate Sorted(xs: seq<string>) {
    forall i, j :: 0 <= i < j < |xs| ==> LexLe(xs[i], xs[j])
  }

  function Insert(x: string, xs: seq<string>): (r: seq<string>)
    requires Sorted(xs)
    ensures Sorted(r) && multiset(r) == multiset(xs) + multiset{x}
  {
    if xs == [] then [x]
    else if LexLe(x, xs[0]) then
      InsertFront(x, xs);
      [x] + xs
    else
      var rest := Insert(x, xs[1..]);
      InsertBehind(x, xs, rest);
      [xs[0]] + rest
  }

  lemma InsertFront(x: string, xs: seq<string>)
    requires Sorted(xs) && xs != [] && LexLe(x, xs[0])
    ensures Sorted([x] + xs)
  {
    forall k | 0 <= k < |xs| ensures LexLe(x, xs[k]) {
      if k > 0 {
        LexTransitive(x, xs[0], xs[k]);
      }
    }
  }

  lemma InsertBehind(x: string, xs: seq<string>, rest: seq<string>)
    requires Sorted(xs) && xs != [] && !LexLe(x, xs[0])
    requires Sorted(rest) && multiset(rest) == multiset(xs[1..]) + multiset{x}
    ensures Sorted([xs[0]] + rest) && multiset([xs[0]] + rest) == multiset(xs) + multiset{x}
  {
    assert xs == [xs[0]] + xs[1..];
    LexTotal(x, xs[0]);
    forall k | 0 <= k < |rest| ensures LexLe(xs[0], rest[k]) {
      assert rest[k] in multiset(rest);
      assert rest[k] == x || rest[k] in multiset(xs[1..]);
    }
  }

  /** What sort.Strings leaves in its argument: by SortedUnique the only sorted
      arrangement, so the library's algorithm does not matter. */
  function SortStrings(xs: seq<string>): (r: seq<string>)
    ensures Sorted(r) && multiset(r) == multiset(xs) && |r| == |xs|
  {
    if xs == [] then []
    else
      assert xs == xs[..|xs| - 1] + [xs[|xs| - 1]];
      var r := Insert(xs[|xs| - 1], SortStrings(xs[..|xs| - 1]));
      assert |multiset(r)| == |r| && |multiset(xs)| == |xs|;
      r
  }

  lemma {:induction false} SortedUnique(xs: seq<string>, ys: seq<string>)
    requires Sorted(xs) && Sorted(ys) && multiset(xs) == multiset(ys)
    ensures xs == ys
  {
    assert |xs| == |multiset(xs)| && |ys| == |multiset(ys)|;
    if xs != [] {
      assert xs[0] in multiset(ys) && ys[0] in multiset(xs);
      HeadIsLeast(xs, ys[0]);
      HeadIsLeast(ys, xs[0]);
      LexAntisymmetric(xs[0], ys[0]);
      TailMultiset(xs);
      TailMultiset(ys);
      SortedUnique(xs[1..], ys[1..]);
      assert xs == [xs[0]] + xs[1..] && ys == [ys[0]] + ys[1..];
    }
  }

  lemma HeadIsLeast(xs: seq<string>, y: string)
    requires Sorted(xs) && y in xs
    ensures LexLe(xs[0], y)
  {
    LexTotal(y, y);
  }

  lemma TailMultiset(xs: seq<string>)
    requires xs != []
    ensures multiset(xs[1..]) == multiset(xs) - multiset{xs[0]}
  {
    assert xs == [xs[0]] + xs[1..];
  }

  /** Sorting is a canonical form of the multiset. */
  lemma SortIsCanonical(xs: seq<string>, ys: seq<string>)
    ensures SortStrings(xs) == SortStrings(ys) <==> multiset(xs) == multiset(ys)
  {
    if multiset(xs) == multiset(ys) {
      SortedUnique(SortStrings(xs), SortStrings(ys));
    }
  }

  lemma SortKeepsFree(xs: seq<string>, sep: char)
    requires AllFree(xs, sep)
    ensures AllFree(SortStrings(xs), sep)
  {
    var r := SortStrings(xs);
    forall i | 0 <= i < |r| ensures sep !in r[i] {
      assert r[i] in multiset(r);
      assert r[i] in multiset(xs);
    }
  }

  lemma SortKeepsNonEmpty(xs: seq<string>)
    requires AllNonEmpty(xs)
    ensures AllNonEmpty(SortStrings(xs))
  {
    var r := SortStrings(xs);
    forall i | 0 <= i < |r| ensures r[i] != "" {
      assert r[i] in multiset(r);
      assert r[i] in multiset(xs);
    }
  }
}
