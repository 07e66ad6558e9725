/** The comparison of two answer lists by their sorted, joined forms. */
module Dns {
  import opened Text

  /** Sorts a copy; the argument is untouched. */
  method SortedCopy(xs: seq<string>) returns (out: seq<string>)
    ensures Sorted(out) && multiset(out) == multiset(xs) && out == SortStrings(xs)
  {
    out := SortStrings(xs);
  }

  /** Sorts copies and compares their joined forms. For comma-free answers, of which none is
      empty, that is equality of multisets; for any answers, it is equality of the
      comma-separated pieces of both lists in sorted order. */
  method SetsEqual(a: seq<string>, b: seq<string>) returns (same: bool)
    ensures AllFree(a, ',') && AllFree(b, ',') && AllNonEmpty(a) && AllNonEmpty(b) ==>
              (same <==> multiset(a) == multiset(b))
    ensures same <==> SameParts(Pieces(SortStrings(a)), Pieces(SortStrings(b)))
  {
    var sa := SortedCopy(a);
    var sb := SortedCopy(b);
    same := Join(sa, ',') == Join(sb, ',');
    ComparisonOfPieces(a, b);
    if AllFree(a, ',') && AllFree(b, ',') && AllNonEmpty(a) && AllNonEmpty(b) {
      ComparisonIsMultisetEquality(a, b);
    }
  }

  predicate SameAnswers(a: seq<string>, b: seq<string>) {
    Join(SortStrings(a), ',') == Join(SortStrings(b), ',')
  }

  lemma SingletonSort(xs: seq<string>)
    ensures SortStrings(xs) == [""] <==> xs == [""]
    ensures SortStrings(xs) == [] <==> xs == []
  {
    if SortStrings(xs) == [""] {
      assert |xs| == 1 && xs == [xs[0]];
      assert xs[0] in multiset(xs);
      assert xs[0] in multiset([""]);
    }
    if xs == [""] {
      assert SortStrings(xs)[0] in multiset(SortStrings(xs));
    }
  }

  // ----- answers with commas ------------------------------------------------------------

  /** The parts of a string between its commas. */
  function Split(x: string): (parts: seq<string>)
    ensures parts != [] && AllFree(parts, ',') && Join(parts, ',') == x
    decreases |x|
  {
    var i := IndexOf(x, ',');
    if i == |x| then
      assert x[..i] == x;
      [x]
    else
      var rest := Split(x[i + 1..]);
      var parts := [x[..i]] + rest;
      assert parts[1..] == rest && x == x[..i] + [','] + x[i + 1..];
      parts
  }

  /** The parts of all strings of a list, in order. */
  function Pieces(xs: seq<string>): seq<string> {
    if xs == [] then [] else Split(xs[0]) + Pieces(xs[1..])
  }

  lemma {:induction false} JoinOfConcat(xs: seq<string>, ys: seq<string>)
    requires xs != [] && ys != []
    ensures Join(xs + ys, ',') == Join(xs, ',') + [','] + Join(ys, ',')
  {
    if |xs| == 1 {
      assert (xs + ys)[1..] == ys;
    } else {
      assert (xs + ys)[1..] == xs[1..] + ys;
      JoinOfConcat(xs[1..], ys);
      var x, r, y := xs[0], Join(xs[1..], ','), Join(ys, ',');
      assert x + [','] + (r + [','] + y) == x + [','] + r + [','] + y;
    }
  }

  /** Joining a list joins its pieces. */
  lemma {:induction false} PiecesJoin(xs: seq<string>)
    ensures AllFree(Pieces(xs), ',') && Join(Pieces(xs), ',') == Join(xs, ',')
    ensures Pieces(xs) == [] <==> xs == []
  {
    if xs != [] {
      PiecesJoin(xs[1..]);
      if |xs| == 1 {
        assert Pieces(xs) == Split(xs[0]);
      } else {
        JoinOfConcat(Split(xs[0]), Pieces(xs[1..]));
      }
    }
  }

  /** The same parts; no part and one empty part look alike. */
  predicate SameParts(xs: seq<string>, ys: seq<string>) {
    xs == ys || (xs == [] && ys == [""]) || (xs == [""] && ys == [])
  }

  /** For any answers at all: the comparison sees the pieces of the sorted lists, and nothing
      of how they were grouped into answers. */
  lemma ComparisonOfPieces(a: seq<string>, b: seq<string>)
    ensures SameAnswers(a, b) <==> SameParts(Pieces(SortStrings(a)), Pieces(SortStrings(b)))
  {
    hide Join, SortStrings, Pieces;
    PiecesJoin(SortStrings(a));
    PiecesJoin(SortStrings(b));
    JoinExact(Pieces(SortStrings(a)), Pieces(SortStrings(b)), ',');
  }

  /** For comma-free answers the comparison is equality of multisets, with one
      exception: no answer and one empty answer look alike. */
  lemma ComparisonExact(a: seq<string>, b: seq<string>)
    requires AllFree(a, ',') && AllFree(b, ',')
    ensures SameAnswers(a, b) <==>
            multiset(a) == multiset(b) || (a == [] && b == [""]) || (a == [""] && b == [])
  {
    hide Join, SortStrings;
    SortKeepsFree(a, ',');
    SortKeepsFree(b, ',');
    JoinExact(SortStrings(a), SortStrings(b), ',');
    SortIsCanonical(a, b);
    SingletonSort(a);
    SingletonSort(b);
  }

  /** For the answers that can occur, which are not empty, it is equality of multisets. */
  lemma ComparisonIsMultisetEquality(a: seq<string>, b: seq<string>)
    requires AllFree(a, ',') && AllFree(b, ',') && AllNonEmpty(a) && AllNonEmpty(b)
    ensures SameAnswers(a, b) <==> multiset(a) == multiset(b)
  {
    hide SameAnswers;
    assert [""][0] == "";
    ComparisonExact(a, b);
  }

  /** Freedom from commas is needed, and repeated answers count. */
  lemma ComparisonLimits()
    ensures SameAnswers(["a,b"], ["a", "b"])
    ensures !SameAnswers(["a", "a"], ["a"])
  {
    assert SortStrings(["b"]) == ["b"] && SortStrings(["a"]) == ["a"];
    SortedUnique(SortStrings(["a", "b"]), ["a", "b"]);
    SortedUnique(SortStrings(["a", "a"]), ["a", "a"]);
    SortedUnique(SortStrings(["a,b"]), ["a,b"]);
    assert Join(["a", "b"], ',') == "a,b" by {
      assert ["a", "b"][1..] == ["b"];
    }
    assert Join(["a", "a"], ',') == "a,a" by {
      assert ["a", "a"][1..] == ["a"];
    }
  }
}
