/** Where the parser's limits show: messages longer than their record, and the cap on the
    buffer. */
module HelloLimits {
  import opened Wire
  import F = HelloFormat
  import B = HelloBuilder
  import opened HelloParser

  // ----- messages longer than their record ------------------------------------------------

  /** The smallest ones: records of four bytes whose message claims one byte more, or 65536. */
  lemma StuckRecord()
    ensures F.IsStuck([22, 3, 1, 0, 4, 1, 0, 0, 1]) && F.IsStuck([22, 3, 1, 0, 4, 1, 1, 0, 0])
  {
  }

  /** What has not been decided at the end was not decided before. */
  lemma UndecidedBefore(p: seq<byte>, b: seq<byte>)
    requires p <= b && F.ParseRecord(b).NeedMore?
    ensures F.ParseRecord(p).NeedMore?
  {
    hide F.ParseRecord;
    assert p + b[|p|..] == b;
    if !F.ParseRecord(p).NeedMore? {
      F.DecidedIsStable(p, b[|p|..]);
    }
  }

  /** A connection that begins with one, however it is cut, ends undecided, or refused exactly
      if it sends more than the cap. */
  lemma StuckUntilCap(b: seq<byte>, chunks: seq<seq<byte>>)
    requires F.IsStuck(b) && b <= Flatten(chunks)
    ensures RunChunks([], chunks) == if |Flatten(chunks)| > 65536 then F.Invalid else F.NeedMore
  {
    hide F.ParseRecord, F.IsStuck;
    var n, all := |chunks|, Flatten(chunks);
    assert b + all[|b|..] == all;
    F.StuckForever(b, all[|b|..]);
    if |all| > MAX_HELLO {
      NothingNeedsMore();
      ChunkedVerdict([], chunks);
      var init, last := chunks[..n - 1], chunks[n - 1];
      assert chunks == init + [last] && chunks[..n] == chunks;
      FlattenSnoc(init, last);
      UndecidedBefore(Flatten(init), all);
      assert [] + all == all && [] + Flatten(init) == Flatten(init);
      assert OverflowsAt([], chunks, n);
    } else {
      FragmentationIndependence(chunks);
    }
  }

  // ----- the cap --------------------------------------------------------------------------

  lemma {:induction false} FlattenConcat(xs: seq<seq<byte>>, ys: seq<seq<byte>>)
    ensures Flatten(xs + ys) == Flatten(xs) + Flatten(ys)
  {
    if xs == [] {
      assert xs + ys == ys;
    } else {
      assert (xs + ys)[1..] == xs[1..] + ys;
      FlattenConcat(xs[1..], ys);
    }
  }

  lemma FlattenSnoc(xs: seq<seq<byte>>, y: seq<byte>)
    ensures Flatten(xs + [y]) == Flatten(xs) + y
  {
    assert [y][1..] == [] && Flatten([y]) == y + Flatten([]);
    FlattenConcat(xs, [y]);
  }

  /** A hello that is complete within the cap, with bytes behind it that go over the cap: it
      is refused if its end is read together with those, and accepted if its end is read
      alone. */
  lemma CapDependsOnCutting(head: seq<seq<byte>>, tail: seq<byte>, more: seq<byte>)
    requires F.ParseRecord(Flatten(head)).NeedMore? && F.ParseRecord(Flatten(head) + tail).Done?
    requires |Flatten(head) + tail| <= 65536 < |Flatten(head) + tail + more|
    ensures RunChunks([], head + [tail + more]) == F.Invalid
    ensures RunChunks([], head + [tail, more]) == F.ParseRecord(Flatten(head) + tail)
  {
    hide F.ParseRecord;
    var n, hello := |head|, Flatten(head) + tail;
    NothingNeedsMore();
    FlattenSnoc(head, tail + more);
    var joined := head + [tail + more];
    assert joined[..n + 1] == joined && joined[..n] == head;
    assert [] + Flatten(joined) == hello + more && [] + Flatten(head) == Flatten(head);
    assert OverflowsAt([], joined, n + 1);
    ChunkedVerdict([], joined);

    var apart := head + [tail, more];
    assert apart == head + [tail] + [more];
    FlattenSnoc(head, tail);
    FlattenSnoc(head + [tail], more);
    F.DecidedIsStable(hello, more);
    assert [] + Flatten(apart) == hello + more;
    forall k | 0 < k <= n + 2 ensures !OverflowsAt([], apart, k) {
      if k <= n + 1 {
        assert apart[..k] == (head + [tail])[..k];
        FlattenTake(head + [tail], k);
      } else {
        assert apart[..n + 1] == head + [tail];
        assert [] + Flatten(apart[..n + 1]) == hello;
      }
    }
    ChunkedVerdict([], apart);
  }

  lemma NothingNeedsMore()
    ensures F.ParseRecord([]).NeedMore?
  {
  }

  /** A record without its last bytes is waited for. */
  lemma PrefixNeedsMore(b: B.Builder, n: nat)
    requires B.Fits(b) && n < |B.Build(b)|
    ensures F.ParseRecord(B.Build(b)[..n]).NeedMore?
  {
    hide F.EncodeBody;
    var hs := B.Handshake(F.EncodeBody(B.BodyOf(b)));
    var hello, cut := B.Build(b), B.Build(b)[..n];
    assert |hs| < 65536;
    assert hello[3..5] == U16Bytes(|hs|);
    assert BE16(hello, 3) == BE16(hello[3..5], 0) == |hs|;
    if n >= 5 {
      assert BE16(cut, 3) == BE16(hello, 3);
    }
    F.NeedMoreExactly(cut);
  }

  const READ_SIZE := 4096

  /** Cuts a stream into full reads. */
  function Cut(d: seq<byte>): (chunks: seq<seq<byte>>)
    ensures forall i :: 0 <= i < |chunks| ==> 0 < |chunks[i]| <= READ_SIZE
    ensures Flatten(chunks) == d
  {
    if d == [] then []
    else
      var n := if |d| < READ_SIZE then |d| else READ_SIZE;
      assert [d[..n]] + Cut(d[n..]) == [d[..n]] + Cut(d[n..]);
      [d[..n]] + Cut(d[n..])
  }

  /** A hello with a padding extension (section 3 of RFC 7685) that takes 64056 bytes. */
  function LongHello(): B.Builder {
    B.Builder(0x0301, 0x0303, [], [0x1301], [0], [F.Entry(21, B.Zeros(64000))])
  }

  lemma LongHelloFits()
    ensures B.Fits(LongHello()) && |B.Build(LongHello())| == 64056
  {
    var e := F.Entry(21, B.Zeros(64000));
    assert [e][1..] == [];
    assert F.EncodeEntries([e]) == F.EncodeEntry(e) + F.EncodeEntries([]);
    assert |F.EncodeEntry(e)| == 64004;
  }

  /** It happens with the connection loop's own reads of at most 4096 bytes. */
  lemma CompleteYetRefused()
    ensures exists chunks: seq<seq<byte>>, n: nat ::
              && (forall i :: 0 <= i < |chunks| ==> 0 < |chunks[i]| <= 4096)
              && n <= |Flatten(chunks)| && n <= 65536 && F.ParseRecord(Flatten(chunks)[..n]).Done?
              && RunChunks([], chunks) == F.Invalid
  {
    hide B.Fits, B.Build, F.ParseRecord, RunChunks, LongHello, F.Interpret;
    var b := LongHello();
    LongHelloFits();
    var hello := B.Build(b);
    B.RoundTrip(b);
    PrefixNeedsMore(b, 62056);
    var head, tail, more := Cut(hello[..62056]), hello[62056..], B.Zeros(2096);
    assert Flatten(head) + tail == hello;
    CapDependsOnCutting(head, tail, more);
    var chunks := head + [tail + more];
    FlattenSnoc(head, tail + more);
    assert Flatten(chunks) == hello + more && Flatten(chunks)[..64056] == hello;
  }
}
