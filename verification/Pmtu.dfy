/** The path-MTU search: a binary search over payload sizes, with payloads built to the
    byte, and the blackhole check that follows it. */
module Pmtu {
  import opened Options
  import opened SessionId
  import opened UdpPayload
  import U = UdpProbe

  // ----- payloads -------------------------------------------------------------------------

  function Head(id: string): string {
    "{\"session\":\"" + id + "\",\"kind\":\"pmtu\",\"data\":\""
  }

  const TAIL := "\"}"

  function Padding(n: nat): (s: string)
    ensures |s| == n && forall i :: 0 <= i < n ==> s[i] == 'a'
  {
    seq(n, _ => 'a')
  }

  function MinSize(id: string): nat {
    |Head(id)| + |TAIL| + 1
  }

  function PayloadOf(id: string, size: nat): (s: string)
    requires size >= MinSize(id)
    ensures |s| == size
  {
    Head(id) + Padding(size - |Head(id)| - |TAIL|) + TAIL
  }

  /** Fills the payload in place: head, padding and tail do not overlap and leave no gap. */
  method BuildPayload(id: string, size: nat) returns (b: array<char>)
    requires size >= MinSize(id)
    ensures fresh(b) && b[..] == PayloadOf(id, size)
    ensures b.Length == size && b[..12] == "{\"session\":\"" && b[12..12 + |id|] == id
    ensures b[12 + |id|..36 + |id|] == "\",\"kind\":\"pmtu\",\"data\":\"" && b[size - 2..] == "\"}"
    ensures forall i :: 36 + |id| <= i < size - 2 ==> b[i] == 'a'
  {
    var head := Head(id);
    b := new char[size];
    forall i | 0 <= i < |head| {
      b[i] := head[i];
    }
    assert b[..|head|] == head;
    for i := |head| to size - |TAIL|
      invariant b[..|head|] == head
      invariant forall j :: |head| <= j < i ==> b[j] == 'a'
    {
      b[i] := 'a';
    }
    ghost var pad := b[|head|..size - |TAIL|];
    forall i | 0 <= i < |TAIL| {
      b[size - |TAIL| + i] := TAIL[i];
    }
    assert b[..|head|] == head && b[|head|..size - |TAIL|] == Padding(size - |head| - |TAIL|);
    assert b[size - |TAIL|..] == TAIL;
    assert b[..] == b[..|head|] + b[|head|..size - |TAIL|] + b[size - |TAIL|..];
  }

  lemma DataField(data: string)
    ensures EncodeField(Field("data", data)) == "\"data\":\"" + data + "\""
  {
    assert Quote("data") + ":" + "\"" == "\"data\":\"";
    assert EncodeField(Field("data", data)) == (Quote("data") + ":" + "\"") + data + "\"";
  }

  lemma FlatObject(a: string, b: string, c: string)
    ensures "{" + (a + ("," + (b + ("," + (c + "}"))))) == "{" + a + "," + b + "," + c + "}"
  {
    var x, y := b + ("," + (c + "}")), b + "," + c + "}";
    assert x == y;
    assert a + ("," + x) == a + "," + b + "," + c + "}";
  }

  lemma ThreeFields(f: Field, g: Field, h: Field)
    ensures EncodeObject([f, g, h])
         == "{" + EncodeField(f) + "," + EncodeField(g) + "," + EncodeField(h) + "}"
  {
    hide EncodeField;
    FlatObject(EncodeField(f), EncodeField(g), EncodeField(h));
    assert [f, g, h][1..] == [g, h] && [g, h][1..] == [h];
    assert EncodeFields([h]) == EncodeField(h) + "}";
    assert EncodeFields([g, h]) == EncodeField(g) + ("," + EncodeFields([h]));
    assert EncodeFields([f, g, h]) == EncodeField(f) + ("," + EncodeFields([g, h]));
  }

  lemma PayloadIsObject(id: string, pad: string)
    ensures Head(id) + pad + TAIL
         == EncodeObject([Field("session", id), Field("kind", "pmtu"), Field("data", pad)])
  {
    var f, g, h := Field("session", id), Field("kind", "pmtu"), Field("data", pad);
    ThreeFields(f, g, h);
    SessionField(id);
    KindField("pmtu");
    DataField(pad);
    hide EncodeField, EncodeObject;
    assert "{" + ("\"session\":\"" + id + "\"") == "{\"session\":\"" + id + "\"";
    assert "\"" + "," + ("\"kind\":\"" + "pmtu" + "\"") + "," + "\"data\":\"" == "\",\"kind\":\"pmtu\",\"data\":\"";
    assert "{" + EncodeField(f) + "," + EncodeField(g) + "," + "\"data\":\"" == Head(id);
  }

  /** Every payload decodes to the session and kind pmtu. */
  lemma PayloadReadsBack(id: string, size: nat)
    requires IsSessionId(id) && size >= MinSize(id)
    ensures ParseUdpPayload(PayloadOf(id, size)) == Some((id, "pmtu"))
  {
    var n := size - |Head(id)| - |TAIL|;
    var fs := [Field("session", id), Field("kind", "pmtu"), Field("data", Padding(n))];
    SessionIdIsPlain(id);
    assert AllPlain("session") && AllPlain("kind") && AllPlain("pmtu") && AllPlain("data") && AllPlain(Padding(n));
    hide AllPlain, EncodeObject, ParseObject, Padding;
    PayloadIsObject(id, Padding(n));
    ObjectExact(PayloadOf(id, size), fs);
    TwoFields(id, "pmtu", [Field("data", Padding(n))]);
    assert fs == [Field("session", id), Field("kind", "pmtu")] + [Field("data", Padding(n))];
  }

  /** The largest size the client tries: the probe's limit if that is sensible. */
  function Cap(maxUdpPmtu: int): (cap: nat)
    ensures 0 < cap <= 9000
  {
    if maxUdpPmtu <= 0 || maxUdpPmtu > 9000 then 9000 else maxUdpPmtu
  }

  /** In numbers: the probe's limit where it makes sense, 9000 otherwise; and the least payload
      that holds a byte of padding. */
  lemma BoundsExactly(maxUdpPmtu: int, id: string)
    ensures Cap(maxUdpPmtu) == if 1 <= maxUdpPmtu <= 9000 then maxUdpPmtu else 9000
    ensures MinSize(id) == |id| + 39
  {
  }

  /** The probe answers a payload of the search exactly if its limit is positive. */
  lemma ProbeAnswersExactly(cfg: U.Config, id: string, size: nat, src: U.Addr, arrival: U.Socket)
    requires IsSessionId(id) && MinSize(id) <= size <= Cap(cfg.maxUdpPmtu)
    ensures U.React(cfg, PayloadOf(id, size), src, arrival).Some? <==> cfg.maxUdpPmtu > 0
    ensures cfg.maxUdpPmtu > 0 ==> U.React(cfg, PayloadOf(id, size), src, arrival).value.replier == arrival
  {
    hide ParseUdpPayload, PayloadOf;
    PayloadReadsBack(id, size);
  }

  // ----- the search -----------------------------------------------------------------------

  datatype Fact = Fact(size: int, ok: bool)

  /** What the socket says to a send: done, larger than the path MTU, or another error. */
  datatype Sent = Sent | TooBig | Failed

  /** The answer to the k-th send may depend on everything: only that is assumed. */
  type Oracle = (nat, int) -> Sent

  function Log2(n: nat): nat
    requires n >= 1
  {
    if n == 1 then 0 else 1 + Log2(n / 2)
  }

  function Pow2(k: nat): nat {
    if k == 0 then 1 else 2 * Pow2(k - 1)
  }

  /** Log2 is the floor of the binary logarithm. */
  lemma {:induction false} Log2IsFloor(n: nat)
    requires n >= 1
    ensures Pow2(Log2(n)) <= n < 2 * Pow2(Log2(n))
  {
    if n > 1 {
      Log2IsFloor(n / 2);
    }
  }

  lemma {:induction false} Log2Monotone(m: nat, n: nat)
    requires 1 <= m <= n
    ensures Log2(m) <= Log2(n)
    decreases n
  {
    if m > 1 {
      Log2Monotone(m / 2, n / 2);
    }
  }

  /** How many sends an interval can still cost. */
  function Budget(lo: int, hi: int): nat {
    if lo > hi then 0 else Log2(hi - lo + 1) + 1
  }

  lemma BudgetShrinks(lo: int, hi: int)
    requires lo <= hi
    ensures var mid := Range(lo, hi).Mid();
            && lo <= mid <= hi
            && Budget(mid + 1, hi) + 1 <= Budget(lo, hi)
            && Budget(lo, mid - 1) + 1 <= Budget(lo, hi)
  {
    var mid, n := (lo + hi) / 2, hi - lo + 1;
    assert hi - mid == n / 2 && mid - lo == (n - 1) / 2;
    if mid + 1 <= hi {
      Log2Monotone(hi - mid, n / 2);
    }
    if lo <= mid - 1 {
      Log2Monotone(mid - lo, n / 2);
    }
  }

  /** What the facts of a finished search say about its result, for any oracle. */
  ghost predicate Brackets(minSize: nat, cap: nat, facts: seq<Fact>, lastOk: nat) {
    && (forall i :: 0 <= i < |facts| ==> minSize <= facts[i].size <= cap)
    && (forall i :: 0 <= i < |facts| ==> (facts[i].ok <==> facts[i].size <= lastOk))
    && (lastOk > 0 ==> Fact(lastOk, true) in facts)
    && (lastOk == 0 && minSize <= cap ==> Fact(minSize, false) in facts)
    && (lastOk > 0 && lastOk != cap ==> Fact(lastOk + 1, false) in facts)
  }

  /** Every fact is what the oracle said. */
  ghost predicate Honest(send: Oracle, facts: seq<Fact>) {
    forall k :: 0 <= k < |facts| ==>
      send(k, facts[k].size) == if facts[k].ok then Sent else TooBig
  }

  /** The sizes that are still open after some facts. */
  datatype Range = Range(lo: int, hi: int) {
    function Mid(): int {
      (lo + hi) / 2
    }
  }

  function Open(minSize: nat, cap: nat, facts: seq<Fact>): Range {
    if facts == [] then Range(minSize, cap)
    else
      var r, f := Open(minSize, cap, facts[..|facts| - 1]), facts[|facts| - 1];
      if f.ok then r.(lo := f.size + 1) else r.(hi := f.size - 1)
  }

  /** Every send was in the middle of what was open. */
  ghost predicate Bisects(minSize: nat, cap: nat, facts: seq<Fact>) {
    forall k :: 0 <= k < |facts| ==>
      var r := Open(minSize, cap, facts[..k]); r.lo <= r.hi && facts[k].size == r.Mid()
  }

  lemma HonestMore(send: Oracle, facts: seq<Fact>, f: Fact)
    requires Honest(send, facts) && send(|facts|, f.size) == if f.ok then Sent else TooBig
    ensures Honest(send, facts + [f])
  {
  }

  /** What some facts leave open: from the least size or just above one accepted to the cap or
      just below one rejected, with all accepted sizes below and all rejected ones above. */
  ghost predicate LeaveOpen(minSize: nat, cap: nat, facts: seq<Fact>, lo: int, hi: int) {
    && (lo == minSize || Fact(lo - 1, true) in facts)
    && (hi == cap || Fact(hi + 1, false) in facts)
    && forall f :: f in facts ==> if f.ok then f.size < lo else f.size > hi
  }

  /** Each size tried is the middle of what the facts before it left open. */
  lemma BisectsReads(minSize: nat, cap: nat, facts: seq<Fact>, k: nat)
    requires Bisects(minSize, cap, facts) && k < |facts|
    ensures exists lo, hi :: LeaveOpen(minSize, cap, facts[..k], lo, hi) && lo <= hi && facts[k].size == (lo + hi) / 2
  {
    BisectsPrefix(minSize, cap, facts, k);
    OpenReads(minSize, cap, facts[..k]);
    var r := Open(minSize, cap, facts[..k]);
    hide LeaveOpen, Open;
    assert LeaveOpen(minSize, cap, facts[..k], r.lo, r.hi);
  }

  lemma {:induction false} OpenReads(minSize: nat, cap: nat, facts: seq<Fact>)
    requires Bisects(minSize, cap, facts)
    ensures LeaveOpen(minSize, cap, facts, Open(minSize, cap, facts).lo, Open(minSize, cap, facts).hi)
  {
    hide Bisects, Range.Mid;
    if facts == [] {
      NothingTried(minSize, cap);
    } else {
      var n := |facts| - 1;
      BisectsPrefix(minSize, cap, facts, n);
      MidWithin(minSize, cap, facts, n);
      OpenReads(minSize, cap, facts[..n]);
      var r, f := Open(minSize, cap, facts[..n]), facts[n];
      assert Open(minSize, cap, facts) == if f.ok then r.(lo := f.size + 1) else r.(hi := f.size - 1);
      hide Open;
      LeaveOpenMore(minSize, cap, facts[..n], r.lo, r.hi, f);
      assert facts == facts[..n] + [f];
    }
  }

  lemma NothingTried(minSize: nat, cap: nat)
    ensures LeaveOpen(minSize, cap, [], minSize, cap)
  {
  }

  lemma BisectsPrefix(minSize: nat, cap: nat, facts: seq<Fact>, k: nat)
    requires Bisects(minSize, cap, facts) && k <= |facts|
    ensures Bisects(minSize, cap, facts[..k])
  {
    hide Open, Range.Mid;
    assert forall j :: 0 <= j < k ==> facts[..k][..j] == facts[..j];
  }

  lemma LeaveOpenMore(minSize: nat, cap: nat, facts: seq<Fact>, lo: int, hi: int, f: Fact)
    requires LeaveOpen(minSize, cap, facts, lo, hi) && lo <= f.size <= hi
    ensures f.ok ==> LeaveOpen(minSize, cap, facts + [f], f.size + 1, hi)
    ensures !f.ok ==> LeaveOpen(minSize, cap, facts + [f], lo, f.size - 1)
  {
    var all := facts + [f];
    assert all[|facts|] == f && f == Fact(f.size, f.ok);
    assert forall x :: x in facts ==> x in all;
    assert forall x :: x in all ==> x in facts || x == f;
  }

  lemma MidWithin(minSize: nat, cap: nat, facts: seq<Fact>, k: nat)
    requires Bisects(minSize, cap, facts) && k < |facts|
    ensures var r := Open(minSize, cap, facts[..k]); r.lo <= facts[k].size <= r.hi
  {
    hide Open;
  }

  /** The search made these sends, and the next one failed. */
  ghost predicate FailsAfter(send: Oracle, minSize: nat, cap: nat, facts: seq<Fact>) {
    && Bisects(minSize, cap, facts) && Honest(send, facts) && |facts| < Budget(minSize, cap)
    && var r := Open(minSize, cap, facts);
       r.lo <= r.hi && send(|facts|, r.Mid()) == Failed
  }

  ghost predicate CanFail(send: Oracle, minSize: nat, cap: nat) {
    exists facts :: FailsAfter(send, minSize, cap, facts)
  }

  lemma SendAt(send: Oracle, minSize: nat, cap: nat, facts: seq<Fact>, k: nat)
    requires Bisects(minSize, cap, facts) && Honest(send, facts) && k < |facts|
    ensures var r := Open(minSize, cap, facts[..k]);
            && r.lo <= r.hi && send(k, r.Mid()) != Failed
            && facts[k] == Fact(r.Mid(), send(k, r.Mid()) == Sent)
  {
    hide Open, Range.Mid;
    assert send(k, facts[k].size) == if facts[k].ok then Sent else TooBig;
  }

  /** What a path answers decides which sends are made: two honest bisections agree as far as
      both go. */
  lemma {:induction false} BisectionIsForced(send: Oracle, minSize: nat, cap: nat, f: seq<Fact>, g: seq<Fact>, k: nat)
    requires Bisects(minSize, cap, f) && Honest(send, f) && Bisects(minSize, cap, g) && Honest(send, g)
    requires k <= |f| && k <= |g|
    ensures f[..k] == g[..k]
  {
    hide Bisects, Honest, Open, Range.Mid;
    if k > 0 {
      BisectionIsForced(send, minSize, cap, f, g, k - 1);
      SendAt(send, minSize, cap, f, k - 1);
      SendAt(send, minSize, cap, g, k - 1);
      assert f[..k] == f[..k - 1] + [f[k - 1]] && g[..k] == g[..k - 1] + [g[k - 1]];
    }
  }

  /** A search that came to its end met no failing send, and none was to be met. */
  lemma FailureIsExact(send: Oracle, minSize: nat, cap: nat, done: seq<Fact>)
    requires Bisects(minSize, cap, done) && Honest(send, done)
    requires Open(minSize, cap, done).lo > Open(minSize, cap, done).hi
    ensures !CanFail(send, minSize, cap)
  {
    hide Bisects, Honest, Open, Range.Mid, Budget;
    forall failed ensures !FailsAfter(send, minSize, cap, failed) {
      if FailsAfter(send, minSize, cap, failed) {
        var d, f := |done|, |failed|;
        assert done[..d] == done && failed[..f] == failed;
        BisectionIsForced(send, minSize, cap, done, failed, if d <= f then d else f);
        if d < f {
          SendAt(send, minSize, cap, failed, d);
        } else if f < d {
          SendAt(send, minSize, cap, done, f);
        }
      }
    }
  }

  lemma BisectsMore(minSize: nat, cap: nat, facts: seq<Fact>, f: Fact)
    requires Bisects(minSize, cap, facts)
    requires var r := Open(minSize, cap, facts); r.lo <= r.hi && f.size == r.Mid()
    ensures Bisects(minSize, cap, facts + [f])
    ensures var r := Open(minSize, cap, facts);
            Open(minSize, cap, facts + [f]) == if f.ok then r.(lo := f.size + 1) else r.(hi := f.size - 1)
  {
    var facts' := facts + [f];
    assert facts'[..|facts|] == facts;
    assert forall k :: 0 <= k < |facts| ==> facts'[..k] == facts[..k];
  }

  /** What the facts so far say while sizes lo..hi are still open. */
  ghost predicate Narrowed(minSize: nat, cap: nat, facts: seq<Fact>, lastOk: nat, lo: int, hi: int) {
    && minSize <= lo && hi <= cap && (hi < lo ==> hi == lo - 1 || minSize > cap)
    && lo == (if lastOk == 0 then minSize else lastOk + 1)
    && (forall i :: 0 <= i < |facts| ==> minSize <= facts[i].size <= cap)
    && (forall i :: 0 <= i < |facts| ==> if facts[i].ok then facts[i].size <= lastOk else facts[i].size > hi)
    && (lastOk > 0 ==> lastOk <= hi && Fact(lastOk, true) in facts)
    && (hi < cap ==> Fact(hi + 1, false) in facts)
  }

  /** The result so far and the sizes still open, after one more fact. */
  function Next(lastOk: nat, lo: int, hi: int, f: Fact): (nat, int, int)
    requires f.size >= 0
  {
    if f.ok then (f.size, f.size + 1, hi) else (lastOk, lo, f.size - 1)
  }

  lemma NarrowedStep(minSize: nat, cap: nat, facts: seq<Fact>, lastOk: nat, lo: int, hi: int, f: Fact)
    requires 0 < minSize && lo <= f.size <= hi && Narrowed(minSize, cap, facts, lastOk, lo, hi) && f.size >= 0
    ensures var (l, a, b) := Next(lastOk, lo, hi, f); Narrowed(minSize, cap, facts + [f], l, a, b)
  {
    var facts' := facts + [f];
    assert forall x :: x in facts ==> x in facts';
    assert facts'[|facts|] == f;
  }

  lemma NarrowedDone(minSize: nat, cap: nat, facts: seq<Fact>, lastOk: nat, lo: int, hi: int)
    requires 0 < minSize && hi < lo && Narrowed(minSize, cap, facts, lastOk, lo, hi)
    ensures Brackets(minSize, cap, facts, lastOk)
  {
  }

  /** Everything known of a search while sizes lo..hi are still open. */
  ghost predicate Searching(send: Oracle, minSize: nat, cap: nat, facts: seq<Fact>, lastOk: nat, lo: int, hi: int) {
    && 0 < minSize && Narrowed(minSize, cap, facts, lastOk, lo, hi)
    && Honest(send, facts) && Bisects(minSize, cap, facts) && Open(minSize, cap, facts) == Range(lo, hi)
    && |facts| + Budget(lo, hi) <= Budget(minSize, cap)
  }

  lemma SearchStarts(send: Oracle, minSize: nat, cap: nat)
    requires 0 < minSize
    ensures Searching(send, minSize, cap, [], 0, minSize, cap)
  {
  }

  lemma MidIsOpen(send: Oracle, minSize: nat, cap: nat, facts: seq<Fact>, lastOk: nat, lo: int, hi: int)
    requires lo <= hi && Searching(send, minSize, cap, facts, lastOk, lo, hi)
    ensures 0 < minSize <= lo <= Range(lo, hi).Mid() <= hi
  {
    BudgetShrinks(lo, hi);
    hide Budget, Range.Mid, Honest, Bisects, Open;
  }

  lemma SearchFails(send: Oracle, minSize: nat, cap: nat, facts: seq<Fact>, lastOk: nat, lo: int, hi: int)
    requires lo <= hi && Searching(send, minSize, cap, facts, lastOk, lo, hi)
    requires send(|facts|, Range(lo, hi).Mid()) == Failed
    ensures CanFail(send, minSize, cap)
  {
    BudgetShrinks(lo, hi);
    hide Narrowed, Budget, Range.Mid, Honest, Bisects, Open;
    assert FailsAfter(send, minSize, cap, facts);
  }

  lemma NarrowedNext(send: Oracle, minSize: nat, cap: nat, facts: seq<Fact>, lastOk: nat, lo: int, hi: int, f: Fact)
    requires lo <= hi && Searching(send, minSize, cap, facts, lastOk, lo, hi)
    requires f.size == Range(lo, hi).Mid() >= 0 && send(|facts|, f.size) == if f.ok then Sent else TooBig
    ensures var (l, a, b) := Next(lastOk, lo, hi, f);
            Narrowed(minSize, cap, facts + [f], l, a, b)
  {
    MidIsOpen(send, minSize, cap, facts, lastOk, lo, hi);
    hide Narrowed, Honest, Bisects, Open, Budget, Range.Mid;
    NarrowedStep(minSize, cap, facts, lastOk, lo, hi, f);
  }

  lemma TraceNext(send: Oracle, minSize: nat, cap: nat, facts: seq<Fact>, lastOk: nat, lo: int, hi: int, f: Fact)
    requires lo <= hi && Searching(send, minSize, cap, facts, lastOk, lo, hi)
    requires f.size == Range(lo, hi).Mid() >= 0 && send(|facts|, f.size) == if f.ok then Sent else TooBig
    ensures var (l, a, b) := Next(lastOk, lo, hi, f);
            && Honest(send, facts + [f]) && Bisects(minSize, cap, facts + [f])
            && Open(minSize, cap, facts + [f]) == Range(a, b)
  {
    hide Narrowed, Honest, Bisects, Open, Budget, Range.Mid;
    HonestMore(send, facts, f);
    BisectsMore(minSize, cap, facts, f);
  }

  lemma BudgetNext(send: Oracle, minSize: nat, cap: nat, facts: seq<Fact>, lastOk: nat, lo: int, hi: int, f: Fact)
    requires lo <= hi && Searching(send, minSize, cap, facts, lastOk, lo, hi)
    requires f.size == Range(lo, hi).Mid() >= 0 && send(|facts|, f.size) == if f.ok then Sent else TooBig
    ensures var (l, a, b) := Next(lastOk, lo, hi, f);
            |facts + [f]| + Budget(a, b) <= Budget(minSize, cap)
  {
    hide Narrowed, Honest, Bisects, Open, Budget, Range.Mid;
    BudgetShrinks(lo, hi);
  }

  lemma SearchGoesOn(send: Oracle, minSize: nat, cap: nat, facts: seq<Fact>, lastOk: nat, lo: int, hi: int, f: Fact)
    requires lo <= hi && Searching(send, minSize, cap, facts, lastOk, lo, hi)
    requires f.size == Range(lo, hi).Mid() >= 0 && send(|facts|, f.size) == if f.ok then Sent else TooBig
    ensures var (l, a, b) := Next(lastOk, lo, hi, f);
            Searching(send, minSize, cap, facts + [f], l, a, b)
  {
    hide Narrowed, Honest, Bisects, Open, Budget, Range.Mid;
    NarrowedNext(send, minSize, cap, facts, lastOk, lo, hi, f);
    TraceNext(send, minSize, cap, facts, lastOk, lo, hi, f);
    BudgetNext(send, minSize, cap, facts, lastOk, lo, hi, f);
  }

  lemma SearchEnds(send: Oracle, minSize: nat, cap: nat, facts: seq<Fact>, lastOk: nat, lo: int, hi: int)
    requires hi < lo && Searching(send, minSize, cap, facts, lastOk, lo, hi)
    ensures Ends(send, minSize, cap, facts, lastOk)
  {
    NarrowedDone(minSize, cap, facts, lastOk, lo, hi);
  }

  /** The search has run to its end. */
  ghost predicate Ends(send: Oracle, minSize: nat, cap: nat, facts: seq<Fact>, lastOk: nat) {
    && Brackets(minSize, cap, facts, lastOk)
    && Honest(send, facts) && Bisects(minSize, cap, facts)
    && Open(minSize, cap, facts).lo > Open(minSize, cap, facts).hi
    && |facts| <= Budget(minSize, cap)
  }

  /** One send, of a payload of exactly the middle size; None stands for an error other than
      the size. */
  method TrySize(id: string, cap: nat, send: Oracle, facts: seq<Fact>, ghost lastOk: nat, lo: int, hi: int)
    returns (fact: Option<Fact>)
    requires lo <= hi && Searching(send, MinSize(id), cap, facts, lastOk, lo, hi)
    ensures fact.None? ==> CanFail(send, MinSize(id), cap)
    ensures fact.Some? ==> lo <= fact.value.size <= hi && fact.value.size >= 0
    ensures fact.Some? ==>
            var (l, a, b) := Next(lastOk, lo, hi, fact.value);
            Searching(send, MinSize(id), cap, facts + [fact.value], l, a, b)
  {
    var mid := Range(lo, hi).Mid();
    hide Searching, CanFail, MinSize, Range.Mid;
    MidIsOpen(send, MinSize(id), cap, facts, lastOk, lo, hi);
    var payload := BuildPayload(id, mid);
    var answer := send(|facts|, payload.Length);
    if answer == Failed {
      SearchFails(send, MinSize(id), cap, facts, lastOk, lo, hi);
      return None;
    }
    fact := Some(Fact(mid, answer == Sent));
    SearchGoesOn(send, MinSize(id), cap, facts, lastOk, lo, hi, fact.value);
  }

  /** Either the search runs to its end, or a send that it gets to fails with another error
      than the size. */
  method Search(id: string, cap: nat, send: Oracle) returns (r: Option<(nat, seq<Fact>)>)
    ensures r.Some? ==> Ends(send, MinSize(id), cap, r.value.1, r.value.0)
    ensures r.None? ==> CanFail(send, MinSize(id), cap)
  {
    var lo, hi: int := MinSize(id), cap;
    var lastOk: nat := 0;
    var facts: seq<Fact> := [];
    SearchStarts(send, MinSize(id), cap);
    hide Searching, CanFail, MinSize, Ends;
    while lo <= hi
      invariant Searching(send, MinSize(id), cap, facts, lastOk, lo, hi)
    {
      var tried := TrySize(id, cap, send, facts, lastOk, lo, hi);
      if tried.None? {
        return None;
      }
      ghost var (l: nat, a: int, b: int) := Next(lastOk, lo, hi, tried.value);
      assert Searching(send, MinSize(id), cap, facts + [tried.value], l, a, b);
      var mid, ok := tried.value.size, tried.value.ok;
      facts := facts + [tried.value];
      if ok {
        lastOk := mid;
        lo := mid + 1;
      } else {
        hi := mid - 1;
      }
      assert lastOk == l && lo == a && hi == b;
    }
    SearchEnds(send, MinSize(id), cap, facts, lastOk, lo, hi);
    r := Some((lastOk, facts));
  }

  /** A size fits the path or not, whenever it is tried, and smaller ones fit too. */
  ghost predicate Monotone(send: Oracle, fits: int -> bool) {
    && (forall k: nat, size :: send(k, size) == if fits(size) then Sent else TooBig)
    && (forall a, b :: a <= b && fits(b) ==> fits(a))
  }

  /** For a monotone path the search finds the greatest size that fits, or 0. */
  lemma SearchFindsGreatest(send: Oracle, fits: int -> bool, minSize: nat, cap: nat, facts: seq<Fact>, lastOk: nat)
    requires Monotone(send, fits)
    requires Brackets(minSize, cap, facts, lastOk) && Honest(send, facts)
    ensures lastOk > 0 ==> minSize <= lastOk <= cap && fits(lastOk)
    ensures forall size :: minSize <= size <= cap && size > lastOk ==> !fits(size)
  {
    forall f | f in facts ensures f.ok <==> fits(f.size) {
      var k :| 0 <= k < |facts| && facts[k] == f;
      assert send(k, f.size) == if f.ok then Sent else TooBig;
    }
    forall size | minSize <= size <= cap && size > lastOk ensures !fits(size) {
      if lastOk == 0 {
        assert Fact(minSize, false) in facts;
      } else {
        assert Fact(lastOk + 1, false) in facts;
      }
    }
  }

  // ----- the blackhole check ----------------------------------------------------------------

  /** The path as the last datagram meets it: whether its send succeeds, whether the
      request and the probe's reply get through, and whether an earlier reply is still
      queued, which the check would read instead. */
  datatype Path = Path(sends: bool, requestArrives: bool, replyArrives: bool, queued: bool)

  datatype Result = Result(facts: seq<Fact>, pathMtu: int, blackhole: bool, atCap: bool)

  method RunPmtu(id: string, cfg: U.Config, src: U.Addr, send: Oracle, path: Path) returns (r: Option<Result>)
    ensures r.Some? ==> exists lastOk: nat ::
              && Ends(send, MinSize(id), Cap(cfg.maxUdpPmtu), r.value.facts, lastOk)
              && r.value.pathMtu == (if lastOk > 0 then lastOk + 28 else 0)
              && r.value.atCap == (lastOk >= Cap(cfg.maxUdpPmtu))
              && r.value.blackhole == (lastOk > 0 && path.sends && !Answered(cfg, id, src, path, lastOk))
    ensures r.Some? && IsSessionId(id) ==>
              (r.value.blackhole <==>
                && r.value.pathMtu > 0 && path.sends && !path.queued
                && !(path.requestArrives && path.replyArrives && cfg.maxUdpPmtu > 0))
    ensures r.None? <==> CanFail(send, MinSize(id), Cap(cfg.maxUdpPmtu))
  {
    hide Brackets, Honest, Budget, Answered, IsSessionId, CanFail, Bisects, Open;
    var cap := Cap(cfg.maxUdpPmtu);
    var searched := Search(id, cap, send);
    if searched.None? {
      return None;
    }
    var (lastOk, facts) := searched.value;
    FailureIsExact(send, MinSize(id), cap, facts);
    var blackhole := false;
    if lastOk > 0 && path.sends {
      if IsSessionId(id) {
        FoundIsInRange(MinSize(id), cap, facts, lastOk);
        AnsweredExactly(cfg, id, src, path, lastOk);
      }
      var received := Answered(cfg, id, src, path, lastOk);
      if !received {
        blackhole := true;
      }
    }
    var pathMtu := 0;
    if lastOk > 0 {
      pathMtu := lastOk + 28;
    }
    r := Some(Result(facts, pathMtu, blackhole, lastOk >= cap));
  }

  /** Some datagram can be read before the deadline. */
  predicate Answered(cfg: U.Config, id: string, src: U.Addr, path: Path, size: nat) {
    path.queued
    || (size >= MinSize(id) && path.requestArrives && path.replyArrives
        && U.React(cfg, PayloadOf(id, size), src, U.UdpSocket).Some?)
  }

  lemma FoundIsInRange(minSize: nat, cap: nat, facts: seq<Fact>, lastOk: nat)
    requires Brackets(minSize, cap, facts, lastOk) && lastOk > 0
    ensures minSize <= lastOk <= cap
  {
  }

  /** When the check is answered: by an earlier reply, or if the path delivers both ways and the
      probe answers at all. */
  lemma AnsweredExactly(cfg: U.Config, id: string, src: U.Addr, path: Path, size: nat)
    requires IsSessionId(id) && MinSize(id) <= size <= Cap(cfg.maxUdpPmtu)
    ensures Answered(cfg, id, src, path, size) <==>
            path.queued || (path.requestArrives && path.replyArrives && cfg.maxUdpPmtu > 0)
  {
    hide U.React, PayloadOf;
    ProbeAnswersExactly(cfg, id, size, src, U.UdpSocket);
  }

  /** When a path that delivers both ways is called a blackhole: exactly if the probe's
      limit is not positive, so that it answers nothing, and no earlier reply is queued.
      With a positive limit the check is always answered. */
  lemma HealthyPathAnswers(cfg: U.Config, id: string, src: U.Addr, path: Path, size: nat)
    requires IsSessionId(id) && MinSize(id) <= size <= Cap(cfg.maxUdpPmtu)
    requires path.requestArrives && path.replyArrives
    ensures Answered(cfg, id, src, path, size) <==> cfg.maxUdpPmtu > 0 || path.queued
  {
    hide U.React, PayloadOf;
    ProbeAnswersExactly(cfg, id, size, src, U.UdpSocket);
  }
}
