/**
 Reassembly inverts fragmentation: for every message, every aligned MTU, every order of arrival
 and every interleaving with other messages.
 */
module Reassembly {
  import opened Prelude
  import opened Fragman
  import opened Sender

  // ----- one message, counters against coverage -----

  /** A piece that a correct cutter of `msg` could have made, not necessarily the one used. */
  ghost predicate IsPart(p: Piece, msg: seq<byte>)
  {
    && p.data != [] && p.End() <= |msg| && p.data == msg[p.off..p.End()]
    && (p.last <==> p.End() == |msg|)
  }

  ghost predicate Apart(p: Piece, q: Piece) { p.End() <= q.off || q.End() <= p.off }

  ghost predicate PairwiseApart(ps: seq<Piece>)
  {
    forall i, j :: 0 <= i < j < |ps| ==> Apart(ps[i], ps[j])
  }

  ghost predicate Covered(ps: seq<Piece>, k: int) { exists p :: p in ps && p.Covers(k) }

  /** All pieces added to an empty reassembly. */
  function Feed(ps: seq<Piece>): Asm
  {
    if ps == [] then EMPTY else AddPiece(Feed(ps[..|ps| - 1]), ps[|ps| - 1])
  }

  /** Bytes delivered, copies counted as often as they came. */
  function Volume(ps: seq<Piece>): nat
  {
    if ps == [] then 0 else Volume(ps[..|ps| - 1]) + |ps[|ps| - 1].data|
  }

  lemma {:induction false} BytesSize(p: Piece)
    ensures |p.Bytes()| == |p.data|
  {
    RangeSize(p.off, p.End());
    assert p.Bytes().Keys == Range(p.off, p.End());
  }

  predicate Within(a: nat, k: nat, b: nat) { a <= k < b }

  function Range(a: nat, b: nat): set<nat>
  {
    set k: nat {:trigger Within(a, k, b)} | a <= k < b
  }

  lemma {:induction false} RangeSize(a: nat, b: nat)
    requires a <= b
    ensures |Range(a, b)| == b - a
  {
    if a < b {
      RangeSize(a, b - 1);
      assert Range(a, b) == Range(a, b - 1) + {b - 1};
    }
  }

  /** Whatever parts of a message arrive, in any order and number: the buffer holds message bytes
      at the positions covered, the byte counter holds the volume, and the need is known exactly
      from the last part on. */
  lemma {:induction false} FeedHolds(ps: seq<Piece>, msg: seq<byte>)
    requires |msg| <= 0x1_0000 && forall p :: p in ps ==> IsPart(p, msg)
    ensures var a := Feed(ps);
            && a.received == Volume(ps)
            && a.needed == (if exists p :: p in ps && p.last then |msg| else 0)
            && (forall k :: k in a.written ==> k < |msg| && a.written[k] == msg[k])
            && (forall k :: k in a.written <==> Covered(ps, k))
  {
    if ps != [] {
      var front, p := ps[..|ps| - 1], ps[|ps| - 1];
      FrontMembers(ps);
      FeedHolds(front, msg);
      AddPartHolds(Feed(front), p, msg);
    }
  }

  lemma AddPartHolds(a: Asm, p: Piece, msg: seq<byte>)
    requires |msg| <= 0x1_0000 && IsPart(p, msg)
    requires forall k :: k in a.written ==> k < |msg| && a.written[k] == msg[k]
    ensures var b := AddPiece(a, p);
            && b.received == a.received + |p.data|
            && b.needed == (if p.last then |msg| else a.needed)
            && (forall k :: k in b.written ==> k < |msg| && b.written[k] == msg[k])
            && (forall k :: k in b.written <==> k in a.written || p.Covers(k))
  {
    forall k ensures k in p.Bytes() <==> p.Covers(k) {
    }
  }

  lemma FrontMembers(ps: seq<Piece>)
    requires ps != []
    ensures var front, p := ps[..|ps| - 1], ps[|ps| - 1];
            && (forall q :: q in ps <==> q in front || q == p)
            && (forall k :: Covered(ps, k) <==> Covered(front, k) || p.Covers(k))
  {
    var front, p := ps[..|ps| - 1], ps[|ps| - 1];
    assert ps == front + [p];
    forall k ensures Covered(ps, k) <==> Covered(front, k) || p.Covers(k) {
      assert p in ps && forall q :: q in ps <==> q in front || q == p;
    }
  }

  lemma ApartCovers(ps: seq<Piece>, k: int)
    requires PairwiseApart(ps) && ps != []
    ensures !(Covered(ps[..|ps| - 1], k) && ps[|ps| - 1].Covers(k))
  {
    var front := ps[..|ps| - 1];
    if Covered(front, k) {
      var q :| q in front && q.Covers(k);
      var i :| 0 <= i < |front| && front[i] == q;
      assert Apart(ps[i], ps[|ps| - 1]);
    }
  }

  lemma ApartFromFront(ps: seq<Piece>, msg: seq<byte>)
    requires |msg| <= 0x1_0000 && (forall p :: p in ps ==> IsPart(p, msg)) && PairwiseApart(ps) && ps != []
    ensures Feed(ps[..|ps| - 1]).written.Keys !! ps[|ps| - 1].Bytes().Keys
  {
    var front, p := ps[..|ps| - 1], ps[|ps| - 1];
    assert forall q :: q in front ==> q in ps;
    FeedHolds(front, msg);
    forall k ensures !(k in Feed(front).written && k in p.Bytes()) {
      ApartCovers(ps, k);
    }
  }

  /** Without overlaps the byte counter is the size of the covered set. */
  lemma {:induction false} CounterIsCoverage(ps: seq<Piece>, msg: seq<byte>)
    requires |msg| <= 0x1_0000 && (forall p :: p in ps ==> IsPart(p, msg)) && PairwiseApart(ps)
    ensures Feed(ps).received == |Feed(ps).written|
  {
    if ps != [] {
      var front, p := ps[..|ps| - 1], ps[|ps| - 1];
      FrontMembers(ps);
      CounterIsCoverage(front, msg);
      ApartFromFront(ps, msg);
      assert IsPart(p, msg);
      BytesSize(p);
      DisjointUnionSize(Feed(front).written, p.Bytes());
    }
  }

  lemma DisjointUnionSize<K, V>(a: map<K, V>, b: map<K, V>)
    requires a.Keys !! b.Keys
    ensures |a + b| == |a| + |b|
  {
    assert (a + b).Keys == a.Keys + b.Keys;
    assert |(a + b).Keys| == |a.Keys| + |b.Keys|;
  }

  /** Never early and never late: with disjoint parts, in any order, the counters say complete
      exactly when every byte of the message is there. */
  lemma CompleteExactlyWhenCovered(ps: seq<Piece>, msg: seq<byte>)
    requires 0 < |msg| <= 0x1_0000 && (forall p :: p in ps ==> IsPart(p, msg)) && PairwiseApart(ps)
    ensures Complete(Feed(ps)) <==> forall k :: 0 <= k < |msg| ==> k in Feed(ps).written
  {
    var a := Feed(ps);
    FeedHolds(ps, msg);
    CounterIsCoverage(ps, msg);
    RangeSize(0, |msg|);
    forall k | k in a.written ensures k in Range(0, |msg|) { assert Within(0, k, |msg|); }
    if Complete(a) {
      Subset(a.written.Keys, Range(0, |msg|));
      forall k | 0 <= k < |msg| ensures k in a.written { assert Within(0, k, |msg|); }
    }
    if forall k :: 0 <= k < |msg| ==> k in a.written {
      assert Covered(ps, |msg| - 1);
      var p :| p in ps && p.Covers(|msg| - 1);
      assert IsPart(p, msg) && p.last;
      assert a.written.Keys == Range(0, |msg|);
    }
  }

  lemma {:induction false} Subset<T>(a: set<T>, b: set<T>)
    requires a <= b && |a| >= |b|
    ensures a == b
  {
    assert b == a + (b - a);
    assert |b| == |a| + |b - a|;
  }

  lemma OuterThirds(msg: seq<byte>, n: nat)
    requires 0 < n && |msg| == 3 * n
    ensures var p, q := Piece(0, msg[..n], false), Piece(2 * n, msg[2 * n..], true);
            IsPart(p, msg) && IsPart(q, msg) && !p.Covers(n) && !q.Covers(n)
  {
  }

  lemma In3(p: Piece, q: Piece, x: Piece)
    ensures x in [p, p, q] <==> x == p || x == q
  {
    assert [p, p, q][0] == p && [p, p, q][2] == q;
  }

  /** With copies the counters can lie: three parts of equal size, the first delivered twice and
      the second not at all, count as the whole message. */
  lemma DuplicatesCompleteEarly(msg: seq<byte>, n: nat)
    requires 0 < n && |msg| == 3 * n && |msg| <= 0x1_0000
    ensures var p := Piece(0, msg[..n], false);
            var q := Piece(2 * n, msg[2 * n..], true);
            IsPart(p, msg) && IsPart(q, msg) && Complete(Feed([p, p, q])) && n !in Feed([p, p, q]).written
  {
    var p, q := Piece(0, msg[..n], false), Piece(2 * n, msg[2 * n..], true);
    OuterThirds(msg, n);
    forall x ensures x in [p, p, q] <==> x == p || x == q {
      In3(p, q, x);
    }
    FeedHolds([p, p, q], msg);
    VolumeOf3(p, p, q);
    assert q in [p, p, q] && q.last;
    assert !Covered([p, p, q], n);
  }

  lemma VolumeOf3(p: Piece, q: Piece, r: Piece)
    ensures Volume([p, q, r]) == |p.data| + |q.data| + |r.data|
  {
    assert [p] == [] + [p];
    VolumeNext([], p);
    assert [p, q] == [p] + [q];
    VolumeNext([p], q);
    assert [p, q, r] == [p, q] + [r];
    VolumeNext([p, q], r);
  }

  lemma VolumeNext(ps: seq<Piece>, p: Piece)
    ensures Volume(ps + [p]) == Volume(ps) + |p.data|
  {
    assert (ps + [p])[..|ps|] == ps;
  }

  /** Bytes below `n` fill the range exactly when there are `n` of them. */
  lemma FillsRange(w: map<nat, byte>, n: nat)
    requires forall k :: k in w ==> k < n
    ensures |w| <= n && (|w| < n <==> exists k: nat :: k < n && k !in w)
    ensures |w| == n <==> w.Keys == Range(0, n)
  {
    RangeSize(0, n);
    forall k | k in w.Keys ensures k in Range(0, n) { assert Within(0, k, n); }
    Cardinality(w.Keys, Range(0, n));
    if |w.Keys| == n {
      Subset(w.Keys, Range(0, n));
      forall k: nat | k < n ensures k in w { assert Within(0, k, n); }
    } else if forall k: nat :: k < n ==> k in w {
      forall k | k in Range(0, n) ensures k in w.Keys { assert Within(0, k, n); }
      Cardinality(Range(0, n), w.Keys);
    }
  }

  /** How often this happens: any parts, copies included, complete with a hole exactly when the last
      part came, and less of the message is covered than its size, but no less was received. */
  lemma CompleteWithHole(ps: seq<Piece>, msg: seq<byte>)
    requires 0 < |msg| <= 0x1_0000 && forall p :: p in ps ==> IsPart(p, msg)
    ensures var a := Feed(ps);
            Complete(a) && (exists k :: 0 <= k < |msg| && k !in a.written) <==>
            (exists p :: p in ps && p.last) && |a.written| < |msg| <= Volume(ps)
  {
    FeedHolds(ps, msg);
    FillsRange(Feed(ps).written, |msg|);
  }

  // ----- one slot on its own -----

  /** One packet for one fragment id, seen without the table. */
  function Step(o: Option<Asm>, p: Piece): (Option<Asm>, Option<Asm>)
  {
    var a := AddPiece(if o.Some? then o.value else EMPTY, p);
    if Complete(a) then (None, Some(a)) else (Some(a), None)
  }

  /** The answers one id gets for its packets. */
  function Alone(o: Option<Asm>, ps: seq<Piece>): (outs: seq<Option<Asm>>)
    ensures |outs| == |ps|
    decreases |ps|
  {
    if ps == [] then [] else var r := Step(o, ps[0]); [r.1] + Alone(r.0, ps[1..])
  }

  /** The slot after the first `n` packets, as long as they do not complete. */
  function After(order: seq<Piece>, n: nat): Option<Asm>
    requires n <= |order|
  {
    if n == 0 then None else Some(Feed(order[..n]))
  }

  lemma StepAfter(order: seq<Piece>, n: nat)
    requires n < |order|
    ensures var a := Feed(order[..n + 1]);
            Step(After(order, n), order[n]) == if Complete(a) then (None, Some(a)) else (After(order, n + 1), None)
  {
    assert order[..n + 1][..n] == order[..n];
    assert Feed(order[..n + 1]) == AddPiece(Feed(order[..n]), order[n]);
  }

  lemma {:induction false} AloneUntilComplete(order: seq<Piece>, n: nat)
    requires n < |order|
    requires forall i :: n < i < |order| ==> !Complete(Feed(order[..i]))
    requires Complete(Feed(order))
    ensures AtLast(Alone(After(order, n), order[n..]), Feed(order))
    decreases |order| - n
  {
    StepAfter(order, n);
    assert order[n..][1..] == order[n + 1..];
    if n + 1 == |order| {
      assert order[..n + 1] == order;
      assert Alone(None, order[n + 1..]) == [];
    } else {
      AloneUntilComplete(order, n + 1);
      AtLastCons(Alone(After(order, n + 1), order[n + 1..]), Feed(order));
    }
  }

  /** The only answer is the last one. */
  ghost predicate AtLast(outs: seq<Option<Asm>>, a: Asm)
  {
    && outs != [] && outs[|outs| - 1] == Some(a)
    && forall i :: 0 <= i < |outs| - 1 ==> outs[i] == None
  }

  lemma AtLastCons(outs: seq<Option<Asm>>, a: Asm)
    requires AtLast(outs, a)
    ensures AtLast([None] + outs, a)
  {
  }

  // ----- any order -----

  ghost predicate Distinct<T>(s: seq<T>) { forall i, j :: 0 <= i < j < |s| ==> s[i] != s[j] }

  lemma {:induction false} DistinctCounts<T>(s: seq<T>, x: T)
    requires Distinct(s)
    ensures multiset(s)[x] <= 1
  {
    if s != [] {
      var front := s[..|s| - 1];
      assert s == front + [s[|s| - 1]];
      DistinctCounts(front, x);
      assert x in multiset(front) ==> x in front;
    }
  }

  lemma {:induction false} PermutationDistinct<T>(a: seq<T>, b: seq<T>)
    requires Distinct(a) && multiset(a) == multiset(b)
    ensures Distinct(b) && |a| == |b| && forall x :: x in a <==> x in b
  {
    assert |multiset(a)| == |a| && |multiset(b)| == |b|;
    forall x ensures x in a <==> x in b {
      assert x in a <==> x in multiset(a);
      assert x in b <==> x in multiset(b);
    }
    forall i, j | 0 <= i < j < |b| ensures b[i] != b[j] {
      DistinctCounts(a, b[i]);
      assert b == b[..j] + [b[j]] + b[j + 1..];
      assert b[i] in b[..j];
    }
  }

  ghost predicate PartsInTurn(ps: seq<Piece>, msg: seq<byte>, at: nat)
  {
    && ps != [] && ps[0].off == at && IsPart(ps[0], msg)
    && if |ps| == 1 then ps[0].End() == |msg| else PartsInTurn(ps[1..], msg, ps[0].End())
  }

  lemma {:induction false} PartsInTurnHold(ps: seq<Piece>, msg: seq<byte>, at: nat)
    requires PartsInTurn(ps, msg, at)
    ensures forall p :: p in ps ==> IsPart(p, msg) && at <= p.off
    ensures PairwiseApart(ps) && Distinct(ps)
    ensures forall k :: at <= k < |msg| ==> Covered(ps, k)
  {
    if |ps| > 1 {
      var end := ps[0].End();
      PartsInTurnHold(ps[1..], msg, end);
      forall p | p in ps ensures IsPart(p, msg) && at <= p.off {
        assert p == ps[0] || p in ps[1..];
      }
      forall i, j | 0 <= i < j < |ps| ensures Apart(ps[i], ps[j]) && ps[i] != ps[j] {
        assert ps[j] == ps[1..][j - 1];
        if i == 0 { assert ps[j] in ps[1..]; } else { assert ps[i] == ps[1..][i - 1]; }
      }
      forall k | at <= k < |msg| ensures Covered(ps, k) {
        if k < end { assert ps[0].Covers(k); } else {
          assert Covered(ps[1..], k);
          var p :| p in ps[1..] && p.Covers(k);
          assert p in ps;
        }
      }
    } else {
      forall k | at <= k < |msg| ensures Covered(ps, k) { assert ps[0].Covers(k) && ps[0] in ps; }
    }
  }

  /** An answer that carries `msg`. */
  ghost predicate Carries(o: Option<Asm>, msg: seq<byte>)
  {
    && o.Some? && o.value.needed == |msg|
    && o.value.written.Keys == Range(0, |msg|)
    && forall k :: 0 <= k < |msg| ==> k in o.value.written && o.value.written[k] == msg[k]
  }

  /** Any permutation of the parts: nothing until the last one to arrive, then the message. */
  lemma AnyOrder(ps: seq<Piece>, order: seq<Piece>, msg: seq<byte>)
    requires 0 < |msg| <= 0x1_0000
    requires PartsInTurn(ps, msg, 0) && multiset(order) == multiset(ps)
    ensures |order| == |ps|
    ensures var outs := Alone(None, order);
            && (forall i :: 0 <= i < |order| - 1 ==> outs[i] == None)
            && Carries(outs[|order| - 1], msg)
  {
    PermutedApart(ps, order, msg);
    forall n | 0 < n < |order| ensures !Complete(Feed(order[..n])) {
      PrefixMissesNext(order, n, msg);
    }
    WholeOrder(ps, order, msg);
    assert order[0..] == order;
    AloneUntilComplete(order, 0);
  }

  lemma {:induction false} AlonePrefix(o: Option<Asm>, a: seq<Piece>, b: seq<Piece>)
    ensures Alone(o, a + b)[..|a|] == Alone(o, a)
    decreases |a|
  {
    if a != [] {
      assert (a + b)[1..] == a[1..] + b;
      AlonePrefix(Step(o, a[0]).0, a[1..], b);
    }
  }

  /** Any stream of parts, with copies and gaps: the first answer comes with the first packets that
      complete. It does not carry the message exactly when these packets leave a byte uncovered, that
      is when their copies made up for bytes that were missing. */
  lemma FirstAnswer(order: seq<Piece>, n: nat, msg: seq<byte>)
    requires 0 < |msg| <= 0x1_0000 && forall p :: p in order ==> IsPart(p, msg)
    requires 0 < n <= |order| && Complete(Feed(order[..n]))
    requires forall i :: 0 < i < n ==> !Complete(Feed(order[..i]))
    ensures AtLast(Alone(None, order)[..n], Feed(order[..n]))
    ensures var missed := exists k :: 0 <= k < |msg| && !Covered(order[..n], k);
            && (!Carries(Alone(None, order)[n - 1], msg) <==> missed)
            && (missed <==> |Feed(order[..n]).written| < |msg| <= Volume(order[..n]))
  {
    AnswersFeed(order, n);
    FeedHolds(order[..n], msg);
    CompleteWithHole(order[..n], msg);
    HoleIsNoMessage(order[..n], msg);
  }

  lemma {:induction false} AnswersFeed(order: seq<Piece>, n: nat)
    requires 0 < n <= |order| && Complete(Feed(order[..n]))
    requires forall i :: 0 < i < n ==> !Complete(Feed(order[..i]))
    ensures AtLast(Alone(None, order)[..n], Feed(order[..n]))
    ensures Alone(None, order)[n - 1] == Some(Feed(order[..n]))
  {
    var got := order[..n];
    forall i | 0 < i < |got| ensures !Complete(Feed(got[..i])) {
      assert got[..i] == order[..i];
    }
    assert got[0..] == got;
    AloneUntilComplete(got, 0);
    assert order == got + order[n..];
    AlonePrefix(None, got, order[n..]);
    assert Alone(None, order)[n - 1] == Alone(None, order)[..n][n - 1];
  }

  lemma HoleIsNoMessage(got: seq<Piece>, msg: seq<byte>)
    requires 0 < |msg| <= 0x1_0000 && (forall p :: p in got ==> IsPart(p, msg)) && Complete(Feed(got))
    ensures !Carries(Some(Feed(got)), msg) <==> exists k: nat :: k < |msg| && k !in Feed(got).written
    ensures !Carries(Some(Feed(got)), msg) <==> exists k :: 0 <= k < |msg| && !Covered(got, k)
  {
    FeedHolds(got, msg);
    FillsRange(Feed(got).written, |msg|);
  }

  lemma PermutedApart(ps: seq<Piece>, order: seq<Piece>, msg: seq<byte>)
    requires PartsInTurn(ps, msg, 0) && multiset(order) == multiset(ps)
    ensures |order| == |ps| && (forall p :: p in ps <==> p in order)
    ensures (forall p :: p in order ==> IsPart(p, msg)) && PairwiseApart(order)
  {
    PartsInTurnHold(ps, msg, 0);
    PermutationDistinct(ps, order);
    forall i, j | 0 <= i < j < |order| ensures Apart(order[i], order[j]) {
      assert order[i] in ps && order[j] in ps && order[i] != order[j];
      var i', j' :| 0 <= i' < |ps| && 0 <= j' < |ps| && ps[i'] == order[i] && ps[j'] == order[j];
      assert if i' < j' then Apart(ps[i'], ps[j']) else Apart(ps[j'], ps[i']);
    }
  }

  lemma WholeOrder(ps: seq<Piece>, order: seq<Piece>, msg: seq<byte>)
    requires 0 < |msg| <= 0x1_0000
    requires PartsInTurn(ps, msg, 0) && multiset(order) == multiset(ps)
    ensures Complete(Feed(order)) && Carries(Some(Feed(order)), msg)
  {
    PermutedApart(ps, order, msg);
    PartsInTurnHold(ps, msg, 0);
    FeedHolds(order, msg);
    var a := Feed(order);
    forall k | 0 <= k < |msg| ensures k in a.written {
      assert Covered(ps, k);
      var p :| p in ps && p.Covers(k);
      assert p in order && Covered(order, k);
    }
    CompleteExactlyWhenCovered(order, msg);
    forall k ensures k in a.written <==> k in Range(0, |msg|) {
      if k in a.written { assert Within(0, k, |msg|); }
    }
  }

  lemma PrefixMissesNext(order: seq<Piece>, n: nat, msg: seq<byte>)
    requires 0 < |msg| <= 0x1_0000 && (forall p :: p in order ==> IsPart(p, msg)) && PairwiseApart(order)
    requires n < |order|
    ensures !Complete(Feed(order[..n]))
  {
    var w := order[..n];
    assert forall p :: p in w ==> p in order;
    assert order[n] in order;
    FeedHolds(w, msg);
    CompleteExactlyWhenCovered(w, msg);
    var k := order[n].off;
    forall p | p in w ensures !p.Covers(k) {
      var i :| 0 <= i < n && order[i] == p;
      assert Apart(order[i], order[n]);
    }
    assert !Covered(w, k);
  }

  // ----- the table serves each id as if it were alone -----

  datatype Arrival = Arrival(now: int, pkt: Packet)

  function Run(s: seq<Slot>, tr: seq<Arrival>): (r: (seq<Slot>, seq<Option<Asm>>))
    ensures |r.0| == |s| && |r.1| == |tr|
    decreases |tr|
  {
    if tr == [] then (s, [])
    else
      var a := Add(s, tr[0].now, tr[0].pkt);
      var rest := Run(a.0, tr[1..]);
      (rest.0, [a.1] + rest.1)
  }

  ghost predicate DistinctIds(s: seq<Slot>)
  {
    forall i, j :: 0 <= i < j < |s| && s[i].Live? && s[j].Live? ==> s[i].fragid != s[j].fragid
  }

  /** What the table holds for one id. */
  function Held(s: seq<Slot>, id: int): Option<Asm>
  {
    var i := Find(s, id);
    if i < 0 then None else Some(s[i].asm)
  }

  /** The table has no room for the packet: its id is new, and every slot is in use and young enough. */
  ghost predicate Refuses(s: seq<Slot>, now: int, p: Packet)
  {
    Find(s, p.FragId()) < 0 && forall i :: 0 <= i < |s| ==> s[i].Live? && now - s[i].t <= FRAG_TTL
  }

  /** The packet of a new id takes the slot of `id`, which is the first one that is free or too old. */
  ghost predicate Evicts(s: seq<Slot>, now: int, p: Packet, id: int)
  {
    var k := Find(s, id);
    && k >= 0 && id != p.FragId() && Find(s, p.FragId()) < 0 && now - s[k].t > FRAG_TTL
    && forall i :: 0 <= i < k ==> s[i].Live? && now - s[i].t <= FRAG_TTL
  }

  /** When the reassembly of an id began. */
  function Began(s: seq<Slot>, id: int): Option<int>
  {
    var i := Find(s, id);
    if i < 0 then None else Some(s[i].t)
  }

  lemma HeldBySlot(s: seq<Slot>, id: int)
    requires DistinctIds(s)
    ensures forall i :: 0 <= i < |s| && s[i].Live? && s[i].fragid == id ==> Find(s, id) == i
  {
  }

  /** What one packet does to the table. It is refused exactly when its id is new and every slot is in use
      and young; else it counts for its own id as if the id were alone, one that is new beginning now. The
      other ids keep what they have, and their age, but one whose slot is the first one that can be taken. */
  lemma AddExactly(s: seq<Slot>, now: int, p: Packet)
    requires DistinctIds(s)
    ensures Target(s, now, p) < 0 <==> Refuses(s, now, p)
    ensures Refuses(s, now, p) ==> Add(s, now, p) == (s, None)
    ensures var (r, out) := Add(s, now, p);
            var id := p.FragId();
            !Refuses(s, now, p) ==>
              && (Held(r, id), out) == Step(Held(s, id), p.AsPiece())
              && (Held(r, id).Some? ==> Began(r, id) == Some(if Held(s, id).Some? then Began(s, id).value else now))
    ensures forall id :: id != p.FragId() ==>
              var r := Add(s, now, p).0;
              && Held(r, id) == (if Evicts(s, now, p, id) then None else Held(s, id))
              && Began(r, id) == (if Evicts(s, now, p, id) then None else Began(s, id))
  {
    var i, id := Target(s, now, p), p.FragId();
    if i >= 0 {
      TargetServes(s, now, p);
      forall x | x != id
        ensures var r := Add(s, now, p).0;
                && Held(r, x) == (if Evicts(s, now, p, x) then None else Held(s, x))
                && Began(r, x) == (if Evicts(s, now, p, x) then None else Began(s, x))
      {
        OtherKept(s, now, p, x);
      }
    }
  }

  lemma AddTouchesTarget(s: seq<Slot>, now: int, p: Packet)
    requires DistinctIds(s)
    ensures var r, i := Add(s, now, p).0, Target(s, now, p);
            && DistinctIds(r) && (forall j :: 0 <= j < |s| && j != i ==> r[j] == s[j])
            && (i >= 0 && r[i].Live? ==> r[i].fragid == p.FragId())
  {
  }

  lemma TargetServes(s: seq<Slot>, now: int, p: Packet)
    requires DistinctIds(s) && Target(s, now, p) >= 0
    ensures var (r, out) := Add(s, now, p);
            var id := p.FragId();
            && (Held(r, id), out) == Step(Held(s, id), p.AsPiece())
            && (Held(r, id).Some? ==> Began(r, id) == Some(if Held(s, id).Some? then Began(s, id).value else now))
  {
    var r, i, id := Add(s, now, p).0, Target(s, now, p), p.FragId();
    AddTouchesTarget(s, now, p);
    assert forall j :: 0 <= j < |s| && j != i ==> r[j] == s[j] && !(r[j].Live? && r[j].fragid == id);
    HeldBySlot(r, id);
    assert r[i].Live? ==> Find(r, id) == i;
    assert r[i].Free? ==> Find(r, id) < 0;
  }

  lemma OtherKept(s: seq<Slot>, now: int, p: Packet, id: int)
    requires DistinctIds(s) && Target(s, now, p) >= 0 && id != p.FragId()
    ensures var r := Add(s, now, p).0;
            && Held(r, id) == (if Evicts(s, now, p, id) then None else Held(s, id))
            && Began(r, id) == (if Evicts(s, now, p, id) then None else Began(s, id))
  {
    AddTouchesTarget(s, now, p);
    HeldBySlot(s, id);
    HeldBySlot(Add(s, now, p).0, id);
  }

  /** Live slots keep distinct ids whatever arrives, expiry and a full table included. */
  lemma AddKeepsDistinctIds(s: seq<Slot>, now: int, p: Packet)
    requires DistinctIds(s)
    ensures DistinctIds(Add(s, now, p).0)
    ensures forall id :: id != p.FragId() ==>
      || Held(Add(s, now, p).0, id) == Held(s, id)
      || (Held(Add(s, now, p).0, id) == None && Find(s, id) >= 0 && now - s[Find(s, id)].t > FRAG_TTL)
  {
    AddTouchesTarget(s, now, p);
    AddExactly(s, now, p);
  }

  /** Every table that packets can lead to has distinct ids. */
  lemma {:induction false} ReachableDistinctIds(s: seq<Slot>, tr: seq<Arrival>)
    requires DistinctIds(s)
    ensures DistinctIds(Run(s, tr).0)
    decreases |tr|
  {
    if tr != [] {
      AddKeepsDistinctIds(s, tr[0].now, tr[0].pkt);
      ReachableDistinctIds(Add(s, tr[0].now, tr[0].pkt).0, tr[1..]);
    }
  }

  /** During the run no packet of `id` is refused, and its slot is never taken. */
  ghost predicate Served(s: seq<Slot>, tr: seq<Arrival>, id: int)
    decreases |tr|
  {
    tr == [] ||
    var now, p := tr[0].now, tr[0].pkt;
    && (if p.FragId() == id then !Refuses(s, now, p) else !Evicts(s, now, p, id))
    && Served(Add(s, now, p).0, tr[1..], id)
  }

  function Mine(tr: seq<Arrival>, id: int): seq<Piece>
  {
    if tr == [] then []
    else (if tr[0].pkt.FragId() == id then [tr[0].pkt.AsPiece()] else []) + Mine(tr[1..], id)
  }

  function MyAnswers(tr: seq<Arrival>, outs: seq<Option<Asm>>, id: int): seq<Option<Asm>>
    requires |tr| == |outs|
  {
    if tr == [] then []
    else (if tr[0].pkt.FragId() == id then [outs[0]] else []) + MyAnswers(tr[1..], outs[1..], id)
  }

  /** Interleaving does not matter: where an id is served, the answers to its packets are those it would
      get with a slot of its own, whatever becomes of the others. */
  lemma {:induction false} Interleaved(s: seq<Slot>, tr: seq<Arrival>, id: int)
    requires DistinctIds(s) && Served(s, tr, id)
    ensures MyAnswers(tr, Run(s, tr).1, id) == Alone(Held(s, id), Mine(tr, id))
    decreases |tr|
  {
    if tr != [] {
      var now, p := tr[0].now, tr[0].pkt;
      AddExactly(s, now, p);
      AddTouchesTarget(s, now, p);
      var s' := Add(s, now, p).0;
      Interleaved(s', tr[1..], id);
      assert Run(s, tr).1[1..] == Run(s', tr[1..]).1;
      assert Run(s, tr).1[0] == Add(s, now, p).1;
      if p.FragId() == id {
        assert Mine(tr, id) == [p.AsPiece()] + Mine(tr[1..], id);
        assert Mine(tr, id)[1..] == Mine(tr[1..], id);
        assert Step(Held(s, id), p.AsPiece()) == (Held(s', id), Add(s, now, p).1);
      } else {
        assert Mine(tr, id) == Mine(tr[1..], id);
      }
    }
  }

  /** Every slot is free, or of one of these ids since `t0` at most, or of none of them and too old. */
  ghost predicate Stocked(s: seq<Slot>, ids: set<int>, t0: int)
  {
    forall i :: 0 <= i < |s| && s[i].Live? ==>
      if s[i].fragid in ids then t0 <= s[i].t else t0 - s[i].t > FRAG_TTL
  }

  /** Up to FRAG_MAXIDS ids within FRAG_TTL seconds are all served, be the table full of older ones. */
  lemma {:induction false} FewIdsAreServed(s: seq<Slot>, tr: seq<Arrival>, ids: set<int>, t0: int, id: int)
    requires |s| == FRAG_MAXIDS && DistinctIds(s) && |ids| <= FRAG_MAXIDS && id in ids && Stocked(s, ids, t0)
    requires forall a :: a in tr ==> a.pkt.FragId() in ids && t0 <= a.now <= t0 + FRAG_TTL
    ensures Served(s, tr, id)
    decreases |tr|
  {
    if tr != [] {
      var now, p := tr[0].now, tr[0].pkt;
      assert tr[0] in tr;
      if Find(s, p.FragId()) < 0 {
        SlotLeft(s, ids, t0, p.FragId());
      }
      AddTouchesTarget(s, now, p);
      StaysStocked(s, now, p, ids, t0);
      FewIdsAreServed(Add(s, now, p).0, tr[1..], ids, t0, id);
    }
  }

  lemma StaysStocked(s: seq<Slot>, now: int, p: Packet, ids: set<int>, t0: int)
    requires DistinctIds(s) && Stocked(s, ids, t0) && p.FragId() in ids && t0 <= now
    ensures Stocked(Add(s, now, p).0, ids, t0)
  {
    AddTouchesTarget(s, now, p);
  }

  lemma SlotLeft(s: seq<Slot>, ids: set<int>, t0: int, id: int)
    requires |ids| <= |s| && DistinctIds(s) && id in ids && Find(s, id) < 0 && Stocked(s, ids, t0)
    ensures exists i :: 0 <= i < |s| && (s[i].Free? || t0 - s[i].t > FRAG_TTL)
  {
    if forall i :: 0 <= i < |s| ==> s[i].Live? && s[i].fragid in ids {
      LiveIdCount(s);
      var live := set i | 0 <= i < |s| :: s[i].fragid;
      assert live + {id} <= ids && id !in live;
      Cardinality(live + {id}, ids);
    }
  }

  lemma {:induction false} Cardinality<T>(a: set<T>, b: set<T>)
    requires a <= b
    ensures |a| <= |b|
  {
    assert b == a + (b - a);
  }

  lemma {:induction false} LiveIdCount(s: seq<Slot>)
    requires DistinctIds(s) && forall i :: 0 <= i < |s| ==> s[i].Live?
    ensures |set i | 0 <= i < |s| :: s[i].fragid| == |s|
  {
    var ids := set i | 0 <= i < |s| :: s[i].fragid;
    if s != [] {
      var front := s[..|s| - 1];
      LiveIdCount(front);
      var less := set i | 0 <= i < |front| :: front[i].fragid;
      assert ids == less + {s[|s| - 1].fragid};
    }
  }

  // ----- from one end to the other -----

  function Pieces(ps: seq<Packet>): (r: seq<Piece>)
    ensures |r| == |ps| && forall i :: 0 <= i < |ps| ==> r[i] == ps[i].AsPiece()
  {
    seq(|ps|, i requires 0 <= i < |ps| => ps[i].AsPiece())
  }

  lemma {:induction false} TilesAreParts(ps: seq<Packet>, msg: seq<byte>, at: nat)
    requires TilesFrom(ps, msg, at)
    requires forall i :: 0 <= i < |ps| ==> ps[i].flagL == (i == |ps| - 1)
    ensures PartsInTurn(Pieces(ps), msg, at)
  {
    if |ps| > 1 {
      TilesAreParts(ps[1..], msg, ps[0].AsPiece().End());
      assert Pieces(ps)[1..] == Pieces(ps[1..]);
      assert ps[0].AsPiece().End() < |msg| by { NextStartsInside(ps[1..], msg, ps[0].AsPiece().End()); }
    }
  }

  lemma NextStartsInside(ps: seq<Packet>, msg: seq<byte>, at: nat)
    requires TilesFrom(ps, msg, at)
    ensures at < |msg|
  {
  }

  /** The whole way: cut a message that needs fragments, deliver its packets in any order, mixed
      with any packets of other ids, to a table that serves its id. The last of its packets to arrive is
      answered with exactly the message, all earlier ones with nothing. */
  lemma MessageSurvives(msg: seq<byte>, fragid: word, mtu: nat, hlen: nat, s: seq<Slot>, tr: seq<Arrival>)
    requires 0 < |msg| <= 0x1_0000 && 8 <= hlen < Align(mtu) && 8 < Align(mtu)
    requires Aligned(|msg|, mtu, hlen) && |msg| + hlen > Align(mtu)
    requires DistinctIds(s) && Served(s, tr, fragid) && Find(s, fragid) < 0
    requires multiset(Mine(tr, fragid)) == multiset(Pieces(Packets(msg, fragid, mtu, hlen)))
    ensures var outs := MyAnswers(tr, Run(s, tr).1, fragid);
            && |outs| == |Packets(msg, fragid, mtu, hlen)|
            && (forall i :: 0 <= i < |outs| - 1 ==> outs[i] == None)
            && Carries(outs[|outs| - 1], msg)
  {
    var ps := Packets(msg, fragid, mtu, hlen);
    PacketsTileExactlyWhenAligned(msg, fragid, mtu, hlen);
    TilesAreParts(ps, msg, 0);
    AnyOrder(Pieces(ps), Mine(tr, fragid), msg);
    Interleaved(s, tr, fragid);
  }

  /** In particular a message that arrives at a table full of slots that are too old: with nothing older
      left of its own id, up to nine other ids at the same time, and all of it within FRAG_TTL. */
  lemma OldSlotsMakeRoom(msg: seq<byte>, fragid: word, mtu: nat, hlen: nat, s: seq<Slot>, tr: seq<Arrival>,
                         others: set<int>, t0: int)
    requires 0 < |msg| <= 0x1_0000 && 8 <= hlen < Align(mtu) && 8 < Align(mtu)
    requires Aligned(|msg|, mtu, hlen) && |msg| + hlen > Align(mtu)
    requires |s| == FRAG_MAXIDS && DistinctIds(s) && |others| < FRAG_MAXIDS
    requires forall i :: 0 <= i < |s| ==>
             s[i].Live? && t0 - s[i].t > FRAG_TTL && s[i].fragid != fragid && s[i].fragid !in others
    requires forall a :: a in tr ==>
             (a.pkt.FragId() == fragid || a.pkt.FragId() in others) && t0 <= a.now <= t0 + FRAG_TTL
    requires multiset(Mine(tr, fragid)) == multiset(Pieces(Packets(msg, fragid, mtu, hlen)))
    ensures var outs := MyAnswers(tr, Run(s, tr).1, fragid);
            && |outs| == |Packets(msg, fragid, mtu, hlen)|
            && (forall i :: 0 <= i < |outs| - 1 ==> outs[i] == None)
            && Carries(outs[|outs| - 1], msg)
  {
    FewIdsAreServed(s, tr, others + {fragid}, t0, fragid);
    MessageSurvives(msg, fragid, mtu, hlen, s, tr);
  }

  /** But the age of a slot is not looked at when its own id comes again: the first part of one message,
      left unfinished, and the rest of another one of the same size and id, however much later, make up an
      answer that carries neither. */
  lemma HalvesMix(a: seq<byte>, b: seq<byte>, n: nat, s: seq<Slot>, now: int, p: Packet)
    requires 0 < n < |a| == |b| <= 0x1_0000 && DistinctIds(s)
    requires Held(s, p.FragId()) == Some(Feed([Piece(0, a[..n], false)])) && p.AsPiece() == Piece(n, b[n..], true)
    ensures Carries(Add(s, now, p).1, a[..n] + b[n..])
  {
    var msg := a[..n] + b[n..];
    var first, last := Piece(0, a[..n], false), Piece(n, b[n..], true);
    var ps := [first, last];
    assert first.data == msg[..n] && last.data == msg[n..] && ps[1..] == [last] && ps[..1] == [first];
    assert PartsInTurn([last], msg, n);
    assert PartsInTurn(ps, msg, 0);
    WholeOrder(ps, ps, msg);
    assert Feed(ps) == AddPiece(Feed([first]), last);
    AddExactly(s, now, p);
  }

  // ----- fragments too large for the buffer -----

  /** A fragment that ends behind the buffer is neither copied nor counted; but if it is the last one, the
      message is then waited for in its full size, which no fragments that fit can cover. */
  lemma OversizedNeverFits(a: Asm, p: Piece, ps: seq<Piece>)
    requires p.End() >= FRAG_MAXSIZE && forall q :: q in ps ==> q.End() < FRAG_MAXSIZE && !q.last
    requires forall k :: k in a.written ==> k < FRAG_MAXSIZE
    ensures AddPiece(a, p).written == a.written && AddPiece(a, p).received == a.received
    ensures AddPiece(a, p).needed == if p.last then p.End() else a.needed
    ensures var b := AddAll(AddPiece(a, p), ps);
            && b.needed == AddPiece(a, p).needed && b.received == a.received + Volume(ps)
            && forall k :: k in b.written ==> k < FRAG_MAXSIZE
  {
    AddAllSmall(AddPiece(a, p), ps);
  }

  function AddAll(a: Asm, ps: seq<Piece>): Asm
  {
    if ps == [] then a else AddPiece(AddAll(a, ps[..|ps| - 1]), ps[|ps| - 1])
  }

  lemma {:induction false} AddAllSmall(a: Asm, ps: seq<Piece>)
    requires forall q :: q in ps ==> q.End() < FRAG_MAXSIZE && !q.last
    requires forall k :: k in a.written ==> k < FRAG_MAXSIZE
    ensures var b := AddAll(a, ps);
            && b.needed == a.needed && b.received == a.received + Volume(ps)
            && forall k :: k in b.written ==> k < FRAG_MAXSIZE
  {
    if ps != [] {
      var front := ps[..|ps| - 1];
      assert ps[|ps| - 1] in ps && forall q :: q in front ==> q in ps;
      AddAllSmall(a, front);
      VolumeNext(front, ps[|ps| - 1]);
      assert ps == front + [ps[|ps| - 1]];
    }
  }
}
