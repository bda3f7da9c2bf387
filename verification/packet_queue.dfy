/**
 The packet queue of a connection: a ring with one writer and one reader, and a reader that hands
 out packets in pieces. Adding and getting are atomic steps here.
 */
module PacketQueue {
  import opened Prelude

  type Packet = seq<byte>

  /** The ring: `qrpos` is the slot read last, -1 at first; `qwpos` the slot to be written next,
      where the size of the ring stands for 0; `sem` the count of the semaphore. */
  datatype Ring = Ring(q: seq<Packet>, qrpos: int, qwpos: nat, sem: nat)

  function WritePos(s: Ring): nat { if s.qwpos == |s.q| then 0 else s.qwpos }

  /** The full test of conn_q_add_packet. */
  predicate Refuses(s: Ring) { s.qrpos == WritePos(s) }

  /** conn_q_add_packet */
  function Add(s: Ring, p: Packet): Ring
    requires WritePos(s) < |s.q|
  {
    var w := WritePos(s);
    if Refuses(s) then s else Ring(s.q[w := p], s.qrpos, w + 1, s.sem + 1)
  }

  function NextRead(s: Ring): int { if s.qrpos + 1 == |s.q| then 0 else s.qrpos + 1 }

  /** conn_q_get_packet; without a packet the wait for the semaphore times out. */
  function Get(s: Ring): (Ring, Option<Packet>)
    requires s.sem > 0 ==> 0 <= NextRead(s) < |s.q|
  {
    if s.sem == 0 then (s, None) else (s.(qrpos := NextRead(s), sem := s.sem - 1), Some(s.q[NextRead(s)]))
  }

  // ----- the ring is a FIFO queue -----

  /** Slot of the j-th queued packet. */
  function SlotOf(s: Ring, j: nat): int { if s.qrpos + 1 + j < |s.q| then s.qrpos + 1 + j else s.qrpos + 1 + j - |s.q| }

  /** The ring holds `items`, oldest first. Until the first get all slots can be in use, from then
      on all but the one read last. */
  ghost predicate Holds(s: Ring, items: seq<Packet>)
  {
    && |s.q| > 0 && -1 <= s.qrpos < |s.q| && s.qwpos <= |s.q|
    && s.sem == |items| && |items| <= (if s.qrpos < 0 then |s.q| else |s.q| - 1)
    && (if s.qrpos < 0 then s.qwpos == |items| else WritePos(s) == SlotOf(s, |items|))
    && forall j :: 0 <= j < |items| ==> s.q[SlotOf(s, j)] == items[j]
  }

  /** All slots filled before anything was read. */
  predicate Unread(s: Ring) { s.qrpos < 0 && s.sem == |s.q| }

  /** Adding queues the packet, or refuses it when all slots but the one read last are in use; this
      fails exactly when all slots were filled before the first get. */
  lemma AddIsFifo(s: Ring, items: seq<Packet>, p: Packet)
    requires Holds(s, items)
    ensures Refuses(s) <==> s.qrpos >= 0 && |items| == |s.q| - 1
    ensures Holds(Add(s, p), if Refuses(s) then items else items + [p]) <==> !Unread(s)
  {
    var w := WritePos(s);
    if !Refuses(s) && !Unread(s) {
      var r, more := Add(s, p), items + [p];
      forall j | 0 <= j < |more| ensures r.q[SlotOf(r, j)] == more[j] {
        assert SlotOf(r, j) == SlotOf(s, j);
        if j < |items| { assert SlotOf(s, j) != w; }
      }
    }
  }

  /** What happens instead: the packet overwrites the oldest one, and is delivered in its place. */
  lemma OverflowOverwrites(s: Ring, items: seq<Packet>, p: Packet)
    requires Holds(s, items) && Unread(s)
    ensures Get(Add(s, p)).1 == Some(p) && Add(s, p).sem == |s.q| + 1
  {
  }

  lemma GetIsFifo(s: Ring, items: seq<Packet>)
    requires Holds(s, items)
    ensures if items == [] then Get(s) == (s, None)
            else Get(s).1 == Some(items[0]) && Holds(Get(s).0, items[1..])
  {
    if items != [] {
      var r := Get(s).0;
      assert NextRead(s) == SlotOf(s, 0);
      forall j | 0 <= j < |items| - 1 ensures r.q[SlotOf(r, j)] == items[1..][j] {
        assert SlotOf(r, j) == SlotOf(s, j + 1);
      }
    }
  }

  // ----- runs -----

  datatype Op = OpAdd(p: Packet) | OpGet

  /** The ring after a run, the packets it accepted and those it delivered. */
  function Run(s: Ring, ops: seq<Op>): (Ring, seq<Packet>, seq<Packet>)
    decreases |ops|
  {
    if ops == [] then (s, [], [])
    else match ops[0]
      case OpAdd(p) =>
        if WritePos(s) >= |s.q| then (s, [], [])
        else var r := Run(Add(s, p), ops[1..]); (r.0, (if Refuses(s) then [] else [p]) + r.1, r.2)
      case OpGet =>
        if s.sem > 0 && !(0 <= NextRead(s) < |s.q|) then (s, [], [])
        else
          var g := Get(s);
          var r := Run(g.0, ops[1..]);
          (r.0, r.1, (if g.1.Some? then [g.1.value] else []) + r.2)
  }

  /** How many packets are added until a get finds one. */
  function Burst(ops: seq<Op>, n: nat): nat
    decreases |ops|
  {
    if ops == [] then n
    else match ops[0]
      case OpAdd(_) => Burst(ops[1..], n + 1)
      case OpGet => if n > 0 then n else Burst(ops[1..], n)
  }

  lemma {:induction false} BurstGrows(ops: seq<Op>, n: nat)
    ensures Burst(ops, n) >= n
    decreases |ops|
  {
    if ops != [] {
      match ops[0]
      case OpAdd(_) => BurstGrows(ops[1..], n + 1);
      case OpGet => BurstGrows(ops[1..], n);
    }
  }

  /** `left` is still queued after a run, and together with what was delivered makes up `all`. */
  ghost predicate Keeps(r: (Ring, seq<Packet>, seq<Packet>), items: seq<Packet>, left: seq<Packet>)
  {
    Holds(r.0, left) && r.2 + left == items + r.1
  }

  lemma KeepsAdded(s: Ring, items: seq<Packet>, ops: seq<Op>, p: Packet, left: seq<Packet>)
    requires Holds(s, items) && !Unread(s) && ops != [] && ops[0] == OpAdd(p)
    requires Keeps(Run(Add(s, p), ops[1..]), if Refuses(s) then items else items + [p], left)
    ensures Keeps(Run(s, ops), items, left)
  {
    var r := Run(Add(s, p), ops[1..]);
    assert items + ([p] + r.1) == items + [p] + r.1;
    assert [] + r.1 == r.1;
  }

  lemma BehindOne(x: Packet, a: seq<Packet>, b: seq<Packet>, c: seq<Packet>, d: seq<Packet>)
    requires a + b == c + d
    ensures [x] + a + b == [x] + c + d
  {
    assert [x] + a + b == [x] + (a + b);
    assert [x] + c + d == [x] + (c + d);
  }

  lemma GetRuns(s: Ring, items: seq<Packet>, ops: seq<Op>)
    requires Holds(s, items) && ops != [] && ops[0] == OpGet
    ensures var r := Run(Get(s).0, ops[1..]);
            Run(s, ops) == (r.0, r.1, if items == [] then r.2 else [items[0]] + r.2)
  {
    GetIsFifo(s, items);
    var r := Run(Get(s).0, ops[1..]);
    assert [] + r.2 == r.2;
  }

  lemma KeepsGot(s: Ring, items: seq<Packet>, ops: seq<Op>, left: seq<Packet>)
    requires Holds(s, items) && ops != [] && ops[0] == OpGet
    requires Keeps(Run(Get(s).0, ops[1..]), if items == [] then [] else items[1..], left)
    ensures Keeps(Run(s, ops), items, left)
  {
    GetRuns(s, items, ops);
    var r := Run(Get(s).0, ops[1..]);
    if items != [] {
      BehindOne(items[0], r.2, left, items[1..], r.1);
      assert items == [items[0]] + items[1..];
    }
  }

  /** Every run in which the first burst fits the ring loses and repeats nothing and keeps the order:
      delivered and still queued packets together are the queued and accepted ones. */
  lemma {:induction false} RunIsFifo(s: Ring, items: seq<Packet>, ops: seq<Op>)
    requires Holds(s, items) && (s.qrpos < 0 ==> Burst(ops, |items|) <= |s.q|)
    ensures exists left :: Keeps(Run(s, ops), items, left)
    decreases |ops|
  {
    if ops == [] {
      assert Keeps(Run(s, ops), items, items);
    } else {
      match ops[0]
      case OpAdd(p) =>
        BurstGrows(ops[1..], |items| + 1);
        AddIsFifo(s, items, p);
        var more := if Refuses(s) then items else items + [p];
        RunIsFifo(Add(s, p), more, ops[1..]);
        var left :| Keeps(Run(Add(s, p), ops[1..]), more, left);
        KeepsAdded(s, items, ops, p, left);
      case OpGet =>
        GetIsFifo(s, items);
        var less := if items == [] then [] else items[1..];
        RunIsFifo(Get(s).0, less, ops[1..]);
        var left :| Keeps(Run(Get(s).0, ops[1..]), less, left);
        KeepsGot(s, items, ops, left);
    }
  }
}
