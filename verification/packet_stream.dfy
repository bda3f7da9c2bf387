/** Reading a connection: queued packets are handed out piece by piece, or peeked at. */
module PacketStream {
  import opened Prelude
  import opened PacketQueue

  /** One receive on the unread packets, the first of which may be begun: its bytes, and what is
      unread then. Nothing is returned across the end of a packet. */
  function Receive(st: seq<Packet>, len: nat): (Option<Packet>, seq<Packet>)
  {
    if st == [] then (None, [])
    else if |st[0]| > len then (Some(st[0][..len]), [st[0][len..]] + st[1..])
    else (Some(st[0]), st[1..])
  }

  class ConnQueue {
    const q: array<Packet>
    var qrpos: int
    var qwpos: nat
    var sem: nat
    var curPacket: Option<Packet>
    var curPacketPos: nat  // behind the 4 bytes that hold the length
    var curPacketLen: nat
    ghost var items: seq<Packet>

    ghost function Now(): Ring
      reads this, q
    {
      Ring(q[..], qrpos, qwpos, sem)
    }

    ghost predicate Valid()
      reads this, q
    {
      Holds(Now(), items) && CurOk()
    }

    ghost predicate CurOk()
      reads this`curPacket, this`curPacketPos, this`curPacketLen
    {
      curPacket.Some? ==> curPacketPos >= 4 && curPacketPos - 4 + curPacketLen == |curPacket.value|
    }

    /** The rest of the packet being read. */
    ghost function Begun(): seq<Packet>
      reads this`curPacket, this`curPacketPos, this`curPacketLen
      requires CurOk()
    {
      if curPacket.Some? then [curPacket.value[curPacketPos - 4..]] else []
    }

    /** The unread packets. */
    ghost function Stream(): seq<Packet>
      reads this
      requires CurOk()
    {
      Begun() + items
    }

    constructor (qsize: nat)
      requires qsize > 0
      ensures Valid() && fresh(q) && q.Length == qsize && qrpos == -1 && Stream() == []
    {
      q := new Packet[qsize](_ => []);
      qrpos, qwpos, sem, curPacket, items := -1, 0, 0, None, [];
    }

    /** conn_q_add_packet */
    method AddPacket(p: Packet)
      requires Valid()
      modifies this`qwpos, this`sem, this`items, q
      ensures Now() == Add(old(Now()), p)
      ensures items == old(items) + (if Refuses(old(Now())) then [] else [p])
      ensures !Unread(old(Now())) ==> Valid()
    {
      AddIsFifo(Now(), items, p);
      assert items + [] == items;
      WriteSlot(p);
    }

    method WriteSlot(p: Packet)
      requires WritePos(Now()) < q.Length
      modifies this`qwpos, this`sem, this`items, q
      ensures Now() == Add(old(Now()), p)
      ensures items == old(items) + (if Refuses(old(Now())) then [] else [p])
    {
      ghost var s := Now();
      var w := qwpos;
      if w == q.Length {
        w := 0;
      }
      if qrpos == w {
        assert items + [] == items;
        return;
      }
      q[w] := p;
      assert q[..] == s.q[w := p];
      qwpos := w + 1;
      sem := sem + 1;
      items := items + [p];
    }

    /** conn_q_get_packet */
    method GetPacket() returns (p: Option<Packet>)
      requires Valid()
      modifies this`qrpos, this`sem, this`items
      ensures Valid()
      ensures if old(items) == [] then p == None && items == []
              else p == Some(old(items)[0]) && items == old(items)[1..]
    {
      GetIsFifo(Now(), items);
      if sem == 0 {
        return None;
      }
      sem := sem - 1;
      var r := qrpos + 1;
      if r == q.Length {
        r := 0;
      }
      ghost var s := Now();
      qrpos := r;
      items := items[1..];
      return Some(q[r]);
    }

    /** The first part of conn_q_recv_packet_: make sure there is a packet to read from. */
    method Load() returns (ok: bool)
      requires Valid()
      modifies this
      ensures Valid() && Stream() == old(Stream()) && ok == (Stream() != []) == curPacket.Some?
    {
      if curPacket == None {
        var p := GetPacket();
        if p == None {
          return false;
        }
        curPacket, curPacketLen, curPacketPos := p, |p.value|, 4;
        assert [p.value[0..]] + items == old(items);
      }
      return true;
    }

    /** conn_q_recv_packet_: receive, or peek, at most `len` bytes into the buffer. */
    method RecvPacket(buffer: array<byte>, len: nat, peek: bool) returns (n: int)
      requires Valid() && len <= buffer.Length
      modifies this, buffer
      ensures Valid()
      ensures var r := Receive(old(Stream()), len);
              && Stream() == (if peek then old(Stream()) else r.1)
              && (if r.0 == None then n == -1 else 0 <= n <= len && buffer[..n] == r.0.value)
    {
      var ok := Load();
      if !ok {
        return -1;
      }
      n := ReadCurrent(buffer, len, peek);
    }

    /** Its second part: read from the current packet. */
    method ReadCurrent(buffer: array<byte>, len: nat, peek: bool) returns (n: nat)
      requires CurOk() && curPacket.Some? && len <= buffer.Length
      modifies this`curPacket, this`curPacketPos, this`curPacketLen, buffer
      ensures CurOk()
      ensures var r := Receive(old(Stream()), len);
              && Stream() == (if peek then old(Stream()) else r.1)
              && n <= len && r.0 == Some(buffer[..n])
    {
      ghost var st := Stream();
      ghost var head := curPacket.value[curPacketPos - 4..];
      assert st == [head] + items && st[1..] == items && |head| == curPacketLen;
      if curPacketLen > len {
        CopyOut(buffer, len);
        if !peek {
          curPacketPos := curPacketPos + len;
          curPacketLen := curPacketLen - len;
          assert curPacket.value[curPacketPos - 4..] == head[len..];
        }
        return len;
      }
      CopyOut(buffer, curPacketLen);
      assert head[..curPacketLen] == head;
      if !peek {
        curPacket := None;
        assert [] + items == items;
      }
      return curPacketLen;
    }

    /** memcpy from the current packet. */
    method CopyOut(buffer: array<byte>, n: nat)
      requires curPacket.Some? && 4 <= curPacketPos && n <= buffer.Length && curPacketPos - 4 + n <= |curPacket.value|
      modifies buffer
      ensures buffer[..n] == curPacket.value[curPacketPos - 4..][..n]
    {
      var from := curPacketPos - 4;
      forall k | 0 <= k < n {
        buffer[k] := curPacket.value[from + k];
      }
    }
  }

  // ----- runs of receives, peeks and arrivals -----

  datatype Op = OpRecv(len: nat) | OpPeek(len: nat) | OpArrive(p: Packet)

  /** What is unread after a run, the results of its receives, and its arrivals. */
  function Run(st: seq<Packet>, ops: seq<Op>): (seq<Packet>, seq<Packet>, seq<Packet>)
    decreases |ops|
  {
    if ops == [] then (st, [], [])
    else match ops[0]
      case OpRecv(n) =>
        var g := Receive(st, n);
        var r := Run(g.1, ops[1..]);
        (r.0, (if g.0.Some? then [g.0.value] else []) + r.1, r.2)
      case OpPeek(_) => Run(st, ops[1..])
      case OpArrive(p) =>
        var r := Run(st + [p], ops[1..]);
        (r.0, r.1, [p] + r.2)
  }

  lemma ReceiveKeepsBytes(st: seq<Packet>, len: nat)
    ensures var g := Receive(st, len);
            Flatten(st) == (if g.0.Some? then g.0.value else []) + Flatten(g.1)
  {
    if st != [] && |st[0]| > len {
      var rest := [st[0][len..]] + st[1..];
      assert rest[1..] == st[1..];
      assert st[0][..len] + (st[0][len..] + Flatten(st[1..])) == st[0] + Flatten(st[1..]);
    }
  }

  lemma Assoc<T>(a: seq<T>, b: seq<T>, c: seq<T>)
    ensures a + b + c == a + (b + c)
  {
  }

  lemma FlattenCons<T>(a: seq<T>, ss: seq<seq<T>>)
    ensures Flatten([a] + ss) == a + Flatten(ss)
  {
    assert ([a] + ss)[1..] == ss;
  }

  lemma FlattenSnoc<T>(ss: seq<seq<T>>, a: seq<T>)
    ensures Flatten(ss + [a]) == Flatten(ss) + a
  {
    FlattenAppend(ss, [a]);
    assert [a][1..] == [] && a + [] == a;
  }

  /** For every mix of receives, peeks and arrivals with any buffer sizes: the bytes received so far,
      followed by the unread ones, are all bytes that were unread or arrived, in order. */
  lemma {:induction false} BytesInOrder(st: seq<Packet>, ops: seq<Op>)
    ensures var r := Run(st, ops); Flatten(r.1) + Flatten(r.0) == Flatten(st) + Flatten(r.2)
    decreases |ops|
  {
    if ops != [] {
      match ops[0]
      case OpRecv(n) => ReceiveInOrder(st, ops, n);
      case OpPeek(_) => BytesInOrder(st, ops[1..]);
      case OpArrive(p) => ArriveInOrder(st, ops, p);
    }
  }

  lemma {:induction false} ReceiveInOrder(st: seq<Packet>, ops: seq<Op>, n: nat)
    requires ops != [] && ops[0] == OpRecv(n)
    ensures var r := Run(st, ops); Flatten(r.1) + Flatten(r.0) == Flatten(st) + Flatten(r.2)
    decreases |ops|, 0
  {
    var g := Receive(st, n);
    var r := Run(g.1, ops[1..]);
    BytesInOrder(g.1, ops[1..]);
    ReceiveKeepsBytes(st, n);
    if g.0.Some? {
      FlattenCons(g.0.value, r.1);
      Assoc(g.0.value, Flatten(r.1), Flatten(r.0));
      Assoc(g.0.value, Flatten(g.1), Flatten(r.2));
    } else {
      assert [] + r.1 == r.1 && [] + Flatten(g.1) == Flatten(g.1);
    }
  }

  lemma {:induction false} ArriveInOrder(st: seq<Packet>, ops: seq<Op>, p: Packet)
    requires ops != [] && ops[0] == OpArrive(p)
    ensures var r := Run(st, ops); Flatten(r.1) + Flatten(r.0) == Flatten(st) + Flatten(r.2)
    decreases |ops|, 0
  {
    var r := Run(st + [p], ops[1..]);
    BytesInOrder(st + [p], ops[1..]);
    FlattenSnoc(st, p);
    FlattenCons(p, r.2);
    Assoc(Flatten(st), p, Flatten(r.2));
  }

  /** What a run receives: each result is a piece of one packet, because a receive never returns
      more than the unread rest of the first one, and exactly that or the buffer size. */
  lemma ReceiveStaysInPacket(st: seq<Packet>, len: nat)
    requires st != []
    ensures var g := Receive(st, len);
            && g.0.Some? && g.0.value <= st[0] && |g.0.value| == Min(|st[0]|, len)
            && g.1[|g.1| - |st[1..]|..] == st[1..]
            && (if |st[0]| <= len then g.1 == st[1..] else |g.1| == |st| && g.0.value + g.1[0] == st[0])
  {
  }
}
