/**
 The discovery cache: a ring of the last `len` discoveries with two trees over it, one by address
 and port, one by address and age. It is compared with a plain log of all discoveries.
 */
module DiscoveryCache {
  import opened Prelude
  import Mavl

  const AF_INET := 2
  const AF_INET6 := 10
  const UINT32 := 0x1_0000_0000
  const HALF := 0x8000_0000

  datatype Addr = Addr(family: int, port: word, ip: seq<byte>)

  predicate ValidAddr(a: Addr)
  {
    (a.family == AF_INET && |a.ip| == 4) || (a.family == AF_INET6 && |a.ip| == 16)
  }

  predicate SameHost(a: Addr, b: Addr) { a.family == b.family && a.ip == b.ip }

  function MemCmp(a: seq<byte>, b: seq<byte>): int
    requires |a| == |b|
  {
    if a == [] then 0 else if a[0] != b[0] then a[0] - b[0] else MemCmp(a[1..], b[1..])
  }

  /** sock_cmpaddr; other address families are not ordered by it. */
  function SockCmp(a: Addr, b: Addr, port: bool): int
  {
    if a.family != b.family then a.family - b.family
    else if !ValidAddr(a) || !ValidAddr(b) then -1
    else if port && a.port != b.port then a.port - b.port
    else MemCmp(a.ip, b.ip)
  }

  type Module = nat

  /** A ring slot; without a module it is not in use. */
  datatype Elem = Elem(addr: Addr, cmod: Option<Module>, bmod: Module, ctrhi: nat, ctrlo: nat)

  /** A tree element: a pointer to a slot, with the fields the comparators read there. */
  datatype Node = Node(slot: nat, addr: Addr, ctrhi: nat, ctrlo: nat)

  function CmpAddrP(x: Node, y: Node): int { SockCmp(x.addr, y.addr, true) }

  function CmpAddr(x: Node, y: Node): int
  {
    var rc := SockCmp(x.addr, y.addr, false);
    if rc != 0 then rc
    else if x.ctrhi != y.ctrhi then AsInt32(x.ctrhi - y.ctrhi)
    else AsInt32(x.ctrlo - y.ctrlo)
  }

  datatype State = State(queue: seq<Elem>, qpos: nat, byaddr: seq<Node>, byaddrp: seq<Node>, ctrhi: nat, ctrlo: nat)

  function NodeAt(queue: seq<Elem>, i: nat): Node
    requires i < |queue|
  {
    Node(i, queue[i].addr, queue[i].ctrhi, queue[i].ctrlo)
  }

  /** One step of the counter in two unsigned halves. */
  function Tick(hi: nat, lo: nat): (nat, nat)
  {
    var l := (lo + 1) % UINT32;
    (if l == 0 then (hi + 1) % UINT32 else hi, l)
  }

  lemma TickCounts(hi: uint32, lo: uint32)
    ensures var t := Tick(hi, lo); t.0 * UINT32 + t.1 == (hi * UINT32 + lo + 1) % (UINT32 * UINT32)
  {
    var n := hi * UINT32 + lo + 1;
    assert n % (UINT32 * UINT32) == if n < UINT32 * UINT32 then n else 0;
  }

  /** The first half of discovery_cache_add: the slot to be reused leaves both trees. */
  function Evict(s: State): (r: State)
    requires s.qpos < |s.queue|
    ensures r == s.(byaddr := r.byaddr, byaddrp := r.byaddrp)
  {
    var ptr := NodeAt(s.queue, s.qpos);
    if s.queue[s.qpos].cmod.Some? then
      s.(byaddr := Mavl.Del(CmpAddr, s.byaddr, ptr), byaddrp := Mavl.Del(CmpAddrP, s.byaddrp, ptr))
    else s
  }

  /** The second half: fill the slot, count, enter it into both trees and advance. */
  function Put(s: State, a: Addr, cmod: Module, bmod: Module): State
    requires s.qpos < |s.queue|
  {
    var node := Node(s.qpos, a, s.ctrhi, s.ctrlo);
    var t := Tick(s.ctrhi, s.ctrlo);
    State(s.queue[s.qpos := Elem(a, Some(cmod), bmod, s.ctrhi, s.ctrlo)],
          if s.qpos + 1 >= |s.queue| then 0 else s.qpos + 1,
          Mavl.Insert(CmpAddr, s.byaddr, node),
          Mavl.Insert(CmpAddrP, s.byaddrp, node),
          t.0, t.1)
  }

  function Add(s: State, a: Addr, cmod: Module, bmod: Module): State
    requires s.qpos < |s.queue|
  {
    Put(Evict(s), a, cmod, bmod)
  }

  /** The node discovery_cache_get decides for. */
  function Pick(s: State, a: Addr): Option<Node>
  {
    var search := Node(0, a, 0, 0);
    match Mavl.Get(CmpAddrP, s.byaddrp, search)
    case Some(n) => Some(n)
    case None =>
      match Mavl.GetFirst(CmpAddr, s.byaddr, search)
      case Some(n) => if SockCmp(n.addr, a, false) == 0 then Some(n) else None
      case None => None
  }

  function Take(s: State, n: Node): State
    requires n.slot < |s.queue|
  {
    s.(queue := s.queue[n.slot := s.queue[n.slot].(cmod := None)],
       byaddr := Mavl.Del(CmpAddr, s.byaddr, n),
       byaddrp := Mavl.Del(CmpAddrP, s.byaddrp, n))
  }

  class Cache {
    const queue: array<Elem>
    var qpos: nat
    var byaddr: seq<Node>
    var byaddrp: seq<Node>
    var ctrhi: uint32
    var ctrlo: uint32

    ghost function Now(): State
      reads this, queue
    {
      State(queue[..], qpos, byaddr, byaddrp, ctrhi, ctrlo)
    }

    ghost predicate InBounds()
      reads this
    {
      && qpos < queue.Length
      && (forall n :: n in byaddr ==> n.slot < queue.Length) && forall n :: n in byaddrp ==> n.slot < queue.Length
    }

    constructor (len: nat)
      requires len > 0
      ensures InBounds() && fresh(queue) && queue.Length == len
      ensures qpos == 0 && byaddr == byaddrp == [] && ctrhi == ctrlo == 0
      ensures forall i :: 0 <= i < len ==> queue[i].cmod == None
    {
      queue := new Elem[len](_ => Elem(Addr(0, 0, []), None, 0, 0, 0));
      qpos, byaddr, byaddrp, ctrhi, ctrlo := 0, [], [], 0, 0;
    }

    /** The two halves together are a 64-bit counter. */
    method CountUp()
      modifies this`ctrhi, this`ctrlo
      ensures ctrhi * UINT32 + ctrlo == (old(ctrhi) * UINT32 + old(ctrlo) + 1) % (UINT32 * UINT32)
      ensures (ctrhi, ctrlo) == Tick(old(ctrhi), old(ctrlo))
    {
      TickCounts(ctrhi, ctrlo);
      ctrlo := (ctrlo + 1) % UINT32;
      if ctrlo == 0 {
        ctrhi := (ctrhi + 1) % UINT32;
      }
    }

    method DiscoveryCacheAdd(a: Addr, cmod: Module, bmod: Module)
      requires InBounds()
      modifies this, queue
      ensures Now() == Add(old(Now()), a, cmod, bmod)
    {
      EvictCurrent();
      PutCurrent(a, cmod, bmod);
    }

    method EvictCurrent()
      requires qpos < queue.Length
      modifies this`byaddr, this`byaddrp
      ensures Now() == Evict(old(Now()))
    {
      if queue[qpos].cmod.Some? {
        var ptr := NodeAt(queue[..], qpos);
        byaddr := Mavl.Del(CmpAddr, byaddr, ptr);
        byaddrp := Mavl.Del(CmpAddrP, byaddrp, ptr);
      }
    }

    method PutCurrent(a: Addr, cmod: Module, bmod: Module)
      requires qpos < queue.Length
      modifies this, queue
      ensures Now() == Put(old(Now()), a, cmod, bmod)
    {
      ghost var q := queue[..];
      queue[qpos] := Elem(a, Some(cmod), bmod, ctrhi, ctrlo);
      assert queue[..] == q[qpos := queue[qpos]];
      var node := Node(qpos, a, ctrhi, ctrlo);
      CountUp();
      byaddr := Mavl.Insert(CmpAddr, byaddr, node);
      byaddrp := Mavl.Insert(CmpAddrP, byaddrp, node);
      qpos := qpos + 1;
      if qpos >= queue.Length {
        qpos := 0;
      }
    }

    /** Its first half: the exact match, or else the first entry for the address. */
    method Search(a: Addr) returns (result: Option<Node>)
      ensures result == Pick(Now(), a)
    {
      var search := Node(0, a, 0, 0);
      result := Mavl.Get(CmpAddrP, byaddrp, search);
      if result == None {
        result := Mavl.GetFirst(CmpAddr, byaddr, search);
        if result == None || SockCmp(result.value.addr, a, false) != 0 {
          return None;
        }
      }
    }

    method DiscoveryCacheGet(a: Addr) returns (found: bool, cmod: Option<Module>, bmod: Module)
      requires InBounds()
      modifies this, queue
      ensures var p := Pick(old(Now()), a);
              && found == p.Some?
              && (found ==> && p.value.slot < queue.Length && Now() == Take(old(Now()), p.value)
                            && cmod == old(queue[p.value.slot].cmod) && bmod == old(queue[p.value.slot].bmod))
              && (!found ==> Now() == old(Now()))
    {
      found, cmod, bmod := false, None, 0;
      var result := Search(a);
      if result == None {
        return;
      }
      var elem := result.value;
      byaddr := Mavl.Del(CmpAddr, byaddr, elem);
      byaddrp := Mavl.Del(CmpAddrP, byaddrp, elem);
      found, cmod, bmod := true, queue[elem.slot].cmod, queue[elem.slot].bmod;
      queue[elem.slot] := queue[elem.slot].(cmod := None);
    }
  }
}
