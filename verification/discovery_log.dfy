/**
 The discovery cache refines a log: the trees hold exactly the live entries among the last `len`
 discoveries, and a lookup takes the exact match or else the oldest entry of the host.
 */
module DiscoveryLog {
  import opened Prelude
  import opened DiscoveryCache
  import Mavl

  /** One discovery, never forgotten; `taken` says that a lookup has handed it out. */
  datatype Item = Item(addr: Addr, cmod: Module, bmod: Module, taken: bool)

  /** The oldest discovery of the window. */
  function First(log: seq<Item>, len: nat): nat { if |log| > len then |log| - len else 0 }

  predicate LiveAt(log: seq<Item>, len: nat, k: int) { First(log, len) <= k < |log| && !log[k].taken }

  /** First untaken entry from `k` on with this address, or from this host. */
  function Search(log: seq<Item>, k: nat, a: Addr, exact: bool): (r: Option<nat>)
    requires k <= |log|
    ensures r.Some? ==> k <= r.value < |log| && Hits(log[r.value], a, exact)
    ensures forall j :: k <= j < (if r.Some? then r.value else |log|) ==> !Hits(log[j], a, exact)
    decreases |log| - k
  {
    if k == |log| then None else if Hits(log[k], a, exact) then Some(k) else Search(log, k + 1, a, exact)
  }

  predicate Hits(i: Item, a: Addr, exact: bool)
  {
    !i.taken && if exact then i.addr == a else SameHost(i.addr, a)
  }

  /** Which entry a lookup should take: the exact match, else the oldest of the host. */
  function LogPick(log: seq<Item>, len: nat, a: Addr): Option<nat>
  {
    var e := Search(log, First(log, len), a, true);
    if e.Some? then e else Search(log, First(log, len), a, false)
  }

  function LogTake(log: seq<Item>, k: nat): seq<Item>
    requires k < |log|
  {
    log[k := log[k].(taken := true)]
  }

  function LogAdd(log: seq<Item>, a: Addr, cmod: Module, bmod: Module): seq<Item>
  {
    log + [Item(a, cmod, bmod, false)]
  }

  // ----- the representation -----

  /** The ring slot of the k-th discovery. */
  function Slot(k: nat, len: nat): (i: nat)
    requires len > 0
    ensures i < len
  {
    if k < len then k else Slot(k - len, len)
  }

  function NodeOf(log: seq<Item>, len: nat, k: nat): Node
    requires k < |log| && 0 < len
  {
    Node(Slot(k, len), log[k].addr, 0, k)
  }

  function ElemOf(i: Item, k: nat): Elem { Elem(i.addr, if i.taken then None else Some(i.cmod), i.bmod, 0, k) }

  ghost predicate RingHolds(q: seq<Elem>, log: seq<Item>)
    requires |q| > 0
  {
    && (forall k :: First(log, |q|) <= k < |log| ==> q[Slot(k, |q|)] == ElemOf(log[k], k))
    && forall i :: |log| <= i < |q| ==> q[i].cmod == None
  }

  /** The tree holds exactly the untaken entries from `from` on. */
  ghost predicate TreeHolds(tree: seq<Node>, log: seq<Item>, len: nat, from: nat)
    requires len > 0
  {
    forall n :: n in tree <==> from <= n.ctrlo < |log| && !log[n.ctrlo].taken && n == NodeOf(log, len, n.ctrlo)
  }

  ghost predicate TreesHold(s: State, log: seq<Item>, from: nat)
    requires |s.queue| > 0
  {
    && TreeHolds(s.byaddr, log, |s.queue|, from) && Mavl.Sorted(CmpAddr, s.byaddr)
    && TreeHolds(s.byaddrp, log, |s.queue|, from) && Mavl.Sorted(CmpAddrP, s.byaddrp)
  }

  /** Ring, position, counter and both trees are what the log says. The signed comparison of the
      counter with that of a search limits the log to 2^31 entries. */
  ghost predicate Rep(s: State, log: seq<Item>)
  {
    RingRep(s, log) && TreesHold(s, log, First(log, |s.queue|))
  }

  ghost predicate RingRep(s: State, log: seq<Item>)
  {
    && |s.queue| > 0 && |log| <= HALF
    && s.qpos == Slot(|log|, |s.queue|) && s.ctrhi == 0 && s.ctrlo == |log|
    && (forall k :: 0 <= k < |log| ==> ValidAddr(log[k].addr))
    && RingHolds(s.queue, log)
  }

  // ----- the comparators are orders on the addresses and counters that occur -----

  predicate Ordered(n: Node) { ValidAddr(n.addr) && n.ctrhi == 0 && n.ctrlo < HALF }

  lemma {:induction false} MemCmpOrder(a: seq<byte>, b: seq<byte>, c: seq<byte>)
    requires |a| == |b| == |c|
    ensures MemCmp(a, b) == 0 <==> a == b
    ensures MemCmp(a, b) < 0 <==> MemCmp(b, a) > 0
    ensures MemCmp(a, b) <= 0 && MemCmp(b, c) <= 0 ==> MemCmp(a, c) <= 0
  {
    if a != [] {
      MemCmpOrder(a[1..], b[1..], c[1..]);
      assert a == [a[0]] + a[1..] && b == [b[0]] + b[1..];
    }
  }

  lemma SockCmpOrder(a: Addr, b: Addr, c: Addr, port: bool)
    requires ValidAddr(a) && ValidAddr(b) && ValidAddr(c)
    ensures SockCmp(a, b, port) == 0 <==> SameHost(a, b) && (port ==> a.port == b.port)
    ensures SockCmp(a, b, port) < 0 <==> SockCmp(b, a, port) > 0
    ensures SockCmp(a, b, port) <= 0 && SockCmp(b, c, port) <= 0 ==> SockCmp(a, c, port) <= 0
  {
    if a.family == b.family == c.family { MemCmpOrder(a.ip, b.ip, c.ip); }
    if a.family == b.family { MemCmpOrder(a.ip, b.ip, a.ip); }
  }

  lemma NodeOrders()
    ensures Mavl.OrderOn(CmpAddrP, Ordered) && Mavl.OrderOn(CmpAddr, Ordered)
  {
    forall x: Node, y: Node | Ordered(x) && Ordered(y)
      ensures CmpAddrP(x, x) == 0 && CmpAddr(x, x) == 0
      ensures (CmpAddrP(x, y) < 0 <==> CmpAddrP(y, x) > 0) && (CmpAddr(x, y) < 0 <==> CmpAddr(y, x) > 0)
    {
      NodeOrder(x, y, y);
      NodeOrder(x, x, x);
    }
    forall x: Node, y: Node, z: Node {:trigger Mavl.Link(x, y, z)} | Ordered(x) && Ordered(y) && Ordered(z)
      ensures CmpAddrP(x, y) <= 0 && CmpAddrP(y, z) <= 0 ==> CmpAddrP(x, z) <= 0
      ensures CmpAddr(x, y) <= 0 && CmpAddr(y, z) <= 0 ==> CmpAddr(x, z) <= 0
    {
      NodeOrder(x, y, z);
    }
  }

  lemma NodeOrder(x: Node, y: Node, z: Node)
    requires Ordered(x) && Ordered(y) && Ordered(z)
    ensures CmpAddrP(x, y) == 0 <==> x.addr == y.addr
    ensures CmpAddr(x, y) == 0 <==> SameHost(x.addr, y.addr) && x.ctrlo == y.ctrlo
    ensures CmpAddrP(x, y) < 0 <==> CmpAddrP(y, x) > 0
    ensures CmpAddr(x, y) < 0 <==> CmpAddr(y, x) > 0
    ensures CmpAddrP(x, y) <= 0 && CmpAddrP(y, z) <= 0 ==> CmpAddrP(x, z) <= 0
    ensures CmpAddr(x, y) <= 0 && CmpAddr(y, z) <= 0 ==> CmpAddr(x, z) <= 0
  {
    SockCmpOrder(x.addr, y.addr, z.addr, true);
    SockCmpOrder(x.addr, y.addr, z.addr, false);
    SockCmpOrder(y.addr, x.addr, z.addr, false);
    SockCmpOrder(y.addr, z.addr, x.addr, false);
    SockCmpOrder(x.addr, z.addr, y.addr, false);
    SmallDifference(x.ctrlo, y.ctrlo);
    SmallDifference(y.ctrlo, x.ctrlo);
    SmallDifference(y.ctrlo, z.ctrlo);
    SmallDifference(x.ctrlo, z.ctrlo);
  }

  lemma SmallDifference(x: nat, y: nat)
    requires x < HALF && y < HALF
    ensures AsInt32(x - y) == x - y
  {
  }

  // ----- what is in a tree -----

  lemma TreesOrdered(s: State, log: seq<Item>, from: nat)
    requires |s.queue| > 0 && |log| <= HALF && TreesHold(s, log, from)
    requires forall k :: 0 <= k < |log| ==> ValidAddr(log[k].addr)
    ensures Mavl.AllIn(Ordered, s.byaddr) && Mavl.AllIn(Ordered, s.byaddrp)
  {
  }

  lemma {:induction false} SlotsApart(j: nat, k: nat, len: nat)
    requires j < k < j + len
    ensures Slot(j, len) != Slot(k, len)
  {
    if j >= len { SlotsApart(j - len, k - len, len); }
  }

  lemma {:induction false} NextSlot(k: nat, len: nat)
    requires len > 0
    ensures Slot(k + 1, len) == if Slot(k, len) + 1 >= len then 0 else Slot(k, len) + 1
  {
    if k >= len { NextSlot(k - len, len); }
  }

  /** Deleting a live node leaves the others. */
  lemma DelNode(tree: seq<Node>, cmp: (Node, Node) -> int, n: Node)
    requires Mavl.OrderOn(cmp, Ordered) && Mavl.AllIn(Ordered, tree) && Mavl.Sorted(cmp, tree) && n in tree
    ensures var t := Mavl.Del(cmp, tree, n);
            Mavl.Sorted(cmp, t) && Mavl.AllIn(Ordered, t) && forall m :: m in t <==> m in tree && m != n
  {
    Mavl.DelKeeps(cmp, Ordered, tree, n);
    forall m | m in tree && cmp(m, n) == 0 ensures m == n {
      Mavl.OneOfEach(cmp, Ordered, tree, n, m);
    }
  }

  // ----- add -----

  /** The oldest entry leaves a tree. */
  lemma DropOldest(tree: seq<Node>, cmp: (Node, Node) -> int, log: seq<Item>, len: nat, k: nat)
    requires len > 0 && k < |log| && TreeHolds(tree, log, len, k)
    requires Mavl.OrderOn(cmp, Ordered) && Mavl.AllIn(Ordered, tree) && Mavl.Sorted(cmp, tree)
    ensures var t := if log[k].taken then tree else Mavl.Del(cmp, tree, NodeOf(log, len, k));
            TreeHolds(t, log, len, k + 1) && Mavl.Sorted(cmp, t)
  {
    if !log[k].taken {
      DelNode(tree, cmp, NodeOf(log, len, k));
    }
  }

  lemma EvictHolds(s: State, log: seq<Item>)
    requires Rep(s, log)
    ensures TreesHold(Evict(s), log, if |log| + 1 > |s.queue| then |log| + 1 - |s.queue| else 0)
  {
    var len := |s.queue|;
    if |log| >= len {
      var k := |log| - len;
      TreesOrdered(s, log, k);
      assert Slot(k, len) == s.qpos;
      assert s.queue[s.qpos] == ElemOf(log[k], k);
      assert !log[k].taken ==> NodeOf(log, len, k) == NodeAt(s.queue, s.qpos);
      NodeOrders();
      DropOldest(s.byaddr, CmpAddr, log, len, k);
      DropOldest(s.byaddrp, CmpAddrP, log, len, k);
    }
  }

  /** No live entry but the one that is dropped has the new entry's address and port. */
  ghost predicate NoTwin(log: seq<Item>, len: nat, a: Addr)
  {
    forall k :: 0 <= k < |log| && |log| + 1 - len <= k && !log[k].taken ==> log[k].addr != a
  }

  /** One discovery more, in the slot of the oldest. */
  lemma RingGrows(queue: seq<Elem>, log: seq<Item>, i: Item)
    requires |queue| > 0 && RingHolds(queue, log)
    ensures RingHolds(queue[Slot(|log|, |queue|) := ElemOf(i, |log|)], log + [i])
  {
    var len := |queue|;
    var q, l := queue[Slot(|log|, len) := ElemOf(i, |log|)], log + [i];
    forall k | First(l, len) <= k < |l| ensures q[Slot(k, len)] == ElemOf(l[k], k) {
      if k < |log| {
        SlotsApart(k, |log|, len);
        assert First(log, len) <= k && q[Slot(k, len)] == queue[Slot(k, len)] == ElemOf(log[k], k);
      }
    }
  }

  lemma Grown(tree: seq<Node>, t: seq<Node>, log: seq<Item>, l: seq<Item>, len: nat, from: nat, i: Item)
    requires len > 0 && from <= |log| && l == log + [i] && !i.taken && TreeHolds(tree, log, len, from)
    requires forall m :: m in t <==> m in tree || m == NodeOf(l, len, |log|)
    ensures TreeHolds(t, l, len, from)
  {
    forall m: Node
      ensures m in t <==> from <= m.ctrlo < |l| && !l[m.ctrlo].taken && m == NodeOf(l, len, m.ctrlo)
    {
      if m.ctrlo < |log| { assert l[m.ctrlo] == log[m.ctrlo]; }
    }
  }

  lemma TwinInTree(tree: seq<Node>, log: seq<Item>, len: nat, a: Addr)
    requires len > 0 && TreeHolds(tree, log, len, if |log| + 1 > len then |log| + 1 - len else 0)
    ensures NoTwin(log, len, a) <==> forall y :: y in tree ==> y.addr != a
  {
    if y :| y in tree && y.addr == a { assert log[y.ctrlo].addr == a; }
    if k :| 0 <= k < |log| && |log| + 1 - len <= k && !log[k].taken && log[k].addr == a {
      assert NodeOf(log, len, k) in tree;
    }
  }

  /** Whether the new node enters both trees depends on a twin alone. */
  lemma PutTrees(s: State, log: seq<Item>, from: nat, a: Addr, cmod: Module, bmod: Module)
    requires |s.queue| > 0 && s.qpos == Slot(|log|, |s.queue|) && s.ctrhi == 0 && s.ctrlo == |log| < HALF
    requires (forall k :: 0 <= k < |log| ==> ValidAddr(log[k].addr)) && ValidAddr(a)
    requires TreesHold(s, log, from) && from == if |log| + 1 > |s.queue| then |log| + 1 - |s.queue| else 0
    ensures TreesHold(Put(s, a, cmod, bmod), LogAdd(log, a, cmod, bmod), from) <==> NoTwin(log, |s.queue|, a)
  {
    var len := |s.queue|;
    var l := LogAdd(log, a, cmod, bmod);
    var n := NodeOf(l, len, |log|);
    var t := Mavl.Insert(CmpAddr, s.byaddr, n);
    var tp := Mavl.Insert(CmpAddrP, s.byaddrp, n);
    TreesOrdered(s, log, from);
    NewNode(s.byaddr, s.byaddrp, n, |log|);
    Grown(s.byaddr, t, log, l, len, from, l[|log|]);
    TwinInTree(s.byaddrp, log, len, a);
    if NoTwin(log, len, a) {
      Grown(s.byaddrp, tp, log, l, len, from, l[|log|]);
    } else {
      assert n !in s.byaddrp && n !in tp;
    }
  }

  lemma NewNode(byaddr: seq<Node>, byaddrp: seq<Node>, n: Node, ctr: nat)
    requires Mavl.AllIn(Ordered, byaddr) && Mavl.AllIn(Ordered, byaddrp) && Ordered(n) && n.ctrlo == ctr
    requires Mavl.Sorted(CmpAddr, byaddr) && Mavl.Sorted(CmpAddrP, byaddrp)
    requires (forall m :: m in byaddr ==> m.ctrlo < ctr) && forall m :: m in byaddrp ==> m.ctrlo < ctr
    ensures var t := Mavl.Insert(CmpAddr, byaddr, n);
            Mavl.Sorted(CmpAddr, t) && forall m :: m in t <==> m in byaddr || m == n
    ensures var t := Mavl.Insert(CmpAddrP, byaddrp, n);
            && Mavl.Sorted(CmpAddrP, t)
            && forall m :: m in t <==> m in byaddrp || (m == n && forall y :: y in byaddrp ==> y.addr != n.addr)
  {
    NodeOrders();
    Mavl.InsertKeeps(CmpAddr, Ordered, byaddr, n);
    Mavl.InsertKeeps(CmpAddrP, Ordered, byaddrp, n);
    Mavl.GetFinds(CmpAddr, Ordered, byaddr, n);
    Mavl.GetFinds(CmpAddrP, Ordered, byaddrp, n);
    forall y | y in byaddr ensures CmpAddr(y, n) != 0 { NodeOrder(y, n, n); }
    forall y | y in byaddrp ensures CmpAddrP(y, n) == 0 <==> y.addr == n.addr { NodeOrder(y, n, n); }
  }

  lemma AddRing(s: State, log: seq<Item>, a: Addr, cmod: Module, bmod: Module)
    requires RingRep(s, log) && |log| < HALF && ValidAddr(a)
    ensures |Add(s, a, cmod, bmod).queue| == |s.queue|
    ensures RingRep(Add(s, a, cmod, bmod), LogAdd(log, a, cmod, bmod))
  {
    RingGrows(s.queue, log, Item(a, cmod, bmod, false));
    NextSlot(|log|, |s.queue|);
    var e, r := Evict(s), Add(s, a, cmod, bmod);
    assert e.queue == s.queue && e.qpos == s.qpos && e.ctrhi == s.ctrhi && e.ctrlo == s.ctrlo;
    assert r.queue == s.queue[s.qpos := ElemOf(Item(a, cmod, bmod, false), |log|)];
  }

  lemma AddTrees(s: State, log: seq<Item>, a: Addr, cmod: Module, bmod: Module)
    requires Rep(s, log) && |log| < HALF && ValidAddr(a)
    ensures var l := LogAdd(log, a, cmod, bmod);
            TreesHold(Add(s, a, cmod, bmod), l, First(l, |s.queue|)) <==> NoTwin(log, |s.queue|, a)
  {
    EvictHolds(s, log);
    PutTrees(Evict(s), log, First(LogAdd(log, a, cmod, bmod), |s.queue|), a, cmod, bmod);
  }

  /** Adding keeps ring and trees in step with the log exactly when no other live entry has the
      same address and port: then the new entry is missing in the tree by address and port. */
  lemma AddRefines(s: State, log: seq<Item>, a: Addr, cmod: Module, bmod: Module)
    requires Rep(s, log) && |log| < HALF && ValidAddr(a)
    ensures Rep(Add(s, a, cmod, bmod), LogAdd(log, a, cmod, bmod)) <==> NoTwin(log, |s.queue|, a)
  {
    AddRing(s, log, a, cmod, bmod);
    AddTrees(s, log, a, cmod, bmod);
  }

  // ----- get -----

  /** The tree by address and port finds the exact live entry, if there is one. */
  lemma ExactInTree(tree: seq<Node>, log: seq<Item>, len: nat, a: Addr)
    requires len > 0 && ValidAddr(a) && TreeHolds(tree, log, len, First(log, len))
    requires Mavl.AllIn(Ordered, tree) && Mavl.Sorted(CmpAddrP, tree)
    ensures var e := Search(log, First(log, len), a, true);
            Mavl.Get(CmpAddrP, tree, Node(0, a, 0, 0)) == if e.Some? then Some(NodeOf(log, len, e.value)) else None
  {
    var x := Node(0, a, 0, 0);
    NodeOrders();
    Mavl.GetFinds(CmpAddrP, Ordered, tree, x);
    forall n | n in tree ensures CmpAddrP(n, x) == 0 <==> n.addr == a { NodeOrder(n, x, x); }
    var e := Search(log, First(log, len), a, true);
    if e.Some? {
      assert NodeOf(log, len, e.value) in tree;
    } else {
      forall n | n in tree ensures n.addr != a { assert !Hits(log[n.ctrlo], a, true); }
    }
  }

  lemma ExactMatch(s: State, log: seq<Item>, a: Addr)
    requires Rep(s, log) && ValidAddr(a)
    ensures var e := Search(log, First(log, |s.queue|), a, true);
            Mavl.Get(CmpAddrP, s.byaddrp, Node(0, a, 0, 0)) ==
            if e.Some? then Some(NodeOf(log, |s.queue|, e.value)) else None
  {
    TreesOrdered(s, log, First(log, |s.queue|));
    ExactInTree(s.byaddrp, log, |s.queue|, a);
  }

  /** GetFirst on the tree by age, for a host that has a live node `y`, and for one that has none. */
  lemma FirstNode(tree: seq<Node>, a: Addr)
    requires Mavl.AllIn(Ordered, tree) && Mavl.Sorted(CmpAddr, tree) && ValidAddr(a)
    ensures var f := Mavl.GetFirst(CmpAddr, tree, Node(0, a, 0, 0));
            && (f.Some? ==> f.value in tree)
            && forall y :: y in tree && SameHost(y.addr, a) ==>
                 f.Some? && SameHost(f.value.addr, a) && f.value.ctrlo <= y.ctrlo
  {
    var x := Node(0, a, 0, 0);
    NodeOrders();
    Mavl.GetFirstIsLeast(CmpAddr, Ordered, tree, x);
    var f := Mavl.GetFirst(CmpAddr, tree, x);
    forall y | y in tree && SameHost(y.addr, a)
      ensures f.Some? && SameHost(f.value.addr, a) && f.value.ctrlo <= y.ctrlo
    {
      NodeOrder(x, y, x);
      FirstOfHost(y, y, x);
      FirstOfHost(f.value, y, x);
    }
  }

  /** The tree by age finds the oldest live entry of the host, if there is one. */
  lemma OldestOfHost(tree: seq<Node>, log: seq<Item>, len: nat, a: Addr)
    requires len > 0 && ValidAddr(a) && TreeHolds(tree, log, len, First(log, len))
    requires Mavl.AllIn(Ordered, tree) && Mavl.Sorted(CmpAddr, tree)
    ensures var e := Search(log, First(log, len), a, false);
            var f := Mavl.GetFirst(CmpAddr, tree, Node(0, a, 0, 0));
            if e.Some? then f == Some(NodeOf(log, len, e.value))
            else f == None || SockCmp(f.value.addr, a, false) != 0
  {
    FirstNode(tree, a);
    var f := Mavl.GetFirst(CmpAddr, tree, Node(0, a, 0, 0));
    var e := Search(log, First(log, len), a, false);
    if e.Some? {
      var y := NodeOf(log, len, e.value);
      assert y in tree && SameHost(y.addr, a);
      var n := f.value;
      assert n.ctrlo <= e.value && Hits(log[n.ctrlo], a, false);
      assert n.ctrlo == e.value;
      assert n == NodeOf(log, len, n.ctrlo);
    } else if f.Some? {
      SockCmpOrder(f.value.addr, a, a, false);
      assert !Hits(log[f.value.ctrlo], a, false);
    }
  }

  /** What sorts between a search and a node of its host is a node of its host, and not younger. */
  lemma FirstOfHost(f: Node, y: Node, x: Node)
    requires Ordered(f) && Ordered(y) && Ordered(x) && x.ctrlo == 0 && SameHost(y.addr, x.addr)
    ensures CmpAddr(y, x) >= 0
    ensures CmpAddr(f, x) >= 0 && (y == f || CmpAddr(f, y) < 0) ==> SameHost(f.addr, x.addr) && f.ctrlo <= y.ctrlo
  {
    SockCmpOrder(y.addr, x.addr, f.addr, false);
    SockCmpOrder(f.addr, y.addr, x.addr, false);
    SockCmpOrder(x.addr, f.addr, y.addr, false);
    SockCmpOrder(f.addr, x.addr, y.addr, false);
    SmallDifference(y.ctrlo, x.ctrlo);
    SmallDifference(f.ctrlo, y.ctrlo);
  }

  /** A lookup decides for the entry the log decides for. */
  lemma PickRefines(s: State, log: seq<Item>, a: Addr)
    requires Rep(s, log) && ValidAddr(a)
    ensures var p := LogPick(log, |s.queue|, a);
            && Pick(s, a) == (if p.Some? then Some(NodeOf(log, |s.queue|, p.value)) else None)
            && (p.Some? ==> LiveAt(log, |s.queue|, p.value)
                            && s.queue[Slot(p.value, |s.queue|)] == ElemOf(log[p.value], p.value))
  {
    ExactMatch(s, log, a);
    TreesOrdered(s, log, First(log, |s.queue|));
    OldestOfHost(s.byaddr, log, |s.queue|, a);
    var e := Search(log, First(log, |s.queue|), a, false);
    if e.Some? { SockCmpOrder(log[e.value].addr, a, a, false); }
  }

  lemma TakenFromTree(tree: seq<Node>, cmp: (Node, Node) -> int, log: seq<Item>, len: nat, from: nat, k: nat)
    requires len > 0 && from <= k < |log| && !log[k].taken && TreeHolds(tree, log, len, from)
    requires Mavl.OrderOn(cmp, Ordered) && Mavl.AllIn(Ordered, tree) && Mavl.Sorted(cmp, tree)
    ensures var t := Mavl.Del(cmp, tree, NodeOf(log, len, k));
            TreeHolds(t, LogTake(log, k), len, from) && Mavl.Sorted(cmp, t)
  {
    var n, l := NodeOf(log, len, k), LogTake(log, k);
    DelNode(tree, cmp, n);
    var t := Mavl.Del(cmp, tree, n);
    forall m: Node
      ensures m in t <==> from <= m.ctrlo < |l| && !l[m.ctrlo].taken && m == NodeOf(l, len, m.ctrlo)
    {
      assert m in t <==> m in tree && m != n;
    }
  }

  lemma TakenFromRing(q: seq<Elem>, log: seq<Item>, k: nat)
    requires |q| > 0 && RingHolds(q, log) && LiveAt(log, |q|, k)
    ensures var i := Slot(k, |q|); RingHolds(q[i := q[i].(cmod := None)], LogTake(log, k))
  {
    var len, l := |q|, LogTake(log, k);
    var i := Slot(k, len);
    var r := q[i := q[i].(cmod := None)];
    forall j | First(l, len) <= j < |l| ensures r[Slot(j, len)] == ElemOf(l[j], j) {
      if j < k { SlotsApart(j, k, len); }
      if k < j { SlotsApart(k, j, len); }
      assert q[Slot(j, len)] == ElemOf(log[j], j);
    }
  }

  lemma TakeTrees(s: State, log: seq<Item>, from: nat, k: nat)
    requires |s.queue| > 0 && |log| <= HALF && forall j :: 0 <= j < |log| ==> ValidAddr(log[j].addr)
    requires TreesHold(s, log, from) && from <= k < |log| && !log[k].taken
    ensures TreesHold(Take(s, NodeOf(log, |s.queue|, k)), LogTake(log, k), from)
  {
    TreesOrdered(s, log, from);
    NodeOrders();
    TakenFromTree(s.byaddr, CmpAddr, log, |s.queue|, from, k);
    TakenFromTree(s.byaddrp, CmpAddrP, log, |s.queue|, from, k);
  }

  lemma TakeRing(s: State, log: seq<Item>, k: nat)
    requires RingRep(s, log) && LiveAt(log, |s.queue|, k)
    ensures RingRep(Take(s, NodeOf(log, |s.queue|, k)), LogTake(log, k))
  {
    TakenFromRing(s.queue, log, k);
  }

  lemma TakeRefines(s: State, log: seq<Item>, k: nat)
    requires Rep(s, log) && LiveAt(log, |s.queue|, k)
    ensures Rep(Take(s, NodeOf(log, |s.queue|, k)), LogTake(log, k))
  {
    TakeTrees(s, log, First(log, |s.queue|), k);
    TakeRing(s, log, k);
  }

  // ----- whole runs -----

  datatype Op = OpAdd(a: Addr, cmod: Module, bmod: Module) | OpGet(a: Addr)

  /** What the cache answers to a run, and the state it ends in. */
  function RunCache(s: State, ops: seq<Op>): (State, seq<Option<(Option<Module>, Module)>>)
    decreases |ops|
  {
    if ops == [] then (s, [])
    else match ops[0]
      case OpAdd(a, c, b) => if s.qpos < |s.queue| then RunCache(Add(s, a, c, b), ops[1..]) else (s, [])
      case OpGet(a) =>
        var p := Pick(s, a);
        if p.Some? && p.value.slot < |s.queue| then
          var e := s.queue[p.value.slot];
          var r := RunCache(Take(s, p.value), ops[1..]);
          (r.0, [Some((e.cmod, e.bmod))] + r.1)
        else
          var r := RunCache(s, ops[1..]); (r.0, [None] + r.1)
  }

  function RunLog(log: seq<Item>, len: nat, ops: seq<Op>): (seq<Item>, seq<Option<(Option<Module>, Module)>>)
    decreases |ops|
  {
    if ops == [] then (log, [])
    else match ops[0]
      case OpAdd(a, c, b) => RunLog(LogAdd(log, a, c, b), len, ops[1..])
      case OpGet(a) =>
        var p := LogPick(log, len, a);
        if p.Some? then
          var r := RunLog(LogTake(log, p.value), len, ops[1..]);
          (r.0, [Some((Some(log[p.value].cmod), log[p.value].bmod))] + r.1)
        else
          var r := RunLog(log, len, ops[1..]); (r.0, [None] + r.1)
  }

  /** No discovery of the run repeats a live address and port, and the counter stays below 2^31. */
  ghost predicate Regular(log: seq<Item>, len: nat, ops: seq<Op>)
    decreases |ops|
  {
    ops == [] || match ops[0]
      case OpAdd(a, c, b) =>
        |log| < HALF && ValidAddr(a) && NoTwin(log, len, a) && Regular(LogAdd(log, a, c, b), len, ops[1..])
      case OpGet(a) =>
        var p := LogPick(log, len, a);
        ValidAddr(a) && Regular(if p.Some? then LogTake(log, p.value) else log, len, ops[1..])
  }

  /** Over every regular run of adds and lookups the cache gives the answers of the log. */
  lemma {:induction false} RunRefines(s: State, log: seq<Item>, ops: seq<Op>)
    requires Rep(s, log) && Regular(log, |s.queue|, ops)
    ensures RunCache(s, ops).1 == RunLog(log, |s.queue|, ops).1
    ensures Rep(RunCache(s, ops).0, RunLog(log, |s.queue|, ops).0)
    decreases |ops|
  {
    if ops != [] {
      match ops[0]
      case OpAdd(a, c, b) =>
        AddRefines(s, log, a, c, b);
        AddRing(s, log, a, c, b);
        RunRefines(Add(s, a, c, b), LogAdd(log, a, c, b), ops[1..]);
      case OpGet(a) =>
        PickRefines(s, log, a);
        var p := LogPick(log, |s.queue|, a);
        if p.Some? {
          TakeRefines(s, log, p.value);
          RunRefines(Take(s, Pick(s, a).value), LogTake(log, p.value), ops[1..]);
        } else {
          RunRefines(s, log, ops[1..]);
        }
    }
  }

  /** A new cache represents the empty log. */
  lemma EmptyCache(s: State)
    requires |s.queue| > 0 && s.qpos == s.ctrhi == s.ctrlo == 0 && s.byaddr == s.byaddrp == []
    requires forall i :: 0 <= i < |s.queue| ==> s.queue[i].cmod == None
    ensures Rep(s, [])
  {
  }

  /** An entry not taken is found by its address and port until `len` further discoveries. */
  lemma FoundWhileLive(s: State, log: seq<Item>, k: nat)
    requires Rep(s, log) && k < |log| && !log[k].taken
    ensures Pick(s, log[k].addr) == Some(NodeOf(log, |s.queue|, k)) <==>
            |log| - k <= |s.queue|
  {
    var len, a := |s.queue|, log[k].addr;
    PickRefines(s, log, a);
    if |log| - k <= len {
      var e := Search(log, First(log, len), a, true);
      assert Hits(log[k], a, true);
      TreesOrdered(s, log, First(log, len));
      NodeOrders();
      var x, y := NodeOf(log, len, e.value), NodeOf(log, len, k);
      assert x in s.byaddrp && y in s.byaddrp;
      NodeOrder(y, x, x);
      Mavl.OneOfEach(CmpAddrP, Ordered, s.byaddrp, x, y);
    }
  }

  // ----- answers after a twin -----

  ghost predicate SplitLog(l: seq<Item>, len: nat)
  {
    && len > 0 && 0 < |l| <= HALF && !l[|l| - 1].taken
    && forall k :: 0 <= k < |l| ==> ValidAddr(l[k].addr)
  }

  ghost predicate ByAge(tree: seq<Node>, l: seq<Item>, len: nat)
    requires SplitLog(l, len)
  {
    TreeHolds(tree, l, len, First(l, len)) && Mavl.Sorted(CmpAddr, tree)
  }

  ghost predicate ByPort(tree: seq<Node>, l: seq<Item>, len: nat)
    requires SplitLog(l, len)
  {
    TreeHolds(tree, LogTake(l, |l| - 1), len, First(l, len)) && Mavl.Sorted(CmpAddrP, tree)
  }

  /** The trees after a discovery whose address and port are live already: the tree by address has the
      new entry, the tree by address and port is as if it had been taken at once. */
  ghost predicate Split(s: State, l: seq<Item>)
  {
    SplitLog(l, |s.queue|) && ByAge(s.byaddr, l, |s.queue|) && ByPort(s.byaddrp, l, |s.queue|)
  }

  lemma AgeOrdered(tree: seq<Node>, l: seq<Item>, len: nat)
    requires SplitLog(l, len) && ByAge(tree, l, len)
    ensures Mavl.AllIn(Ordered, tree)
  {
  }

  lemma PortOrdered(tree: seq<Node>, l: seq<Item>, len: nat)
    requires SplitLog(l, len) && ByPort(tree, l, len)
    ensures Mavl.AllIn(Ordered, tree)
  {
  }

  /** Entering a twin into both trees, as PutTrees does it for any new entry. */
  lemma PutTwin(s: State, log: seq<Item>, from: nat, a: Addr, cmod: Module, bmod: Module)
    requires |s.queue| > 0 && s.qpos == Slot(|log|, |s.queue|) && s.ctrhi == 0 && s.ctrlo == |log| < HALF
    requires (forall k :: 0 <= k < |log| ==> ValidAddr(log[k].addr)) && ValidAddr(a) && !NoTwin(log, |s.queue|, a)
    requires TreesHold(s, log, from) && from == if |log| + 1 > |s.queue| then |log| + 1 - |s.queue| else 0
    ensures var r, l := Put(s, a, cmod, bmod), LogAdd(log, a, cmod, bmod);
            && TreeHolds(r.byaddr, l, |s.queue|, from) && Mavl.Sorted(CmpAddr, r.byaddr)
            && TreeHolds(r.byaddrp, LogTake(l, |log|), |s.queue|, from) && Mavl.Sorted(CmpAddrP, r.byaddrp)
  {
    var len, l := |s.queue|, LogAdd(log, a, cmod, bmod);
    var n := NodeOf(l, len, |log|);
    var t, tp := Mavl.Insert(CmpAddr, s.byaddr, n), Mavl.Insert(CmpAddrP, s.byaddrp, n);
    TreesOrdered(s, log, from);
    NewNode(s.byaddr, s.byaddrp, n, |log|);
    Grown(s.byaddr, t, log, l, len, from, l[|log|]);
    TwinInTree(s.byaddrp, log, len, a);
    TakenAtOnce(s.byaddrp, tp, log, l, len, from);
  }

  lemma TwinSplits(s: State, log: seq<Item>, a: Addr, cmod: Module, bmod: Module)
    requires Rep(s, log) && |log| < HALF && ValidAddr(a) && !NoTwin(log, |s.queue|, a)
    ensures |Add(s, a, cmod, bmod).queue| == |s.queue| && Split(Add(s, a, cmod, bmod), LogAdd(log, a, cmod, bmod))
  {
    EvictHolds(s, log);
    AddRing(s, log, a, cmod, bmod);
    PutTwin(Evict(s), log, First(LogAdd(log, a, cmod, bmod), |s.queue|), a, cmod, bmod);
  }

  lemma TakenAtOnce(tree: seq<Node>, t: seq<Node>, log: seq<Item>, l: seq<Item>, len: nat, from: nat)
    requires len > 0 && from <= |log| && |l| == |log| + 1 && l[..|log|] == log && TreeHolds(tree, log, len, from)
    requires forall m :: m in t <==> m in tree
    ensures TreeHolds(t, LogTake(l, |log|), len, from)
  {
    var l2 := LogTake(l, |log|);
    forall m: Node
      ensures m in t <==> from <= m.ctrlo < |l2| && !l2[m.ctrlo].taken && m == NodeOf(l2, len, m.ctrlo)
    {
      if m.ctrlo < |log| { assert l2[m.ctrlo] == l[m.ctrlo] == l[..|log|][m.ctrlo]; }
    }
  }

  /** In such a cache a lookup prefers any other entry with the address and port to the newest. */
  lemma SplitPick(s: State, l: seq<Item>, a: Addr)
    requires Split(s, l) && ValidAddr(a)
    ensures var len := |s.queue|;
            var e, h := Search(LogTake(l, |l| - 1), First(l, len), a, true), Search(l, First(l, len), a, false);
            Pick(s, a) == if e.Some? then Some(NodeOf(l, len, e.value))
                          else if h.Some? then Some(NodeOf(l, len, h.value)) else None
  {
    var len := |s.queue|;
    AgeOrdered(s.byaddr, l, len);
    PortOrdered(s.byaddrp, l, len);
    ExactInTree(s.byaddrp, LogTake(l, |l| - 1), len, a);
    OldestOfHost(s.byaddr, l, len, a);
    var h := Search(l, First(l, len), a, false);
    if h.Some? { SockCmpOrder(l[h.value].addr, a, a, false); }
  }

  lemma AgeTake(tree: seq<Node>, l: seq<Item>, len: nat, k: nat)
    requires SplitLog(l, len) && ByAge(tree, l, len) && LiveAt(l, len, k) && k < |l| - 1
    ensures SplitLog(LogTake(l, k), len) && ByAge(Mavl.Del(CmpAddr, tree, NodeOf(l, len, k)), LogTake(l, k), len)
  {
    AgeOrdered(tree, l, len);
    NodeOrders();
    TakenFromTree(tree, CmpAddr, l, len, First(l, len), k);
  }

  lemma PortTake(tree: seq<Node>, l: seq<Item>, len: nat, k: nat)
    requires SplitLog(l, len) && ByPort(tree, l, len) && LiveAt(l, len, k) && k < |l| - 1
    ensures SplitLog(LogTake(l, k), len) && ByPort(Mavl.Del(CmpAddrP, tree, NodeOf(l, len, k)), LogTake(l, k), len)
  {
    var l1 := LogTake(l, |l| - 1);
    PortOrdered(tree, l, len);
    NodeOrders();
    assert l1[k] == l[k] && NodeOf(l, len, k) == NodeOf(l1, len, k);
    TakenFromTree(tree, CmpAddrP, l1, len, First(l, len), k);
    assert LogTake(l1, k) == LogTake(LogTake(l, k), |l| - 1);
  }

  lemma SplitTake(s: State, l: seq<Item>, k: nat)
    requires Split(s, l) && LiveAt(l, |s.queue|, k) && k < |l| - 1
    ensures Split(Take(s, NodeOf(l, |s.queue|, k)), LogTake(l, k))
  {
    AgeTake(s.byaddr, l, |s.queue|, k);
    PortTake(s.byaddrp, l, |s.queue|, k);
  }

  /** Only one entry with an address and port is in the tree for them. */
  lemma OneTwin(tree: seq<Node>, l: seq<Item>, len: nat, j: nat, k: nat)
    requires SplitLog(l, len) && ByPort(tree, l, len) && LiveAt(l, len, j) && LiveAt(l, len, k)
    requires j < |l| - 1 && k < |l| - 1 && l[j].addr == l[k].addr
    ensures j == k
  {
    var x, y := NodeOf(l, len, j), NodeOf(l, len, k);
    PortOrdered(tree, l, len);
    NodeOrders();
    NodeOrder(y, x, x);
    assert LogTake(l, |l| - 1)[j] == l[j] && LogTake(l, |l| - 1)[k] == l[k];
    assert x in tree && y in tree;
    Mavl.OneOfEach(CmpAddrP, Ordered, tree, x, y);
  }

  /** No live entry but the newest has the address and port. */
  ghost predicate NoOtherHit(l: seq<Item>, len: nat, a: Addr)
  {
    forall j :: First(l, len) <= j < |l| - 1 ==> !Hits(l[j], a, true)
  }

  lemma NoOtherTwin(tree: seq<Node>, l: seq<Item>, len: nat, k: nat, a: Addr)
    requires SplitLog(l, len) && ByPort(tree, l, len) && LiveAt(l, len, k) && k < |l| - 1 && l[k].addr == a
    ensures NoOtherHit(LogTake(l, k), len, a)
  {
    forall j | First(l, len) <= j < |l| - 1 ensures !Hits(LogTake(l, k)[j], a, true) {
      if j != k && !l[j].taken && l[j].addr == a { OneTwin(tree, l, len, j, k); }
    }
  }

  /** The history answers a lookup with the newest entry. The cache answers with the oldest live entry
      of the host, which is the newest exactly when the host has no other. */
  ghost predicate OldestForNewest(s: State, l: seq<Item>, a: Addr)
    requires |s.queue| > 0 && l != []
  {
    var len, n := |s.queue|, |l| - 1;
    var h := Search(l, First(l, len), a, false);
    && LogPick(l, len, a) == Some(n) && h.Some? && Pick(s, a) == Some(NodeOf(l, len, h.value))
    && (h == Some(n) <==> forall j :: First(l, len) <= j < n && !l[j].taken ==> !SameHost(l[j].addr, a))
  }

  lemma OnlyNewest(s: State, l: seq<Item>, a: Addr)
    requires Split(s, l) && ValidAddr(a) && l[|l| - 1].addr == a
    requires NoOtherHit(l, |s.queue|, a)
    ensures OldestForNewest(s, l, a)
  {
    SplitPick(s, l, a);
    OnlyLast(l, First(l, |s.queue|), a);
  }

  /** Once the older of two twins is taken, the history has the newer one. */
  lemma {:induction false} SecondLookup(s: State, l: seq<Item>, a: Addr, k: nat, s2: State, l2: seq<Item>)
    requires Split(s, l) && ValidAddr(a) && LiveAt(l, |s.queue|, k) && k < |l| - 1
    requires l[k].addr == a && l[|l| - 1].addr == a
    requires s2 == Take(s, NodeOf(l, |s.queue|, k)) && l2 == LogTake(l, k)
    ensures OldestForNewest(s2, l2, a)
  {
    LastStays(l, k);
    assert l2[|l2| - 1].addr == a;
    SplitTake(s, l, k);
    assert Split(s2, l2) && |s2.queue| == |s.queue|;
    NoOtherTwin(s.byaddrp, l, |s.queue|, k, a);
    assert NoOtherHit(l2, |s2.queue|, a);
    OnlyNewest(s2, l2, a);
  }

  lemma LastStays(l: seq<Item>, k: nat)
    requires k < |l| - 1
    ensures |LogTake(l, k)| == |l| && LogTake(l, k)[|l| - 1] == l[|l| - 1]
  {
  }

  lemma OnlyLast(l: seq<Item>, from: nat, a: Addr)
    requires from <= |l| - 1 && Hits(l[|l| - 1], a, true)
    requires forall j :: from <= j < |l| - 1 ==> !Hits(l[j], a, true)
    ensures Search(l, from, a, true) == Some(|l| - 1) && Search(LogTake(l, |l| - 1), from, a, true) == None
    ensures var h := Search(l, from, a, false);
            && h.Some?
            && (h == Some(|l| - 1) <==> forall j :: from <= j < |l| - 1 && !l[j].taken ==> !SameHost(l[j].addr, a))
  {
    var n := |l| - 1;
    assert forall j :: from <= j < n ==> LogTake(l, n)[j] == l[j];
    assert !Hits(LogTake(l, n)[n], a, true) && Hits(l[n], a, false);
    if j :| from <= j < n && !l[j].taken && SameHost(l[j].addr, a) { assert Hits(l[j], a, false); }
    forall j | from <= j < n && !l[j].taken && !SameHost(l[j].addr, a) ensures !Hits(l[j], a, false) { }
  }

  /** The first lookup after a twin is answered with the older of the two, as the history has it. */
  lemma FirstLookup(s: State, log: seq<Item>, l: seq<Item>, a: Addr) returns (k: nat)
    requires |s.queue| > 0 && |l| == |log| + 1 && l[..|log|] == log && !NoTwin(log, |s.queue|, a)
    requires Split(s, l) && ValidAddr(a)
    ensures var len := |s.queue|;
            && LiveAt(l, len, k) && k < |log| && l[k].addr == a
            && LogPick(l, len, a) == Some(k) && Pick(s, a) == Some(NodeOf(l, len, k))
  {
    k := FirstTwin(log, l, |s.queue|, a);
    SplitPick(s, l, a);
  }

  /** After a twin, the first lookup is answered as the history answers it. The second should be
      answered with the twin, but is answered with the oldest entry that the host still has: it is right
      exactly when the host has no other. */
  lemma TwinAnswers(s: State, log: seq<Item>, a: Addr, cmod: Module, bmod: Module, s1: State, l1: seq<Item>)
    returns (k: nat)
    requires Rep(s, log) && |log| < HALF && ValidAddr(a) && !NoTwin(log, |s.queue|, a)
    requires s1 == Add(s, a, cmod, bmod) && l1 == LogAdd(log, a, cmod, bmod)
    ensures var len := |s.queue|;
            && |s1.queue| == len && k < |log|
            && LogPick(l1, len, a) == Some(k) && Pick(s1, a) == Some(NodeOf(l1, len, k))
            && OldestForNewest(Take(s1, NodeOf(l1, len, k)), LogTake(l1, k), a)
  {
    TwinSplits(s, log, a, cmod, bmod);
    k := FirstLookup(s1, log, l1, a);
    SecondLookup(s1, l1, a, k, Take(s1, NodeOf(l1, |s.queue|, k)), LogTake(l1, k));
  }

  lemma FirstTwin(log: seq<Item>, l: seq<Item>, len: nat, a: Addr) returns (k: nat)
    requires len > 0 && |l| == |log| + 1 && l[..|log|] == log && !NoTwin(log, len, a)
    ensures First(l, len) <= k < |log| && !l[k].taken && l[k].addr == a
    ensures Search(l, First(l, len), a, true) == Search(LogTake(l, |log|), First(l, len), a, true) == Some(k)
  {
    var j :| 0 <= j < |log| && |log| + 1 - len <= j && !log[j].taken && log[j].addr == a;
    assert l[..|log|][j] == l[j];
    var l2 := LogTake(l, |log|);
    assert Hits(l[j], a, true) && Hits(l2[j], a, true);
    k := Search(l, First(l, len), a, true).value;
    assert k <= j && l2[k] == l[k];
    var k2 := Search(l2, First(l, len), a, true).value;
    assert k2 <= j && l2[k2] == l[k2];
  }

  /** After discoveries from `a` and from another port `b` of the same host: one more from `a`, and two
      lookups of `a`. The second is answered with `b`, where the history has the third discovery. */
  lemma TwinMisanswered(s: State, a: Addr, b: Addr, m: Module)
    requires Rep(s, [Item(a, m, m, false), Item(b, m, m, false)]) && |s.queue| >= 3
    requires ValidAddr(a) && SameHost(a, b) && a != b
    ensures var len, log := |s.queue|, [Item(a, m, m, false), Item(b, m, m, false), Item(a, m, m, false)];
            var s3 := Add(s, a, m, m);
            && |s3.queue| == len && Pick(s3, a) == Some(NodeOf(log, len, 0))
            && Pick(Take(s3, NodeOf(log, len, 0)), a) == Some(NodeOf(log, len, 1))
            && LogPick(LogTake(log, 0), len, a) == Some(2)
  {
    var len, i, j := |s.queue|, Item(a, m, m, false), Item(b, m, m, false);
    var two, log := [i, j], [i, j, i];
    assert LogAdd(two, a, m, m) == log && log[0] == i && log[1] == j && two[0] == i && two[1] == j;
    assert !NoTwin(two, len, a);
    var k := TwinAnswers(s, two, a, m, m, Add(s, a, m, m), log);
    assert Hits(log[k], a, true) && !Hits(log[1], a, true);
    var l2 := LogTake(log, 0);
    assert l2[0].taken && l2[1] == j && Hits(l2[1], a, false);
  }

  /** The limit on the counter is real: a lookup compares it as a signed number with zero, so a
      lone entry is found by its host exactly while that comparison does not turn negative. */
  lemma SignedCounter(s: State, x: Node, a: Addr)
    requires s.byaddr == [x] && s.byaddrp == [x] && ValidAddr(x.addr) && ValidAddr(a)
    requires x.ctrhi < UINT32 && x.ctrlo < UINT32
    requires SameHost(x.addr, a) && x.addr.port != a.port
    ensures Pick(s, a) == Some(x) <==> if x.ctrhi == 0 then x.ctrlo < HALF else x.ctrhi < HALF
  {
    SockCmpOrder(x.addr, a, a, true);
    SockCmpOrder(x.addr, a, a, false);
    var search := Node(0, a, 0, 0);
    assert Mavl.LowerBound(CmpAddr, [x], search) == if CmpAddr(x, search) >= 0 then 0 else 1;
    assert !Mavl.Has(CmpAddrP, [x], search);
  }
}
