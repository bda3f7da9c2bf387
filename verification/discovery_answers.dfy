/** What the discovery cache answers, entry by entry: who is found, what is handed out, and that it is handed
    out once. */
module DiscoveryAnswers {
  import opened Prelude
  import opened DiscoveryCache
  import opened DiscoveryLog

  /** The k-th discovery is one of the last `len` and was not handed out. */
  predicate Waiting(log: seq<Item>, len: nat, k: nat) { k < |log| <= k + len && !log[k].taken }

  /** It is the oldest such one from this address and port, */
  ghost predicate OldestFrom(log: seq<Item>, len: nat, k: nat, a: Addr)
  {
    Waiting(log, len, k) && log[k].addr == a && forall j :: 0 <= j < k && Waiting(log, len, j) ==> log[j].addr != a
  }

  predicate Host(i: Item, a: Addr) { i.addr.family == a.family && i.addr.ip == a.ip }

  /** or from this host, where none is from the port. */
  ghost predicate OldestOnHost(log: seq<Item>, len: nat, k: nat, a: Addr)
  {
    && Waiting(log, len, k) && Host(log[k], a)
    && (forall j :: 0 <= j < k && Waiting(log, len, j) ==> !Host(log[j], a))
    && forall j :: 0 <= j < |log| && Waiting(log, len, j) ==> log[j].addr != a
  }

  ghost predicate Nobody(log: seq<Item>, len: nat, a: Addr)
  {
    forall j :: 0 <= j < |log| && Waiting(log, len, j) ==> !Host(log[j], a)
  }

  lemma SearchFinds(log: seq<Item>, len: nat, a: Addr, exact: bool)
    ensures match Search(log, First(log, len), a, exact)
            case Some(k) =>
              && Waiting(log, len, k) && (if exact then log[k].addr == a else Host(log[k], a))
              && forall j :: 0 <= j < k && Waiting(log, len, j) ==>
                   if exact then log[j].addr != a else !Host(log[j], a)
            case None =>
              forall j :: 0 <= j < |log| && Waiting(log, len, j) ==>
                if exact then log[j].addr != a else !Host(log[j], a)
  {
    var r := Search(log, First(log, len), a, exact);
    var end := if r.Some? then r.value else |log|;
    forall j | 0 <= j < end && Waiting(log, len, j)
      ensures if exact then log[j].addr != a else !Host(log[j], a)
    {
      assert !Hits(log[j], a, exact);
    }
  }

  /** Whom a lookup decides for. */
  lemma WhoIsPicked(log: seq<Item>, len: nat, a: Addr)
    ensures match LogPick(log, len, a)
            case Some(k) => OldestFrom(log, len, k, a) || OldestOnHost(log, len, k, a)
            case None => Nobody(log, len, a)
  {
    SearchFinds(log, len, a, true);
    SearchFinds(log, len, a, false);
    if Search(log, First(log, len), a, true) == None {
      forall j | 0 <= j < |log| && Waiting(log, len, j) ensures log[j].addr != a {
      }
    }
  }

  lemma OnlyOne(log: seq<Item>, len: nat, a: Addr, j: nat, k: nat)
    requires OldestFrom(log, len, j, a) || OldestOnHost(log, len, j, a)
    requires OldestFrom(log, len, k, a) || OldestOnHost(log, len, k, a)
    ensures j == k
  {
  }

  /** The k-th discovery is found, with its own modules, and is no longer waiting then. */
  ghost predicate Answers(s: State, log: seq<Item>, a: Addr, k: nat)
    requires k < |log|
  {
    var p := Pick(s, a);
    && p.Some? && p.value.slot < |s.queue|
    && (var e := s.queue[p.value.slot];
        e.cmod == Some(log[k].cmod) && e.bmod == log[k].bmod && e.addr == log[k].addr)
    && Rep(Take(s, p.value), log[k := Item(log[k].addr, log[k].cmod, log[k].bmod, true)])
  }

  /** A lookup finds the oldest waiting discovery from the address and port, else the oldest from the host,
      else nothing. What it finds is answered with its own modules; after that it is no longer waiting, and
      nothing else has changed. */
  lemma LookupAnswers(s: State, log: seq<Item>, a: Addr)
    requires Rep(s, log) && ValidAddr(a)
    ensures forall k: nat :: OldestFrom(log, |s.queue|, k, a) || OldestOnHost(log, |s.queue|, k, a) ==>
              Answers(s, log, a, k)
    ensures Nobody(log, |s.queue|, a) <==> Pick(s, a) == None
  {
    var len := |s.queue|;
    PickRefines(s, log, a);
    WhoIsPicked(log, len, a);
    var p := LogPick(log, len, a);
    if p.Some? {
      TakeRefines(s, log, p.value);
      forall k: nat | OldestFrom(log, len, k, a) || OldestOnHost(log, len, k, a) ensures Answers(s, log, a, k) {
        OnlyOne(log, len, a, k, p.value);
      }
      assert exists k: nat :: OldestFrom(log, len, k, a) || OldestOnHost(log, len, k, a);
    }
  }

  /** A discovery is put behind the others, where no other one that still waits when it comes has its address
      and port; the oldest of a full ring stops waiting. */
  lemma AddAppends(s: State, log: seq<Item>, a: Addr, cmod: Module, bmod: Module)
    requires Rep(s, log) && |log| < HALF && ValidAddr(a)
    ensures Rep(Add(s, a, cmod, bmod), log + [Item(a, cmod, bmod, false)]) <==>
            forall k :: 0 <= k < |log| && Waiting(log, |s.queue| - 1, k) ==> log[k].addr != a
    ensures |Add(s, a, cmod, bmod).queue| == |s.queue|
  {
    AddRefines(s, log, a, cmod, bmod);
    AddRing(s, log, a, cmod, bmod);
    if NoTwin(log, |s.queue|, a) {
      forall k | 0 <= k < |log| && Waiting(log, |s.queue| - 1, k) ensures log[k].addr != a {
      }
    } else {
      var k :| 0 <= k < |log| && |log| + 1 - |s.queue| <= k && !log[k].taken && log[k].addr == a;
      assert Waiting(log, |s.queue| - 1, k);
    }
  }

  // ----- over whole runs -----

  /** The modules of the discoveries of a run. */
  function Added(ops: seq<Op>): seq<Module>
  {
    if ops == [] then []
    else (match ops[0] case OpAdd(_, c, _) => [c] case OpGet(_) => []) + Added(ops[1..])
  }

  /** Those that wait in a log. */
  function Left(log: seq<Item>): set<Module> { set k | 0 <= k < |log| && !log[k].taken :: log[k].cmod }

  /** Every module stands for one discovery, in the log or still to come. */
  ghost predicate Apart(log: seq<Item>, ops: seq<Op>)
  {
    && (forall j, k :: 0 <= j < k < |log| ==> log[j].cmod != log[k].cmod)
    && (forall j, k :: 0 <= j < k < |Added(ops)| ==> Added(ops)[j] != Added(ops)[k])
    && forall j, k :: 0 <= j < |log| && 0 <= k < |Added(ops)| ==> log[j].cmod != Added(ops)[k]
  }

  lemma ApartAdd(log: seq<Item>, ops: seq<Op>, a: Addr, c: Module, b: Module)
    requires ops != [] && ops[0] == OpAdd(a, c, b) && Apart(log, ops)
    ensures Apart(log + [Item(a, c, b, false)], ops[1..])
    ensures forall m :: m in Left(log + [Item(a, c, b, false)]) ==> m in Left(log) || m in Added(ops)
    ensures forall m :: m in Added(ops[1..]) ==> m in Added(ops)
  {
    var rest, l := Added(ops[1..]), log + [Item(a, c, b, false)];
    assert Added(ops) == [c] + rest;
    forall k | 0 <= k < |rest| ensures rest[k] == Added(ops)[k + 1] {
    }
    forall j, k | 0 <= j < k < |rest| ensures rest[j] != rest[k] {
      assert Added(ops)[j + 1] != Added(ops)[k + 1];
    }
    forall j, k | 0 <= j < |l| && 0 <= k < |rest| ensures l[j].cmod != rest[k] {
      assert Added(ops)[0] != Added(ops)[k + 1];
      if j < |log| { assert log[j].cmod != Added(ops)[k + 1]; }
    }
    forall j, k | 0 <= j < k < |l| ensures l[j].cmod != l[k].cmod {
      if k == |log| { assert log[j].cmod != Added(ops)[0]; }
    }
    assert c in Added(ops);
  }

  lemma ApartGet(log: seq<Item>, ops: seq<Op>, k: nat)
    requires ops != [] && ops[0].OpGet? && Apart(log, ops) && k < |log| && !log[k].taken
    ensures var l := log[k := log[k].(taken := true)];
            && Apart(l, ops[1..]) && log[k].cmod in Left(log) && log[k].cmod !in Left(l)
            && (forall m :: m in Left(l) ==> m in Left(log)) && Added(ops[1..]) == Added(ops)
            && log[k].cmod !in Added(ops)
  {
    var l := log[k := log[k].(taken := true)];
    assert Added(ops) == [] + Added(ops[1..]) == Added(ops[1..]);
    forall j | 0 <= j < |l| ensures l[j].cmod == log[j].cmod {
    }
    forall j | 0 <= j < |l| && !l[j].taken ensures l[j].cmod != log[k].cmod {
    }
  }

  /** The answers hand out modules that were waiting or came in during the run, each at most once. */
  ghost predicate HandsOut(outs: seq<Option<(Option<Module>, Module)>>, ms: set<Module>)
  {
    && (forall i :: 0 <= i < |outs| && outs[i].Some? ==> outs[i].value.0.Some? && outs[i].value.0.value in ms)
    && forall i, j :: 0 <= i < j < |outs| && outs[i].Some? && outs[j].Some? ==> outs[i].value.0 != outs[j].value.0
  }

  lemma HandsOutOne(m: Module, b: Module, outs: seq<Option<(Option<Module>, Module)>>, ms: set<Module>,
                    all: set<Module>)
    requires HandsOut(outs, ms) && m !in ms && m in all && forall x :: x in ms ==> x in all
    ensures HandsOut([Some((Some(m), b))] + outs, all)
  {
    var r := [Some((Some(m), b))] + outs;
    forall i, j | 0 <= i < j < |r| && r[i].Some? && r[j].Some? ensures r[i].value.0 != r[j].value.0 {
      assert r[j] == outs[j - 1];
      if i > 0 { assert r[i] == outs[i - 1]; }
    }
  }

  function Pool(log: seq<Item>, ops: seq<Op>): set<Module> { Left(log) + (set m | m in Added(ops)) }

  lemma {:induction false} LogHandsOut(log: seq<Item>, len: nat, ops: seq<Op>)
    requires Apart(log, ops)
    ensures HandsOut(RunLog(log, len, ops).1, Pool(log, ops))
    decreases |ops|
  {
    if ops != [] {
      match ops[0]
      case OpAdd(a, c, b) =>
        var l := log + [Item(a, c, b, false)];
        ApartAdd(log, ops, a, c, b);
        LogHandsOut(l, len, ops[1..]);
        assert forall m :: m in Pool(l, ops[1..]) ==> m in Pool(log, ops);
      case OpGet(a) =>
        GetHandsOut(log, len, ops, a);
    }
  }

  lemma {:induction false} GetHandsOut(log: seq<Item>, len: nat, ops: seq<Op>, a: Addr)
    requires Apart(log, ops) && ops != [] && ops[0] == OpGet(a)
    ensures HandsOut(RunLog(log, len, ops).1, Pool(log, ops))
    decreases |ops|, 0
  {
    WhoIsPicked(log, len, a);
    match LogPick(log, len, a)
    case Some(k) =>
      var l := log[k := log[k].(taken := true)];
      ApartGet(log, ops, k);
      LogHandsOut(l, len, ops[1..]);
      HandsOutOne(log[k].cmod, log[k].bmod, RunLog(l, len, ops[1..]).1, Pool(l, ops[1..]), Pool(log, ops));
    case None =>
      assert Added(ops) == [] + Added(ops[1..]) == Added(ops[1..]);
      LogHandsOut(log, len, ops[1..]);
      NoneInFront(RunLog(log, len, ops[1..]).1, Pool(log, ops));
  }

  lemma NoneInFront(outs: seq<Option<(Option<Module>, Module)>>, ms: set<Module>)
    requires HandsOut(outs, ms)
    ensures HandsOut([None] + outs, ms)
  {
    var r := [None] + outs;
    forall i, j | 0 <= i < j < |r| && r[i].Some? && r[j].Some? ensures r[i].value.0 != r[j].value.0 {
      assert r[i] == outs[i - 1] && r[j] == outs[j - 1];
    }
  }

  /** From an empty cache on, over every run without twins in which each discovery has its own module: every
      answer is the module of a discovery of the run, and no discovery is handed out twice. */
  lemma HandedOutOnce(s: State, ops: seq<Op>)
    requires Rep(s, []) && Regular([], |s.queue|, ops)
    requires forall j, k :: 0 <= j < k < |Added(ops)| ==> Added(ops)[j] != Added(ops)[k]
    ensures HandsOut(RunCache(s, ops).1, set m | m in Added(ops))
  {
    RunRefines(s, [], ops);
    LogHandsOut([], |s.queue|, ops);
    assert Pool([], ops) == set m | m in Added(ops);
  }
}
