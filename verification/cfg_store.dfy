/** The configuration store: a tree of key/value entries under cmp0, and its range iterator. */
module CfgStore {
  import opened Prelude
  import opened CfgOrder
  import Mavl

  datatype Entry = Entry(key: string, val: string)

  function CmpEntry(a: Entry, b: Entry): int { Cmp0(a.key, b.key) }

  predicate AnyEntry(e: Entry) { true }

  ghost predicate Sorted(s: seq<Entry>) { Mavl.Sorted(CmpEntry, s) }

  lemma EntryOrder()
    ensures Mavl.OrderOn(CmpEntry, AnyEntry)
  {
    forall x: Entry ensures CmpEntry(x, x) == 0 { Cmp0TotalPreorder(x.key, x.key, x.key); }
    forall x: Entry, y: Entry ensures CmpEntry(x, y) < 0 <==> CmpEntry(y, x) > 0 {
      Cmp0TotalPreorder(x.key, y.key, y.key);
    }
    forall x: Entry, y: Entry, z: Entry {:trigger Mavl.Link(x, y, z)}
      ensures CmpEntry(x, y) <= 0 && CmpEntry(y, z) <= 0 ==> CmpEntry(x, z) <= 0
    {
      Cmp0TotalPreorder(x.key, y.key, z.key);
    }
  }

  /** cw_cfg_set on the entries. */
  function SetEntry(s: seq<Entry>, e: Entry): seq<Entry> { Mavl.Replace(CmpEntry, s, e) }

  /** cw_cfg_get on the entries. */
  function Lookup(s: seq<Entry>, key: string): Option<string>
  {
    match Mavl.Get(CmpEntry, s, Entry(key, ""))
    case Some(e) => Some(e.val)
    case None => None
  }

  class Cfg {
    var entries: seq<Entry>

    constructor ()
      ensures entries == []
    {
      entries := [];
    }

    /** cw_cfg_set: 1 for a new key, -1 for a replaced one. */
    method Set(key: string, val: string) returns (rc: int)
      requires Sorted(entries)
      modifies this
      ensures Sorted(entries) && entries == SetEntry(old(entries), Entry(key, val))
      ensures rc == if Lookup(old(entries), key).Some? then -1 else 1
    {
      EntryOrder();
      var e := Entry(key, val);
      Mavl.ReplaceKeeps(CmpEntry, AnyEntry, entries, e);
      BoundIgnoresValue(entries, e, Entry(key, ""));
      rc := if Mavl.Has(CmpEntry, entries, e) then -1 else 1;
      entries := Mavl.Replace(CmpEntry, entries, e);
    }

    method Get(key: string, def: string) returns (val: string)
      ensures val == match Lookup(entries, key) case Some(v) => v case None => def
    {
      var r := Mavl.Get(CmpEntry, entries, Entry(key, ""));
      val := if r.Some? then r.value.val else def;
    }
  }

  lemma {:induction false} BoundIgnoresValue(s: seq<Entry>, a: Entry, b: Entry)
    requires a.key == b.key
    ensures Mavl.LowerBound(CmpEntry, s, a) == Mavl.LowerBound(CmpEntry, s, b)
  {
    if s != [] { BoundIgnoresValue(s[1..], a, b); }
  }

  /** What is read after a write: the new value under every spelling of the key, the old ones
      under all other keys. */
  lemma SetThenGet(s: seq<Entry>, e: Entry, key: string)
    requires Sorted(s)
    ensures Lookup(SetEntry(s, e), key) ==
            if Tokens(key, false) == Tokens(e.key, false) then Some(e.val) else Lookup(s, key)
  {
    EntryOrder();
    var x := Entry(key, "");
    var r := SetEntry(s, e);
    Mavl.ReplaceKeeps(CmpEntry, AnyEntry, s, e);
    Mavl.GetFinds(CmpEntry, AnyEntry, s, x);
    Mavl.GetFinds(CmpEntry, AnyEntry, r, x);
    Cmp0TotalPreorder(key, e.key, key);
    Cmp0TotalPreorder(e.key, key, e.key);
    assert e in r;
    if Cmp0(e.key, key) != 0 {
      if y :| y in s && CmpEntry(y, x) == 0 {
        Cmp0TotalPreorder(y.key, e.key, key);
        Cmp0TotalPreorder(key, y.key, e.key);
        assert y in r;
      }
    }
  }

  // ----- the range iterator -----

  class CfgIter {
    var entries: seq<Entry>
    var at: nat
    var base: string

    /** cw_cfg_iter_init: seek the first entry that is not below the base. */
    constructor (cfg: seq<Entry>, base: string)
      ensures entries == cfg && this.base == base
      ensures at == Mavl.LowerBound(CmpEntry, cfg, Entry(base, ""))
    {
      entries := cfg;
      this.base := base;
      at := Mavl.LowerBound(CmpEntry, cfg, Entry(base, ""));
    }

    /** cw_cfg_iter_next */
    method Next() returns (r: Option<Entry>)
      modifies this`at
      ensures r.Some? <==> old(at) < |entries| && Accepts(base, entries[old(at)].key)
      ensures r.Some? ==> r.value == entries[old(at)] && at == old(at) + 1
      ensures r == None ==> at == old(at)
    {
      if at >= |entries| {
        return None;
      }
      var e := entries[at];
      var bl, kl := |base|, |e.key|;
      if bl > kl {
        return None;
      }
      if bl == kl {
        if base != e.key {
          return None;
        }
        at := at + 1;
        return Some(e);
      }
      var d := Dot(e.key);
      if d < 0 || d != bl || base != e.key[..bl] {
        return None;
      }
      at := at + 1;
      return Some(e);
    }
  }

  /** The test cw_cfg_iter_next makes on a key. */
  predicate Accepts(base: string, key: string)
  {
    key == base || (|base| < |key| && Dot(key) == |base| && key[..|base|] == base)
  }

  /** Everything Next returns, one call after the other. */
  method Collect(cfg: seq<Entry>, base: string) returns (r: seq<Entry>)
    ensures r == Iterated(cfg, base)
  {
    var it := new CfgIter(cfg, base);
    r := [];
    NoneCollected(cfg, base);
    var more := true;
    while more
      invariant it.entries == cfg && it.base == base && it.at <= |cfg|
      invariant if more then Collected(cfg, it.at, base, r) else r == Iterated(cfg, base)
      decreases more, |cfg| - it.at
    {
      more, r := CollectNext(it, r);
    }
  }

  method CollectNext(it: CfgIter, r: seq<Entry>) returns (more: bool, all: seq<Entry>)
    requires it.at <= |it.entries| && Collected(it.entries, it.at, it.base, r)
    modifies it`at
    ensures it.at <= |it.entries|
    ensures if more then it.at == old(it.at) + 1 && Collected(it.entries, it.at, it.base, all)
            else all == Iterated(it.entries, it.base)
  {
    TakeAcceptedStep(it.entries, it.at, it.base, r);
    var e := it.Next();
    if e == None {
      return false, r;
    }
    return true, r + [e.value];
  }

  function TakeAccepted(s: seq<Entry>, base: string): seq<Entry>
  {
    if s == [] || !Accepts(base, s[0].key) then [] else [s[0]] + TakeAccepted(s[1..], base)
  }

  /** With `r` returned so far, the iterator at index `i` completes Iterated. */
  ghost predicate Collected(cfg: seq<Entry>, i: nat, base: string, r: seq<Entry>)
    requires i <= |cfg|
  {
    Iterated(cfg, base) == r + TakeAccepted(cfg[i..], base)
  }

  lemma NoneCollected(cfg: seq<Entry>, base: string)
    ensures Collected(cfg, Mavl.LowerBound(CmpEntry, cfg, Entry(base, "")), base, [])
  {
  }

  lemma TakeAcceptedStep(cfg: seq<Entry>, i: nat, base: string, r: seq<Entry>)
    requires i <= |cfg| && Collected(cfg, i, base, r)
    ensures if i < |cfg| && Accepts(base, cfg[i].key) then Collected(cfg, i + 1, base, r + [cfg[i]])
            else r == Iterated(cfg, base)
  {
    if i < |cfg| { assert cfg[i..][1..] == cfg[i + 1..]; }
  }

  function Iterated(cfg: seq<Entry>, base: string): seq<Entry>
  {
    TakeAccepted(cfg[Mavl.LowerBound(CmpEntry, cfg, Entry(base, ""))..], base)
  }

  /** What the caller wants: the entry of `base` itself and all entries below `base.`, in order. */
  function Wanted(s: seq<Entry>, base: string): seq<Entry>
  {
    if s == [] then []
    else (if InRange(base, s[0].key) then [s[0]] else []) + Wanted(s[1..], base)
  }

  predicate InRange(base: string, key: string) { key == base || base + "." <= key }

  /** A key that sorts between `base` and `base.` : it extends `base` by a character below '.'. */
  predicate Blocks(base: string, key: string)
  {
    |base| < |key| && base <= key && key[|base|] < '.'
  }

  lemma AcceptsIsInRange(base: string, key: string)
    requires '.' !in base
    ensures Accepts(base, key) <==> InRange(base, key)
  {
    if base + "." <= key {
      assert key[..|base|] == (base + ".")[..|base|] == base;
      assert key[|base|] == (base + ".")[|base|];
      DotAt(key, |base|);
    }
    if Dot(key) == |base| && key[..|base|] == base {
      assert key[..|base| + 1] == base + ".";
    }
  }

  lemma DotAt(s: string, i: nat)
    requires i < |s| && s[i] == '.' && '.' !in s[..i]
    ensures Dot(s) == i
  {
  }

  /** Without a dot in the base, cmp0 against it is strcmp, and only the base itself equals it. */
  lemma {:induction false} EqualOnlyItself(base: string, key: string)
    ensures StrCmp(key, base) == 0 <==> key == base
  {
    if key != [] && base != [] && key[0] == base[0] {
      EqualOnlyItself(base[1..], key[1..]);
      assert key == [key[0]] + key[1..] && base == [base[0]] + base[1..];
    }
  }

  lemma PrefixCons(c: char, s: string, x: string)
    ensures [c] + s <= x <==> x != [] && x[0] == c && s <= x[1..]
  {
    if x != [] { assert x == [x[0]] + x[1..]; }
  }

  lemma {:induction false} BetweenBaseAndDot(base: string, x: string, y: string)
    requires base + "." <= y && !(base + "." <= x)
    ensures StrCmp(x, base) > 0 && StrCmp(x, y) < 0 <==> Blocks(base, x)
  {
    if base == [] {
      PrefixCons('.', "", x);
      PrefixCons('.', "", y);
    } else if x != [] && x[0] == base[0] {
      assert base + "." == [base[0]] + (base[1..] + ".");
      PrefixCons(base[0], base[1..] + ".", x);
      PrefixCons(base[0], base[1..] + ".", y);
      BetweenBaseAndDot(base[1..], x[1..], y[1..]);
      assert Blocks(base, x) <==> Blocks(base[1..], x[1..]) by {
        assert base == [base[0]] + base[1..] && x == [x[0]] + x[1..];
        assert base <= x <==> base[1..] <= x[1..];
      }
    } else {
      assert y[0] == base[0];
    }
  }

  lemma {:induction false} DottedIsAbove(base: string, y: string)
    requires base + "." <= y
    ensures StrCmp(y, base) > 0
  {
    if base != [] {
      assert base[1..] + "." == (base + ".")[1..] <= y[1..];
      DottedIsAbove(base[1..], y[1..]);
    }
  }

  /** The one way in which a wanted entry can come after an unwanted one that is not below base. */
  lemma UnwantedBeforeWanted(base: string, x: string, y: string)
    requires '.' !in base && !InRange(base, x) && InRange(base, y)
    ensures Cmp0(x, base) >= 0 && Cmp0(x, y) < 0 <==> base + "." <= y && Blocks(base, x)
  {
    EqualOnlyItself(base, x);
    if base + "." <= y {
      BetweenBaseAndDot(base, x, y);
      AcceptsIsInRange(base, x);
      AcceptsIsInRange(base, y);
      assert Cmp0(x, y) == StrCmp(x, y);
    }
  }

  lemma {:induction false} TakesAllWanted(s: seq<Entry>, base: string)
    requires '.' !in base
    requires forall i, j :: 0 <= i < j < |s| && InRange(base, s[j].key) ==> InRange(base, s[i].key)
    ensures TakeAccepted(s, base) == Wanted(s, base)
  {
    if s != [] {
      AcceptsIsInRange(base, s[0].key);
      if InRange(base, s[0].key) {
        TakesAllWanted(s[1..], base);
      } else {
        NoneWanted(s, base);
      }
    }
  }

  lemma {:induction false} NoneWanted(s: seq<Entry>, base: string)
    requires forall i :: 0 <= i < |s| ==> !InRange(base, s[i].key)
    ensures Wanted(s, base) == []
  {
    if s != [] { NoneWanted(s[1..], base); }
  }

  lemma {:induction false} WantedSkips(s: seq<Entry>, n: nat, base: string)
    requires n <= |s| && forall i :: 0 <= i < n ==> !InRange(base, s[i].key)
    ensures Wanted(s, base) == Wanted(s[n..], base)
  {
    if n > 0 {
      WantedSkips(s[1..], n - 1, base);
      assert s[1..][n - 1..] == s[n..];
    }
  }

  lemma {:induction false} WantedHas(s: seq<Entry>, base: string)
    ensures forall e :: e in Wanted(s, base) <==> e in s && InRange(base, e.key)
  {
    if s != [] { WantedHas(s[1..], base); }
  }

  /** The iteration ends at the first unwanted entry. */
  lemma {:induction false} StopsAtUnwanted(s: seq<Entry>, base: string, i: nat)
    requires '.' !in base && i < |s| && !InRange(base, s[i].key)
    ensures forall e :: e in TakeAccepted(s, base) ==> e in s[..i]
  {
    AcceptsIsInRange(base, s[0].key);
    if Accepts(base, s[0].key) {
      StopsAtUnwanted(s[1..], base, i - 1);
      assert s[..i] == [s[0]] + s[1..][..i - 1];
    }
  }

  ghost predicate HasBlocker(s: seq<Entry>, base: string) { exists e :: e in s && Blocks(base, e.key) }

  ghost predicate HasDotted(s: seq<Entry>, base: string) { exists e :: e in s && base + "." <= e.key }

  lemma FromBoundOn(cfg: seq<Entry>, base: string)
    requires Sorted(cfg)
    ensures var n := Mavl.LowerBound(CmpEntry, cfg, Entry(base, ""));
            forall i :: 0 <= i < |cfg| ==> (n <= i <==> Cmp0(cfg[i].key, base) >= 0)
  {
    var b := Entry(base, "");
    EntryOrder();
    Mavl.Bound(CmpEntry, AnyEntry, cfg, b);
    forall i | 0 <= i < |cfg| ensures Mavl.LowerBound(CmpEntry, cfg, b) <= i <==> Cmp0(cfg[i].key, base) >= 0 {
      assert Cmp0(cfg[i].key, base) == CmpEntry(cfg[i], b);
    }
  }

  lemma SortedKeys(cfg: seq<Entry>)
    requires Sorted(cfg)
    ensures forall i, j :: 0 <= i < |cfg| && 0 <= j < |cfg| ==> (Cmp0(cfg[i].key, cfg[j].key) < 0 <==> i < j)
  {
    forall i, j | 0 <= i < |cfg| && 0 <= j < |cfg|
      ensures Cmp0(cfg[i].key, cfg[j].key) < 0 <==> i < j
    {
      Cmp0TotalPreorder(cfg[i].key, cfg[j].key, "");
      if i < j {
        assert CmpEntry(cfg[i], cfg[j]) < 0;
      } else if j < i {
        assert CmpEntry(cfg[j], cfg[i]) < 0;
      }
    }
  }

  /** Over a dot-free base the iterator returns exactly the wanted entries, in order, unless some
      stored key extends the base by a character below '.' while there are entries below `base.`. */
  lemma IterationExact(cfg: seq<Entry>, base: string)
    requires Sorted(cfg) && '.' !in base
    ensures Iterated(cfg, base) == Wanted(cfg, base) <==> !(HasBlocker(cfg, base) && HasDotted(cfg, base))
  {
    if HasBlocker(cfg, base) && HasDotted(cfg, base) {
      BlockedMisses(cfg, base);
    } else {
      UnblockedFindsAll(cfg, base);
    }
  }

  lemma UnblockedFindsAll(cfg: seq<Entry>, base: string)
    requires Sorted(cfg) && '.' !in base && !(HasBlocker(cfg, base) && HasDotted(cfg, base))
    ensures Iterated(cfg, base) == Wanted(cfg, base)
  {
    var n := Mavl.LowerBound(CmpEntry, cfg, Entry(base, ""));
    FromBoundOn(cfg, base);
    SortedKeys(cfg);
    forall i | 0 <= i < n ensures !InRange(base, cfg[i].key) {
      EqualOnlyItself(base, cfg[i].key);
      if base + "." <= cfg[i].key { DottedIsAbove(base, cfg[i].key); }
    }
    WantedSkips(cfg, n, base);
    forall i, j | n <= i < j < |cfg| && InRange(base, cfg[j].key) ensures InRange(base, cfg[i].key) {
      assert cfg[i] in cfg && cfg[j] in cfg;
      if !InRange(base, cfg[i].key) {
        UnwantedBeforeWanted(base, cfg[i].key, cfg[j].key);
      }
    }
    TakesAllWanted(cfg[n..], base);
  }

  lemma BlockedMisses(cfg: seq<Entry>, base: string)
    requires Sorted(cfg) && '.' !in base && HasBlocker(cfg, base) && HasDotted(cfg, base)
    ensures Iterated(cfg, base) != Wanted(cfg, base)
  {
    var x :| x in cfg && Blocks(base, x.key);
    var y :| y in cfg && base + "." <= y.key;
    var i :| 0 <= i < |cfg| && cfg[i] == x;
    var j :| 0 <= j < |cfg| && cfg[j] == y;
    BlockerFirst(cfg, base, i, j);
    BlockerIsUnwanted(base, x.key);
    StopsBefore(cfg, base, Mavl.LowerBound(CmpEntry, cfg, Entry(base, "")), i, j);
    WantedHas(cfg, base);
    assert y in Wanted(cfg, base);
  }

  lemma StopsBefore(cfg: seq<Entry>, base: string, n: nat, i: nat, j: nat)
    requires Sorted(cfg) && '.' !in base && n <= i < j < |cfg| && !InRange(base, cfg[i].key)
    ensures cfg[j] !in TakeAccepted(cfg[n..], base)
  {
    assert cfg[n..][i - n] == cfg[i];
    StopsAtUnwanted(cfg[n..], base, i - n);
    NotBefore(cfg, n, i, j);
  }

  lemma BlockerFirst(cfg: seq<Entry>, base: string, i: nat, j: nat)
    requires Sorted(cfg) && '.' !in base && i < |cfg| && j < |cfg|
    requires Blocks(base, cfg[i].key) && base + "." <= cfg[j].key
    ensures Mavl.LowerBound(CmpEntry, cfg, Entry(base, "")) <= i < j
  {
    FromBoundOn(cfg, base);
    SortedKeys(cfg);
    BlockerIsUnwanted(base, cfg[i].key);
    UnwantedBeforeWanted(base, cfg[i].key, cfg[j].key);
  }

  lemma NotBefore(cfg: seq<Entry>, n: nat, i: nat, j: nat)
    requires Sorted(cfg) && n <= i < j < |cfg|
    ensures cfg[j] !in cfg[n..][..i - n]
  {
    SortedKeys(cfg);
    forall k | n <= k < i ensures cfg[k] != cfg[j] {
      assert Cmp0(cfg[k].key, cfg[j].key) < 0;
      assert !(Cmp0(cfg[j].key, cfg[j].key) < 0);
    }
    assert cfg[n..][..i - n] == cfg[n..i];
  }

  lemma BlockerIsUnwanted(base: string, x: string)
    requires Blocks(base, x)
    ensures !InRange(base, x)
  {
    DottedMeans(base, x);
  }

  lemma DottedMeans(base: string, x: string)
    ensures base + "." <= x <==> base <= x && |base| < |x| && x[|base|] == '.'
  {
    if base <= x && |base| < |x| { assert x[..|base| + 1] == base + [x[|base|]]; }
    if base + "." <= x { assert x[|base|] == (base + ".")[|base|]; }
  }
}
