/** The question whether the configuration has anything below a key, as cw_cfg_base_exists answers it. */
module CfgBase {
  import opened Prelude
  import opened CfgOrder
  import opened CfgStore
  import Mavl

  predicate Extends(base: string, key: string)
  {
    |base| < |key| && base <= key && (key[|base|] == '/' || key[|base|] == '.')
  }

  /** cw_cfg_base_exists: only the first entry not below `base` is looked at. */
  predicate BaseExists(cfg: seq<Entry>, base: string)
  {
    match Mavl.GetFirst(CmpEntry, cfg, Entry(base, ""))
    case None => false
    case Some(e) => Extends(base, e.key)
  }

  ghost predicate HasExtension(cfg: seq<Entry>, base: string) { exists e :: e in cfg && Extends(base, e.key) }

  lemma {:induction false} StrCmpBetween(base: string, x: string, y: string)
    requires Extends(base, y) && !Extends(base, x)
    ensures StrCmp(x, base) > 0 && StrCmp(x, y) < 0 <==> Blocks(base, x)
    ensures StrCmp(y, base) > 0
  {
    if base != [] {
      Tail(base, y);
      if x != [] && x[0] == base[0] {
        Tail(base, x);
        StrCmpBetween(base[1..], x[1..], y[1..]);
      } else {
        StrCmpAbove(base, y);
      }
    }
  }

  lemma {:induction false} StrCmpAbove(base: string, y: string)
    requires Extends(base, y)
    ensures StrCmp(y, base) > 0
  {
    if base != [] {
      Tail(base, y);
      StrCmpAbove(base[1..], y[1..]);
    }
  }

  lemma Tail(base: string, x: string)
    requires base != [] && x != []
    ensures x[0] == base[0] ==> (base <= x <==> base[1..] <= x[1..])
    ensures base <= x ==> x[0] == base[0]
    ensures x[0] == base[0] ==> (Extends(base, x) <==> Extends(base[1..], x[1..]))
    ensures x[0] == base[0] ==> (Blocks(base, x) <==> Blocks(base[1..], x[1..]))
  {
    assert base == [base[0]] + base[1..] && x == [x[0]] + x[1..];
  }

  /** Where one key extends a dot-free base and another does not, cmp0 is strcmp. */
  lemma PlainOrder(base: string, x: string, y: string)
    requires '.' !in base && Extends(base, y) && !Extends(base, x)
    ensures Cmp0(x, y) == StrCmp(x, y) && Cmp0(x, base) == StrCmp(x, base)
  {
  }

  /** It finds what is below a dot-free base exactly when there is something, the base itself is not
      stored, and no stored key extends it by a character below the dot. */
  lemma BaseExistsExact(cfg: seq<Entry>, base: string)
    requires Sorted(cfg) && '.' !in base
    ensures BaseExists(cfg, base) <==>
            HasExtension(cfg, base) && Lookup(cfg, base) == None && !HasBlocker(cfg, base)
  {
    var n := Mavl.LowerBound(CmpEntry, cfg, Entry(base, ""));
    FromBoundOn(cfg, base);
    SortedKeys(cfg);
    if BaseExists(cfg, base) {
      assert cfg[n] in cfg;
      var y := cfg[n].key;
      StrCmpAbove(base, y);
      forall e | e in cfg ensures !Blocks(base, e.key) {
        var j :| 0 <= j < |cfg| && cfg[j] == e;
        NothingBetween(cfg, n, j, base);
      }
    } else if HasExtension(cfg, base) && Lookup(cfg, base) == None {
      var e :| e in cfg && Extends(base, e.key);
      var j :| 0 <= j < |cfg| && cfg[j] == e;
      FirstBlocks(cfg, n, j, base);
    }
  }

  lemma NothingBetween(cfg: seq<Entry>, n: nat, j: nat, base: string)
    requires Sorted(cfg) && '.' !in base && n < |cfg| && j < |cfg| && Extends(base, cfg[n].key)
    requires forall i :: 0 <= i < |cfg| ==> (n <= i <==> Cmp0(cfg[i].key, base) >= 0)
    ensures !Blocks(base, cfg[j].key)
  {
    var x := cfg[j].key;
    if Blocks(base, x) {
      StrCmpBetween(base, x, cfg[n].key);
      PlainOrder(base, x, cfg[n].key);
      SortedKeys(cfg);
      assert Cmp0(cfg[j].key, cfg[n].key) < 0;
      assert false;
    }
  }

  lemma FirstBlocks(cfg: seq<Entry>, n: nat, j: nat, base: string)
    requires Sorted(cfg) && '.' !in base && n <= |cfg| && j < |cfg| && Extends(base, cfg[j].key)
    requires n == Mavl.LowerBound(CmpEntry, cfg, Entry(base, ""))
    requires forall i :: 0 <= i < |cfg| ==> (n <= i <==> Cmp0(cfg[i].key, base) >= 0)
    requires !BaseExists(cfg, base) && Lookup(cfg, base) == None
    ensures HasBlocker(cfg, base)
  {
    var y := cfg[j].key;
    StrCmpAbove(base, y);
    var x := cfg[n].key;
    assert !Extends(base, x);
    SortedKeys(cfg);
    assert Cmp0(x, y) < 0;
    assert CmpEntry(cfg[n], Entry(base, "")) != 0;
    PlainOrder(base, x, y);
    StrCmpBetween(base, x, y);
    assert cfg[n] in cfg;
  }
}
