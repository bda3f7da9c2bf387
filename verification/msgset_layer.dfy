/**
 What a layer of definitions means for a message, in terms of the fields of the definitions: for every
 element the last definition of the layer decides.
 */
module MsgSetLayer {
  import opened Prelude
  import opened MList
  import opened MsgSet
  import opened MsgSetAgree
  import Mavl

  predicate SameIds(proto: int, vendor: int, id: int, proto1: int, vendor1: int, id1: int)
  {
    proto == proto1 && vendor == vendor1 && id == id1
  }

  predicate Defines(d: ElemDef, e: ElemData) { SameIds(d.proto, d.vendor, d.id, e.proto, e.vendor, e.id) }

  /** The layer has `n` definitions before the end of its list. */
  ghost predicate LayerSize(defs: seq<ElemDef>, n: nat)
  {
    n <= |defs| && (forall j :: 0 <= j < n ==> defs[j].id != 0) && (n < |defs| ==> defs[n].id == 0)
  }

  /** From the i-th definition on, the k-th is the last one for this element. */
  ghost predicate LastFrom(defs: seq<ElemDef>, i: nat, n: nat, k: nat, e: ElemData)
    requires n <= |defs|
  {
    i <= k < n && Defines(defs[k], e) && forall j :: k < j < n ==> !Defines(defs[j], e)
  }

  ghost predicate Defined(defs: seq<ElemDef>, i: nat, n: nat, e: ElemData)
    requires n <= |defs|
  {
    exists k :: i <= k < n && Defines(defs[k], e)
  }

  /** The last definition for this element leaves it there, and with this mand flag. */
  ghost predicate Leaves(defs: seq<ElemDef>, i: nat, n: nat, e: ElemData)
    requires n <= |defs|
  {
    exists k: nat :: LastFrom(defs, i, n, k, e) && defs[k].op % 256 != CW_DELETE && defs[k].mand == e.mand
  }

  lemma CmpIsIds(e: ElemData, d: ElemDef)
    ensures CmpElem(e, Data(d)) == 0 <==> Defines(d, e)
    ensures e == Data(d) <==> Defines(d, e) && d.mand == e.mand
  {
  }

  lemma LastOfMore(defs: seq<ElemDef>, i: nat, n: nat, e: ElemData)
    requires i < n <= |defs|
    ensures Defined(defs, i, n, e) <==> Defines(defs[i], e) || Defined(defs, i + 1, n, e)
    ensures Defined(defs, i + 1, n, e) ==> (Leaves(defs, i, n, e) <==> Leaves(defs, i + 1, n, e))
    ensures !Defined(defs, i + 1, n, e) && Defines(defs[i], e) ==>
            (Leaves(defs, i, n, e) <==> defs[i].op % 256 != CW_DELETE && defs[i].mand == e.mand)
  {
    if Defined(defs, i + 1, n, e) {
      forall k: nat ensures LastFrom(defs, i, n, k, e) <==> LastFrom(defs, i + 1, n, k, e) {
      }
    } else if Defines(defs[i], e) {
      forall k: nat ensures LastFrom(defs, i, n, k, e) <==> k == i {
      }
    }
  }

  /** One definition, on the tree. */
  lemma OneInTree(list: seq<ElemData>, tree: seq<ElemData>, d: ElemDef, handlers: seq<Handler>, e: ElemData)
    requires Mavl.Sorted(CmpElem, tree)
    ensures var t := Apply(list, tree, d, handlers).1;
            && Mavl.Sorted(CmpElem, t)
            && (e in t <==>
                if Defines(d, e) && HandlerOf(handlers, e.proto, e.vendor, e.id).Some?
                then d.op % 256 != CW_DELETE && d.mand == e.mand
                else e in tree)
  {
    TreeMembers(tree, d);
    CmpIsIds(e, d);
  }

  /** After a layer an element is in the tree exactly when the last definition for it leaves it there, with
      its mand flag, or, where the layer does not define it or nobody can handle it, it was there before. */
  lemma {:induction false} LayerTree(list: seq<ElemData>, tree: seq<ElemData>, defs: seq<ElemDef>, i: nat, n: nat,
                                     handlers: seq<Handler>, e: ElemData)
    requires LayerSize(defs, n) && i <= n && Mavl.Sorted(CmpElem, tree)
    ensures e in ApplyAll(list, tree, defs, i, handlers).1 <==>
            if Defined(defs, i, n, e) && HandlerOf(handlers, e.proto, e.vendor, e.id).Some?
            then Leaves(defs, i, n, e) else e in tree
    decreases n - i
  {
    if i < n {
      var r := Apply(list, tree, defs[i], handlers);
      OneInTree(list, tree, defs[i], handlers, e);
      LastOfMore(defs, i, n, e);
      LayerTree(r.0, r.1, defs, i + 1, n, handlers, e);
    }
  }

  /** A definition of the layer that makes `k` a mandatory key: the last one for its element, with a handler
      for this key, a mand flag, and no deletion. */
  ghost predicate Demands(defs: seq<ElemDef>, n: nat, handlers: seq<Handler>, j: nat, k: string)
    requires n <= |defs|
  {
    && j < n && defs[j].mand != 0 && defs[j].op % 256 != CW_DELETE
    && (forall l :: j < l < n ==>
          !SameIds(defs[l].proto, defs[l].vendor, defs[l].id, defs[j].proto, defs[j].vendor, defs[j].id))
    && match HandlerOf(handlers, defs[j].proto, defs[j].vendor, defs[j].id)
       case Some(h) => h.key == k
       case None => false
  }

  /** An element from before that the layer does not define. */
  ghost predicate Demanded(m: Msg, defs: seq<ElemDef>, n: nat, handlers: seq<Handler>, e: ElemData, k: string)
    requires n <= |defs|
  {
    && e in m.tree && e.mand != 0 && !Defined(defs, 0, n, e)
    && match HandlerOf(handlers, e.proto, e.vendor, e.id)
       case Some(h) => h.key == k
       case None => false
  }

  /** The mandatory keys after a layer, in terms of its definitions and of what was there before. */
  lemma MandKeysOfLayer(m: Msg, defs: seq<ElemDef>, n: nat, handlers: seq<Handler>, k: string)
    requires LayerSize(defs, n) && Mavl.Sorted(CmpElem, m.tree) && Handled(m.tree, handlers)
    ensures k in UpdateMsg(m, defs, handlers).mandKeys <==>
            || (exists j: nat :: Demands(defs, n, handlers, j, k))
            || (exists e :: Demanded(m, defs, n, handlers, e, k))
  {
    var t := ApplyAll(m.list, m.tree, defs, 0, handlers).1;
    StaysHandled(m.list, m.tree, defs, 0, handlers);
    MandKeysAre(t, handlers);
    if k in UpdateMsg(m, defs, handlers).mandKeys {
      var e :| e in t && e.mand != 0 && KeyOf(e, handlers) == k;
      LayerTree(m.list, m.tree, defs, 0, n, handlers, e);
      if Defined(defs, 0, n, e) {
        var j: nat :| LastFrom(defs, 0, n, j, e) && defs[j].op % 256 != CW_DELETE && defs[j].mand == e.mand;
        assert Demands(defs, n, handlers, j, k) by {
          assert forall l :: j < l < n ==> !Defines(defs[l], e);
        }
      } else {
        assert Demanded(m, defs, n, handlers, e, k);
      }
    }
    if j: nat :| Demands(defs, n, handlers, j, k) {
      DemandedIsKept(m, defs, n, handlers, j, k);
    }
    if e :| Demanded(m, defs, n, handlers, e, k) {
      LayerTree(m.list, m.tree, defs, 0, n, handlers, e);
      assert IsMandKey(t, handlers, k);
    }
  }

  lemma DemandedIsKept(m: Msg, defs: seq<ElemDef>, n: nat, handlers: seq<Handler>, j: nat, k: string)
    requires LayerSize(defs, n) && Mavl.Sorted(CmpElem, m.tree) && Handled(m.tree, handlers)
    requires Demands(defs, n, handlers, j, k)
    ensures var t := ApplyAll(m.list, m.tree, defs, 0, handlers).1; Handled(t, handlers) && IsMandKey(t, handlers, k)
  {
    var d := defs[j];
    var e := ElemData(d.proto, d.vendor, d.id, d.mand);
    assert LastFrom(defs, 0, n, j, e);
    LayerTree(m.list, m.tree, defs, 0, n, handlers, e);
    StaysHandled(m.list, m.tree, defs, 0, handlers);
  }

  // ----- one definition -----

  /** A definition with a handler leaves its element, with its mand flag, in the tree, and in the list
      unless it is to be ignored; one that deletes leaves none for its element in the tree, and none in a
      list that had it once. */
  lemma OneDefinition(list: seq<ElemData>, tree: seq<ElemData>, d: ElemDef, handlers: seq<Handler>)
    requires Mavl.Sorted(CmpElem, tree) && NoDup(list)
    requires HandlerOf(handlers, d.proto, d.vendor, d.id).Some?
    ensures var (l, t) := Apply(list, tree, d, handlers);
            var e := ElemData(d.proto, d.vendor, d.id, d.mand);
            && (d.op % 256 != CW_DELETE ==> e in t && (d.op % 256 != CW_IGNORE ==> e in l))
            && (d.op % 256 == CW_DELETE ==> forall x :: Defines(d, x) ==> x !in t && x !in l)
            && (forall x :: !Defines(d, x) ==> (x in t <==> x in tree) && (x in l <==> x in list))
  {
    var (l, t) := Apply(list, tree, d, handlers);
    var e := ElemData(d.proto, d.vendor, d.id, d.mand);
    OneInTree(list, tree, d, handlers, e);
    forall x
      ensures d.op % 256 == CW_DELETE && Defines(d, x) ==> x !in t && x !in l
      ensures !Defines(d, x) ==> (x in t <==> x in tree) && (x in l <==> x in list)
    {
      OneInTree(list, tree, d, handlers, x);
      CmpIsIds(x, d);
      InListAfter(list, d, x);
    }
    CmpIsIds(e, d);
    InListAfter(list, d, e);
  }

  lemma InListAfter(list: seq<ElemData>, d: ElemDef, x: ElemData)
    requires NoDup(list)
    ensures d.op % 256 == CW_DELETE && CmpElem(x, Data(d)) == 0 ==> x !in ListAfter(list, d)
    ensures d.op % 256 != CW_DELETE && d.op % 256 != CW_IGNORE && x == Data(d) ==> x in ListAfter(list, d)
    ensures CmpElem(x, Data(d)) != 0 ==> (x in ListAfter(list, d) <==> x in list)
  {
    var e := Data(d);
    DeletedMembers(list, e);
    AppendedMembers(list, e);
    if Present(list, e) { ReplacedMembers(list, e); }
  }

  // ----- the order of the list -----

  /** Definitions of different elements, each with a handler, that neither delete nor ignore. */
  ghost predicate Plain(defs: seq<ElemDef>, n: nat, handlers: seq<Handler>)
    requires n <= |defs|
  {
    && (forall j :: 0 <= j < n ==> HandlerOf(handlers, defs[j].proto, defs[j].vendor, defs[j].id).Some?)
    && (forall j :: 0 <= j < n ==> defs[j].op % 256 != CW_DELETE && defs[j].op % 256 != CW_IGNORE)
    && forall j, k :: 0 <= j < k < n ==>
         !SameIds(defs[j].proto, defs[j].vendor, defs[j].id, defs[k].proto, defs[k].vendor, defs[k].id)
  }

  function Listed(defs: seq<ElemDef>, n: nat): (r: seq<ElemData>)
    requires n <= |defs|
    ensures |r| == n
  {
    seq(n, j requires 0 <= j < n => ElemData(defs[j].proto, defs[j].vendor, defs[j].id, defs[j].mand))
  }

  lemma NotYetThere(defs: seq<ElemDef>, i: nat, n: nat, handlers: seq<Handler>)
    requires i < n <= |defs| && Plain(defs, n, handlers)
    ensures !Present(Listed(defs, i), Data(defs[i]))
    ensures Listed(defs, i) + [Data(defs[i])] == Listed(defs, i + 1)
  {
    var l := Listed(defs, i);
    var f := FirstEq(CmpElem, l, Data(defs[i]));
    if f < |l| {
      CmpIsIds(l[f], defs[i]);
    }
  }

  lemma {:induction false} ListedFrom(tree: seq<ElemData>, defs: seq<ElemDef>, i: nat, n: nat, handlers: seq<Handler>)
    requires LayerSize(defs, n) && i <= n && Plain(defs, n, handlers)
    ensures ApplyAll(Listed(defs, i), tree, defs, i, handlers).0 == Listed(defs, n)
    decreases n - i
  {
    if i < n {
      NotYetThere(defs, i, n, handlers);
      ListedFrom(TreeAfter(tree, defs[i]), defs, i + 1, n, handlers);
    }
  }

  /** For a message that such definitions make up, the elements are sent in the order in which they are
      defined. */
  lemma SentAsDefined(defs: seq<ElemDef>, n: nat, handlers: seq<Handler>)
    requires LayerSize(defs, n) && Plain(defs, n, handlers)
    ensures UpdateMsg(NEW_MSG, defs, handlers).list == Listed(defs, n)
  {
    ListedFrom([], defs, 0, n, handlers);
    assert Listed(defs, 0) == [];
  }

  // ----- handlers -----

  ghost predicate HandlersSize(more: seq<Handler>, n: nat)
  {
    n <= |more| && (forall j :: 0 <= j < n ==> more[j].id != 0) && (n < |more| ==> more[n].id == 0)
  }

  predicate Handles(h: Handler, proto: int, vendor: int, id: int)
  {
    SameIds(h.proto, h.vendor, h.id, proto, vendor, id)
  }

  lemma {:induction false} AddsOneByOne(handlers: seq<Handler>, more: seq<Handler>, i: nat, n: nat, xs: seq<Handler>)
    requires HandlersSize(more, n) && i <= n && xs == more[i..n]
    ensures AddHandlers(handlers, more, i) == Mavl.ReplaceAll(CmpHandler, handlers, xs)
    decreases n - i
  {
    if i < n {
      assert xs[0] == more[i] && xs[1..] == more[i + 1..n];
      AddsOneByOne(Mavl.Replace(CmpHandler, handlers, more[i]), more, i + 1, n, xs[1..]);
    } else {
      assert xs == [];
    }
  }

  lemma LastEqHandles(xs: seq<Handler>, proto: int, vendor: int, id: int)
    ensures var i := Mavl.LastEq(CmpHandler, xs, Handler(proto, vendor, id, ""));
            && (i >= 0 ==> Handles(xs[i], proto, vendor, id))
            && forall j :: i < j < |xs| ==> !Handles(xs[j], proto, vendor, id)
  {
    var x := Handler(proto, vendor, id, "");
    var i := Mavl.LastEq(CmpHandler, xs, x);
    forall j | i < j < |xs| ensures !Handles(xs[j], proto, vendor, id) {
      assert CmpHandler(xs[j], x) != 0;
    }
  }

  lemma HandlerAfterAll(handlers: seq<Handler>, more: seq<Handler>, n: nat, proto: int, vendor: int, id: int)
    returns (i: int)
    requires HandlersSize(more, n) && Mavl.Sorted(CmpHandler, handlers)
    ensures -1 <= i < n && (i >= 0 ==> Handles(more[i], proto, vendor, id))
    ensures forall j :: i < j < n ==> !Handles(more[j], proto, vendor, id)
    ensures HandlerOf(AddHandlers(handlers, more, 0), proto, vendor, id) ==
            if i >= 0 then Some(more[i]) else HandlerOf(handlers, proto, vendor, id)
  {
    var xs, x := more[0..n], Handler(proto, vendor, id, "");
    i := Mavl.LastEq(CmpHandler, xs, x);
    Orders();
    AddsOneByOne(handlers, more, 0, n, xs);
    Mavl.GetAfterAll(CmpHandler, AnyHandler, handlers, xs, x);
    LastEqHandles(xs, proto, vendor, id);
    forall j | i < j < n ensures !Handles(more[j], proto, vendor, id) {
      assert xs[j] == more[j];
    }
  }

  /** Of the first `n` handlers, the j-th is the last one for these ids. */
  ghost predicate LastHandler(more: seq<Handler>, n: nat, j: nat, proto: int, vendor: int, id: int)
    requires n <= |more|
  {
    && j < n && Handles(more[j], proto, vendor, id)
    && forall l :: j < l < n ==> !Handles(more[l], proto, vendor, id)
  }

  /** An element is handled by the last of the new handlers for its ids, else by the old one. */
  lemma LastHandlerCounts(handlers: seq<Handler>, more: seq<Handler>, n: nat, proto: int, vendor: int, id: int)
    requires HandlersSize(more, n) && Mavl.Sorted(CmpHandler, handlers)
    ensures var h := HandlerOf(AddHandlers(handlers, more, 0), proto, vendor, id);
            if forall j :: 0 <= j < n ==> !Handles(more[j], proto, vendor, id)
            then h == HandlerOf(handlers, proto, vendor, id)
            else exists j: nat :: LastHandler(more, n, j, proto, vendor, id) && h == Some(more[j])
  {
    var i := HandlerAfterAll(handlers, more, n, proto, vendor, id);
    if i >= 0 {
      assert LastHandler(more, n, i, proto, vendor, id);
    }
  }
}
