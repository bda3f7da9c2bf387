/**
 Message sets: layered protocol definitions edit, for each message, a list of elements in sending
 order and a tree of the same elements for lookup, and derive the keys of mandatory elements.
 */
module MsgSet {
  import opened Prelude
  import opened MList
  import Mavl

  const CW_DELETE := 1
  const CW_APPEND := 2
  const CW_IGNORE := 5

  datatype ElemDef = ElemDef(proto: int, vendor: int, id: int, mand: int, op: int)

  datatype ElemData = ElemData(proto: int, vendor: int, id: int, mand: int)

  datatype Handler = Handler(proto: int, vendor: int, id: int, key: string)

  function CmpIds(id1: int, vendor1: int, proto1: int, id2: int, vendor2: int, proto2: int): int
  {
    if id1 != id2 then id1 - id2
    else if vendor1 != vendor2 then vendor1 - vendor2
    else proto1 - proto2
  }

  /** cmp_elemdata */
  function CmpElem(a: ElemData, b: ElemData): int { CmpIds(a.id, a.vendor, a.proto, b.id, b.vendor, b.proto) }

  /** cmp_cw_elemhandler_by_id */
  function CmpHandler(a: Handler, b: Handler): int { CmpIds(a.id, a.vendor, a.proto, b.id, b.vendor, b.proto) }

  predicate AnyElem(e: ElemData) { true }

  predicate AnyHandler(h: Handler) { true }

  lemma Orders()
    ensures Mavl.OrderOn(CmpElem, AnyElem) && Mavl.OrderOn(CmpHandler, AnyHandler)
  {
  }

  /** cw_msgset_get_elemhandler */
  function HandlerOf(handlers: seq<Handler>, proto: int, vendor: int, id: int): Option<Handler>
  {
    Mavl.Get(CmpHandler, handlers, Handler(proto, vendor, id, ""))
  }

  function Data(d: ElemDef): ElemData { ElemData(d.proto, d.vendor, d.id, d.mand) }

  /** One definition: what becomes of list and tree. */
  function Apply(list: seq<ElemData>, tree: seq<ElemData>, d: ElemDef, handlers: seq<Handler>)
    : (seq<ElemData>, seq<ElemData>)
  {
    if HandlerOf(handlers, d.proto, d.vendor, d.id) == None then (list, tree)
    else (ListAfter(list, d), TreeAfter(tree, d))
  }

  /** What becomes of the list; every other operation replaces, prepending among them. */
  function ListAfter(list: seq<ElemData>, d: ElemDef): seq<ElemData>
  {
    var ed := Data(d);
    var op := d.op % 256;
    if op == CW_IGNORE then list
    else if op == CW_DELETE then DeleteFirst(CmpElem, list, ed)
    else if op == CW_APPEND || FirstEq(CmpElem, list, ed) == |list| then list + [ed]
    else ReplaceFirst(CmpElem, list, ed)
  }

  function TreeAfter(tree: seq<ElemData>, d: ElemDef): seq<ElemData>
  {
    if d.op % 256 == CW_DELETE then Mavl.Del(CmpElem, tree, Data(d)) else Mavl.Replace(CmpElem, tree, Data(d))
  }

  /** All definitions from `i` up to the terminating one with id 0. */
  function ApplyAll(list: seq<ElemData>, tree: seq<ElemData>, defs: seq<ElemDef>, i: nat, handlers: seq<Handler>)
    : (seq<ElemData>, seq<ElemData>)
    requires i <= |defs|
    decreases |defs| - i
  {
    if i == |defs| || defs[i].id == 0 then (list, tree)
    else var (l, t) := Apply(list, tree, defs[i], handlers); ApplyAll(l, t, defs, i + 1, handlers)
  }

  ghost predicate Handled(tree: seq<ElemData>, handlers: seq<Handler>)
  {
    forall e :: e in tree ==> HandlerOf(handlers, e.proto, e.vendor, e.id).Some?
  }

  /** The keys of the mandatory elements, in tree order. */
  function MandKeys(tree: seq<ElemData>, handlers: seq<Handler>): seq<string>
    requires Handled(tree, handlers)
  {
    if tree == [] then []
    else
      var e := tree[0];
      (if e.mand != 0 then [HandlerOf(handlers, e.proto, e.vendor, e.id).value.key] else [])
      + MandKeys(tree[1..], handlers)
  }

  // ----- update_msgdata on the linked list -----

  class MsgData {
    const list: List<ElemData>
    var tree: seq<ElemData>
    var mandKeys: seq<string>

    ghost predicate Valid()
      reads this, list, list.Repr
    {
      list.Valid() && list.cmp == CmpElem
    }

    constructor ()
      ensures Valid() && list.contents == [] && tree == [] && mandKeys == []
      ensures fresh(list) && list.Repr == {}
    {
      list := new List(CmpElem);
      tree, mandKeys := [], [];
    }

    method UpdateMsgdata(defs: seq<ElemDef>, handlers: seq<Handler>)
      requires Valid() && Handled(tree, handlers)
      modifies this, list, list.Repr
      ensures Valid() && Handled(tree, handlers)
      ensures var r := ApplyAll(old(list.contents), old(tree), defs, 0, handlers); list.contents == r.0 && tree == r.1
      ensures mandKeys == MandKeys(tree, handlers)
    {
      ApplyDefs(defs, handlers);
      CollectKeys(handlers);
    }

    /** The first loop of update_msgdata. */
    method ApplyDefs(defs: seq<ElemDef>, handlers: seq<Handler>)
      requires Valid() && Handled(tree, handlers)
      modifies this`tree, list, list.Repr
      ensures Valid() && Handled(tree, handlers)
      ensures var r := ApplyAll(old(list.contents), old(tree), defs, 0, handlers); list.contents == r.0 && tree == r.1
    {
      var i := 0;
      ghost var all := ApplyAll(list.contents, tree, defs, 0, handlers);
      while i < |defs| && defs[i].id != 0
        invariant i <= |defs|
        invariant HeadsFor(defs, i, handlers, all)
        invariant forall o :: o in list.Repr ==> o in old(list.Repr) || fresh(o)
      {
        ApplyNext(defs, i, handlers, all);
        i := i + 1;
      }
      Headed(defs, i, handlers, all);
    }

    /** The definitions from `i` on lead from here to `all`. */
    ghost predicate HeadsFor(defs: seq<ElemDef>, i: nat, handlers: seq<Handler>, all: (seq<ElemData>, seq<ElemData>))
      requires i <= |defs|
      reads this, list, list.Repr
    {
      Valid() && Handled(tree, handlers) && all == ApplyAll(list.contents, tree, defs, i, handlers)
    }

    lemma Headed(defs: seq<ElemDef>, i: nat, handlers: seq<Handler>, all: (seq<ElemData>, seq<ElemData>))
      requires i <= |defs| && HeadsFor(defs, i, handlers, all) && (i == |defs| || defs[i].id == 0)
      ensures Valid() && Handled(tree, handlers) && list.contents == all.0 && tree == all.1
    {
    }

    /** One round of the first loop, with `all` its final outcome. */
    method ApplyNext(defs: seq<ElemDef>, i: nat, handlers: seq<Handler>, ghost all: (seq<ElemData>, seq<ElemData>))
      requires i < |defs| && defs[i].id != 0 && HeadsFor(defs, i, handlers, all)
      modifies this`tree, list, list.Repr
      ensures HeadsFor(defs, i + 1, handlers, all)
      ensures fresh(list.Repr - old(list.Repr))
    {
      ApplyDef(defs[i], handlers);
    }

    /** Its body. */
    method ApplyDef(d: ElemDef, handlers: seq<Handler>)
      requires Valid() && Handled(tree, handlers)
      modifies this`tree, list, list.Repr
      ensures Valid() && Handled(tree, handlers)
      ensures var r := Apply(old(list.contents), old(tree), d, handlers); list.contents == r.0 && tree == r.1
      ensures fresh(list.Repr - old(list.Repr))
    {
      var handler := HandlerOf(handlers, d.proto, d.vendor, d.id);
      if handler == None {
        return;
      }
      TreeStep(tree, d, handlers);
      EditList(d);
      EditTree(d);
    }

    /** Its switch, on the list. */
    method EditList(d: ElemDef)
      requires Valid()
      modifies list, list.Repr
      ensures Valid() && list.contents == ListAfter(old(list.contents), d)
      ensures fresh(list.Repr - old(list.Repr))
    {
      var ed := Data(d);
      var op := d.op % 256;
      if op == CW_IGNORE {
      } else if op == CW_DELETE {
        list.Delete(ed);
      } else if op == CW_APPEND {
        list.Append(ed);
      } else {
        var found := list.Replace(ed);
        if !found {
          list.Append(ed);
        }
      }
    }

    method EditTree(d: ElemDef)
      modifies this`tree
      ensures tree == TreeAfter(old(tree), d)
    {
      if d.op % 256 == CW_DELETE {
        tree := Mavl.Del(CmpElem, tree, Data(d));
      } else {
        tree := Mavl.Replace(CmpElem, tree, Data(d));
      }
    }

    /** The second loop of update_msgdata. */
    method CollectKeys(handlers: seq<Handler>)
      requires Handled(tree, handlers)
      modifies this`mandKeys
      ensures mandKeys == MandKeys(tree, handlers)
    {
      mandKeys := [];
      var i := 0;
      assert tree[0..] == tree;
      while i < |tree|
        invariant i <= |tree|
        invariant KeysSoFar(tree, i, handlers, mandKeys)
      {
        KeysStep(tree, i, handlers, mandKeys);
        var e := tree[i];
        var handler := HandlerOf(handlers, e.proto, e.vendor, e.id);
        if e.mand != 0 {
          mandKeys := mandKeys + [handler.value.key];
        }
        i := i + 1;
      }
    }
  }

  /** With `keys` collected, the elements from `i` on complete the mandatory keys. */
  ghost predicate KeysSoFar(tree: seq<ElemData>, i: nat, handlers: seq<Handler>, keys: seq<string>)
    requires Handled(tree, handlers) && i <= |tree|
  {
    && (forall e :: e in tree[i..] ==> e in tree)
    && keys + MandKeys(tree[i..], handlers) == MandKeys(tree, handlers)
  }

  lemma KeysStep(tree: seq<ElemData>, i: nat, handlers: seq<Handler>, keys: seq<string>)
    requires Handled(tree, handlers) && i < |tree| && KeysSoFar(tree, i, handlers, keys)
    ensures var e := tree[i];
            var h := HandlerOf(handlers, e.proto, e.vendor, e.id);
            h.Some? && KeysSoFar(tree, i + 1, handlers, if e.mand != 0 then keys + [h.value.key] else keys)
  {
    assert tree[i..][1..] == tree[i + 1..];
    assert tree[i] in tree;
  }

  lemma TreeStep(tree: seq<ElemData>, d: ElemDef, handlers: seq<Handler>)
    requires Handled(tree, handlers) && HandlerOf(handlers, d.proto, d.vendor, d.id).Some?
    ensures Handled(TreeAfter(tree, d), handlers)
  {
    forall e | e in TreeAfter(tree, d) ensures HandlerOf(handlers, e.proto, e.vendor, e.id).Some? {
      if d.op % 256 == CW_DELETE {
        Mavl.DelAddsNone(CmpElem, tree, Data(d), e);
      } else {
        Mavl.ReplaceAddsOne(CmpElem, tree, Data(d), e);
      }
    }
  }
}
