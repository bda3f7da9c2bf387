/** Do the list, the tree and the mandatory keys of a message stay in step? */
module MsgSetAgree {
  import opened Prelude
  import opened MList
  import opened MsgSet
  import Mavl

  // ----- list and tree -----

  /** No two list elements stand for the same message element. */
  ghost predicate NoDup(list: seq<ElemData>)
  {
    forall i, j :: 0 <= i < j < |list| ==> CmpElem(list[i], list[j]) != 0
  }

  /** Same elements, same mand flags, nothing twice. */
  ghost predicate Agree(list: seq<ElemData>, tree: seq<ElemData>)
  {
    NoDup(list) && Mavl.Sorted(CmpElem, tree) && forall e :: e in list <==> e in tree
  }

  predicate Present(list: seq<ElemData>, e: ElemData) { FirstEq(CmpElem, list, e) < |list| }

  /** What a definition must be for list and tree to stay in step. */
  predicate KeepsStep(list: seq<ElemData>, d: ElemDef)
  {
    && (d.op % 256 == CW_APPEND ==> !Present(list, Data(d)))
    && (d.op % 256 == CW_IGNORE ==> Data(d) in list)
  }

  lemma DeletedMembers(list: seq<ElemData>, x: ElemData)
    requires NoDup(list)
    ensures var r := DeleteFirst(CmpElem, list, x);
            NoDup(r) && forall e :: e in r <==> e in list && CmpElem(e, x) != 0
  {
    var i := FirstEq(CmpElem, list, x);
    if i < |list| {
      var r := list[..i] + list[i + 1..];
      assert forall j :: 0 <= j < |r| ==> r[j] == list[if j < i then j else j + 1];
      OnlyFirst(list, x);
      forall e ensures e in r <==> e in list && CmpElem(e, x) != 0 {
        if e in list && CmpElem(e, x) != 0 {
          var j :| 0 <= j < |list| && list[j] == e;
          assert r[if j < i then j else j - 1] == e;
        }
      }
    } else {
      forall e | e in list ensures CmpElem(e, x) != 0 { var j :| 0 <= j < |list| && list[j] == e; }
    }
  }

  lemma OnlyFirst(list: seq<ElemData>, x: ElemData)
    requires NoDup(list) && Present(list, x)
    ensures forall j :: 0 <= j < |list| && j != FirstEq(CmpElem, list, x) ==> CmpElem(list[j], x) != 0
  {
    var i := FirstEq(CmpElem, list, x);
    forall j | i < j < |list| ensures CmpElem(list[j], x) != 0 {
      assert CmpElem(list[i], list[j]) != 0;
    }
  }

  /** Replacing keeps every position and every other element. */
  lemma ReplacedMembers(list: seq<ElemData>, x: ElemData)
    requires NoDup(list) && Present(list, x)
    ensures var r := ReplaceFirst(CmpElem, list, x);
            && NoDup(r) && (forall e :: e in r <==> e == x || (e in list && CmpElem(e, x) != 0))
            && |r| == |list|
            && forall j :: 0 <= j < |list| ==> r[j] == if CmpElem(list[j], x) == 0 then x else list[j]
  {
    var i := FirstEq(CmpElem, list, x);
    var r := list[i := x];
    OnlyFirst(list, x);
    forall e ensures e in r <==> e == x || (e in list && CmpElem(e, x) != 0) {
      if e in r { var j :| 0 <= j < |r| && r[j] == e; }
      if e in list && CmpElem(e, x) != 0 { var j :| 0 <= j < |list| && list[j] == e; assert r[j] == e; }
      assert r[i] == x;
    }
  }

  lemma AppendedMembers(list: seq<ElemData>, x: ElemData)
    requires NoDup(list)
    ensures NoDup(list + [x]) <==> !Present(list, x)
    ensures forall e :: e in list + [x] <==> e in list || e == x
    ensures !Present(list, x) ==> forall e :: e in list ==> CmpElem(e, x) != 0
  {
    var r, i := list + [x], FirstEq(CmpElem, list, x);
    if i < |list| {
      assert CmpElem(r[i], r[|list|]) == 0;
    } else {
      forall e | e in list ensures CmpElem(e, x) != 0 { var j :| 0 <= j < |list| && list[j] == e; }
    }
  }

  lemma ListMembers(list: seq<ElemData>, d: ElemDef)
    requires NoDup(list)
    ensures var r, x, op := ListAfter(list, d), Data(d), d.op % 256;
            && (NoDup(r) <==> op != CW_APPEND || !Present(list, x))
            && (op == CW_DELETE ==> forall e :: e in r <==> e in list && CmpElem(e, x) != 0)
            && (op != CW_DELETE && op != CW_IGNORE && NoDup(r) ==>
                  forall e :: e in r <==> e == x || (e in list && CmpElem(e, x) != 0))
  {
    var x := Data(d);
    DeletedMembers(list, x);
    AppendedMembers(list, x);
    if Present(list, x) { ReplacedMembers(list, x); }
  }

  lemma TreeMembers(tree: seq<ElemData>, d: ElemDef)
    requires Mavl.Sorted(CmpElem, tree)
    ensures var r, x := TreeAfter(tree, d), Data(d);
            && Mavl.Sorted(CmpElem, r)
            && forall e :: e in r <==> (e == x && d.op % 256 != CW_DELETE) || (e in tree && CmpElem(e, x) != 0)
  {
    Orders();
    Mavl.ReplaceKeeps(CmpElem, AnyElem, tree, Data(d));
    Mavl.DelKeeps(CmpElem, AnyElem, tree, Data(d));
  }

  /** One definition keeps list and tree in step exactly when it does not append an element that
      is there, and ignores only what is there with the same mand flag. */
  lemma StepAgrees(list: seq<ElemData>, tree: seq<ElemData>, d: ElemDef, handlers: seq<Handler>)
    requires Agree(list, tree) && HandlerOf(handlers, d.proto, d.vendor, d.id).Some?
    ensures var r := Apply(list, tree, d, handlers); Agree(r.0, r.1) <==> KeepsStep(list, d)
  {
    ListMembers(list, d);
    TreeMembers(tree, d);
    var x := Data(d);
    if d.op % 256 == CW_IGNORE {
      assert x in TreeAfter(tree, d);
      if x in list {
        forall e | e in list && e != x ensures CmpElem(e, x) != 0 { OneElem(list, e, x); }
      }
    }
  }

  lemma OneElem(list: seq<ElemData>, a: ElemData, b: ElemData)
    requires NoDup(list) && a in list && b in list && a != b
    ensures CmpElem(a, b) != 0
  {
    var i :| 0 <= i < |list| && list[i] == a;
    var j :| 0 <= j < |list| && list[j] == b;
    assert if i < j then CmpElem(list[i], list[j]) != 0 else CmpElem(list[j], list[i]) != 0;
  }

  /** Every definition of a layer keeps step where it is applied, or has no handler. */
  ghost predicate AllKeepStep(list: seq<ElemData>, tree: seq<ElemData>, defs: seq<ElemDef>, i: nat,
                              handlers: seq<Handler>)
    requires i <= |defs|
    decreases |defs| - i
  {
    i == |defs| || defs[i].id == 0 ||
    var d := defs[i];
    var r := Apply(list, tree, d, handlers);
    && (HandlerOf(handlers, d.proto, d.vendor, d.id) == None || KeepsStep(list, d))
    && AllKeepStep(r.0, r.1, defs, i + 1, handlers)
  }

  /** After a whole layer of such definitions the two still hold the same elements. */
  lemma {:induction false} LayerAgrees(list: seq<ElemData>, tree: seq<ElemData>, defs: seq<ElemDef>, i: nat,
                                       handlers: seq<Handler>)
    requires i <= |defs| && Agree(list, tree) && AllKeepStep(list, tree, defs, i, handlers)
    ensures var r := ApplyAll(list, tree, defs, i, handlers); Agree(r.0, r.1)
    decreases |defs| - i
  {
    if i < |defs| && defs[i].id != 0 {
      var d := defs[i];
      var r := Apply(list, tree, d, handlers);
      if HandlerOf(handlers, d.proto, d.vendor, d.id).Some? {
        StepAgrees(list, tree, d, handlers);
      }
      LayerAgrees(r.0, r.1, defs, i + 1, handlers);
    }
  }

  /** Layers of nothing but replacements and deletions are always such. */
  lemma {:induction false} ReplaceAndDeleteAgree(list: seq<ElemData>, tree: seq<ElemData>, defs: seq<ElemDef>, i: nat,
                                                 handlers: seq<Handler>)
    requires i <= |defs| && Agree(list, tree)
    requires forall d :: d in defs ==> d.op % 256 != CW_APPEND && d.op % 256 != CW_IGNORE
    ensures var r := ApplyAll(list, tree, defs, i, handlers); Agree(r.0, r.1)
    decreases |defs| - i
  {
    if i < |defs| && defs[i].id != 0 {
      var d := defs[i];
      var r := Apply(list, tree, d, handlers);
      if HandlerOf(handlers, d.proto, d.vendor, d.id).Some? {
        StepAgrees(list, tree, d, handlers);
      }
      ReplaceAndDeleteAgree(r.0, r.1, defs, i + 1, handlers);
    }
  }

  // ----- mandatory keys -----

  function KeyOf(e: ElemData, handlers: seq<Handler>): string
    requires HandlerOf(handlers, e.proto, e.vendor, e.id).Some?
  {
    HandlerOf(handlers, e.proto, e.vendor, e.id).value.key
  }

  ghost predicate IsMandKey(tree: seq<ElemData>, handlers: seq<Handler>, k: string)
    requires Handled(tree, handlers)
  {
    exists e :: e in tree && e.mand != 0 && KeyOf(e, handlers) == k
  }

  lemma {:induction false} MandKeysAre(tree: seq<ElemData>, handlers: seq<Handler>)
    requires Handled(tree, handlers)
    ensures forall k :: k in MandKeys(tree, handlers) <==> IsMandKey(tree, handlers, k)
  {
    if tree != [] {
      MandKeysAre(tree[1..], handlers);
      forall k ensures k in MandKeys(tree, handlers) <==> IsMandKey(tree, handlers, k) {
        assert IsMandKey(tree, handlers, k) <==>
               (tree[0].mand != 0 && KeyOf(tree[0], handlers) == k) || IsMandKey(tree[1..], handlers, k);
      }
    }
  }

  /** The mandatory keys are exactly the handler keys of the mandatory elements of the list. */
  lemma MandKeysOfList(list: seq<ElemData>, tree: seq<ElemData>, handlers: seq<Handler>, k: string)
    requires Agree(list, tree) && Handled(tree, handlers)
    ensures k in MandKeys(tree, handlers) <==>
            exists e :: e in list && e.mand != 0 && e in tree && KeyOf(e, handlers) == k
  {
    MandKeysAre(tree, handlers);
  }

  // ----- cw_msgset_add -----

  datatype MsgDef = MsgDef(msgType: int, elements: seq<ElemDef>)

  /** The parts of a message record that matter here. */
  datatype Msg = Msg(list: seq<ElemData>, tree: seq<ElemData>, mandKeys: seq<string>)

  const NEW_MSG := Msg([], [], [])

  function UpdateMsg(m: Msg, defs: seq<ElemDef>, handlers: seq<Handler>): Msg
    requires Handled(m.tree, handlers)
  {
    var r := ApplyAll(m.list, m.tree, defs, 0, handlers);
    StaysHandled(m.list, m.tree, defs, 0, handlers);
    Msg(r.0, r.1, MandKeys(r.1, handlers))
  }

  lemma {:induction false} StaysHandled(list: seq<ElemData>, tree: seq<ElemData>, defs: seq<ElemDef>, i: nat,
                                        handlers: seq<Handler>)
    requires i <= |defs| && Handled(tree, handlers)
    ensures Handled(ApplyAll(list, tree, defs, i, handlers).1, handlers)
    decreases |defs| - i
  {
    if i < |defs| && defs[i].id != 0 {
      var d := defs[i];
      var r := Apply(list, tree, d, handlers);
      if HandlerOf(handlers, d.proto, d.vendor, d.id).Some? { TreeStep(tree, d, handlers); }
      StaysHandled(r.0, r.1, defs, i + 1, handlers);
    }
  }

  /** Later handlers replace earlier ones with the same ids; none goes away. */
  function AddHandlers(handlers: seq<Handler>, more: seq<Handler>, i: nat): seq<Handler>
    requires i <= |more|
    decreases |more| - i
  {
    if i == |more| || more[i].id == 0 then handlers
    else AddHandlers(Mavl.Replace(CmpHandler, handlers, more[i]), more, i + 1)
  }

  lemma ReplacedHandlerStays(handlers: seq<Handler>, h: Handler, proto: int, vendor: int, id: int)
    requires Mavl.Sorted(CmpHandler, handlers)
    ensures var hs := Mavl.Replace(CmpHandler, handlers, h);
            && Mavl.Sorted(CmpHandler, hs)
            && (HandlerOf(handlers, proto, vendor, id).Some? ==> HandlerOf(hs, proto, vendor, id).Some?)
  {
    var x := Handler(proto, vendor, id, "");
    Orders();
    Mavl.ReplaceKeeps(CmpHandler, AnyHandler, handlers, h);
    if Mavl.Has(CmpHandler, handlers, x) {
      Mavl.ReplaceStillHas(CmpHandler, AnyHandler, handlers, h, x);
    }
  }

  lemma {:induction false} HandlersStay(handlers: seq<Handler>, more: seq<Handler>, i: nat,
                                        proto: int, vendor: int, id: int)
    requires i <= |more| && Mavl.Sorted(CmpHandler, handlers)
    ensures Mavl.Sorted(CmpHandler, AddHandlers(handlers, more, i))
    ensures HandlerOf(handlers, proto, vendor, id).Some? ==>
            HandlerOf(AddHandlers(handlers, more, i), proto, vendor, id).Some?
    decreases |more| - i
  {
    if i < |more| && more[i].id != 0 {
      ReplacedHandlerStays(handlers, more[i], proto, vendor, id);
      HandlersStay(Mavl.Replace(CmpHandler, handlers, more[i]), more, i + 1, proto, vendor, id);
    }
  }

  /** Two handler tables give a tree the same mandatory keys exactly when no mandatory element
      changed its key: so the keys kept for a message that a later layer does not mention go stale
      exactly when that layer renames the handler of one of its mandatory elements. */
  lemma {:induction false} KeysStale(tree: seq<ElemData>, h1: seq<Handler>, h2: seq<Handler>)
    requires Handled(tree, h1) && Handled(tree, h2)
    ensures |MandKeys(tree, h1)| == |MandKeys(tree, h2)|
    ensures MandKeys(tree, h1) == MandKeys(tree, h2) <==>
            forall e :: e in tree && e.mand != 0 ==> KeyOf(e, h1) == KeyOf(e, h2)
  {
    if tree != [] {
      var e, rest := tree[0], tree[1..];
      KeysStale(rest, h1, h2);
      var k1, k2 := MandKeys(rest, h1), MandKeys(rest, h2);
      assert forall x :: x in tree <==> x == e || x in rest;
      if e.mand != 0 {
        assert ([KeyOf(e, h1)] + k1)[0] == KeyOf(e, h1) && ([KeyOf(e, h1)] + k1)[1..] == k1;
        assert ([KeyOf(e, h2)] + k2)[0] == KeyOf(e, h2) && ([KeyOf(e, h2)] + k2)[1..] == k2;
      } else {
        assert [] + k1 == k1 && [] + k2 == k2;
      }
    }
  }

  ghost predicate AllHandled(msgs: map<int, Msg>, handlers: seq<Handler>)
  {
    forall t :: t in msgs ==> Handled(msgs[t].tree, handlers)
  }

  /** One message definition: the record is created if need be, and updated. */
  function AddMsg(msgs: map<int, Msg>, d: MsgDef, handlers: seq<Handler>): (r: map<int, Msg>)
    requires AllHandled(msgs, handlers)
    ensures AllHandled(r, handlers)
  {
    var m := if d.msgType in msgs then msgs[d.msgType] else NEW_MSG;
    StaysHandled(m.list, m.tree, d.elements, 0, handlers);
    msgs[d.msgType := UpdateMsg(m, d.elements, handlers)]
  }

  /** All message definitions from `i` up to the terminating one with type 0. */
  function AddMsgs(msgs: map<int, Msg>, defs: seq<MsgDef>, i: nat, handlers: seq<Handler>): (r: map<int, Msg>)
    requires i <= |defs| && AllHandled(msgs, handlers)
    ensures AllHandled(r, handlers)
    decreases |defs| - i
  {
    if i == |defs| || defs[i].msgType == 0 then msgs
    else AddMsgs(AddMsg(msgs, defs[i], handlers), defs, i + 1, handlers)
  }

  /** The message set; message records as values. */
  class Set {
    var handlersById: seq<Handler>
    var msgdata: map<int, Msg>

    ghost predicate Valid()
      reads this
    {
      Mavl.Sorted(CmpHandler, handlersById) && AllHandled(msgdata, handlersById)
    }

    constructor ()
      ensures Valid() && handlersById == [] && msgdata == map[]
    {
      handlersById, msgdata := [], map[];
    }

    /** cw_msgset_add */
    method CwMsgsetAdd(messages: seq<MsgDef>, handlers: seq<Handler>)
      requires Valid()
      modifies this
      ensures Valid()
      ensures handlersById == AddHandlers(old(handlersById), handlers, 0)
      ensures AllHandled(old(msgdata), handlersById)
      ensures msgdata == AddMsgs(old(msgdata), messages, 0, handlersById)
    {
      LoadHandlers(handlers);
      UpdateMessages(messages);
    }

    /** Its second loop. */
    method UpdateMessages(messages: seq<MsgDef>)
      requires AllHandled(msgdata, handlersById)
      modifies this`msgdata
      ensures AllHandled(msgdata, handlersById)
      ensures msgdata == AddMsgs(old(msgdata), messages, 0, handlersById)
    {
      var i := 0;
      ghost var all := AddMsgs(msgdata, messages, 0, handlersById);
      while i < |messages| && messages[i].msgType != 0
        invariant i <= |messages| && AllHandled(msgdata, handlersById)
        invariant all == AddMsgs(msgdata, messages, i, handlersById)
      {
        msgdata := AddMsg(msgdata, messages[i], handlersById);
        i := i + 1;
      }
    }

    /** Its first loop. */
    method LoadHandlers(handlers: seq<Handler>)
      requires Valid()
      modifies this`handlersById
      ensures Valid() && handlersById == AddHandlers(old(handlersById), handlers, 0)
    {
      ghost var before := handlersById;
      ReplaceHandlers(handlers);
      forall t, e | t in msgdata && e in msgdata[t].tree
        ensures HandlerOf(handlersById, e.proto, e.vendor, e.id).Some?
      {
        HandlersStay(before, handlers, 0, e.proto, e.vendor, e.id);
      }
      HandlersStay(before, handlers, 0, 0, 0, 0);
    }

    method ReplaceHandlers(handlers: seq<Handler>)
      modifies this`handlersById
      ensures handlersById == AddHandlers(old(handlersById), handlers, 0)
    {
      var i := 0;
      while i < |handlers| && handlers[i].id != 0
        invariant i <= |handlers|
        invariant AddHandlers(old(handlersById), handlers, 0) == AddHandlers(handlersById, handlers, i)
      {
        handlersById := Mavl.Replace(CmpHandler, handlersById, handlers[i]);
        i := i + 1;
      }
    }
  }

  ghost predicate Mentioned(defs: seq<MsgDef>, i: nat, t: int)
  {
    exists j :: i <= j < |defs| && defs[j].msgType == t
  }

  /** After an add, the messages it mentions have exactly the keys of their mandatory elements under
      the handlers known then; the others keep element list, tree and keys unchanged. */
  lemma {:induction false} AddedKeys(msgs: map<int, Msg>, defs: seq<MsgDef>, i: nat, handlers: seq<Handler>, t: int)
    requires i <= |defs| && AllHandled(msgs, handlers) && forall d :: d in defs ==> d.msgType != 0
    ensures var r := AddMsgs(msgs, defs, i, handlers);
            if Mentioned(defs, i, t) then t in r && r[t].mandKeys == MandKeys(r[t].tree, handlers)
            else (t in r <==> t in msgs) && (t in msgs ==> r[t] == msgs[t])
    decreases |defs| - i
  {
    if i < |defs| {
      AddedKeys(AddMsg(msgs, defs[i], handlers), defs, i + 1, handlers, t);
      assert Mentioned(defs, i, t) <==> defs[i].msgType == t || Mentioned(defs, i + 1, t);
    }
  }
}
