/**
 The message definitions of a message set and the elements that are sent and received under them: the
 keys that a message record keeps are those that the check for missing elements needs.
 */
module ElementsDefined {
  import opened Prelude
  import opened Elements
  import opened ElementsRoundTrip
  import opened ElementsMandatory
  import MsgSet
  import MsgSetAgree

  /** The numbers of a CAPWAP element in the ranges that they have on the wire. */
  predicate OnTheWire(e: MsgSet.ElemData) { e.proto == 0 && 0 <= e.vendor < 0x1_0000_0000 && 0 <= e.id < 0x1_0000 }

  predicate AllOnTheWire(list: seq<MsgSet.ElemData>) { forall e :: e in list ==> OnTheWire(e) }

  function ItemOf(e: MsgSet.ElemData): Item
    requires OnTheWire(e)
  {
    Item(Id(e.vendor, e.id), e.mand != 0)
  }

  function Items(list: seq<MsgSet.ElemData>): (r: seq<Item>)
    requires AllOnTheWire(list)
    ensures |r| == |list|
  {
    seq(|list|, i requires 0 <= i < |list| => ItemOf(list[i]))
  }

  /** The sender's table of handlers is that of the message set. */
  ghost predicate Describes(handlers: seq<MsgSet.Handler>, t: Table)
  {
    forall at: Id ::
      match MsgSet.HandlerOf(handlers, 0, at.vendor, at.id)
      case Some(h) => at in t && t[at].key == h.key
      case None => at !in t
  }

  lemma ItemsIn(list: seq<MsgSet.ElemData>, it: Item)
    requires AllOnTheWire(list)
    ensures it in Items(list) <==> exists e :: e in list && ItemOf(e) == it
  {
    if it in Items(list) {
      var i :| 0 <= i < |list| && Items(list)[i] == it;
      assert list[i] in list && ItemOf(list[i]) == it;
    }
    if e :| e in list && ItemOf(e) == it {
      var i :| 0 <= i < |list| && list[i] == e;
      assert Items(list)[i] == it;
    }
  }

  /** Where list and tree agree, the keys of a message record are those of its mandatory elements. */
  lemma KeysAreKept(list: seq<MsgSet.ElemData>, tree: seq<MsgSet.ElemData>, handlers: seq<MsgSet.Handler>, s: Sender)
    requires AllOnTheWire(list) && MsgSetAgree.Agree(list, tree) && MsgSet.Handled(tree, handlers)
    requires Describes(handlers, s.t)
    ensures KeysOf(s, Items(list), MsgSet.MandKeys(tree, handlers))
  {
    var items := Items(list);
    forall k
      ensures k in MsgSet.MandKeys(tree, handlers) <==> exists it :: Mandatory(s, items, it) && KeyOf(s, it) == k
    {
      MsgSetAgree.MandKeysOfList(list, tree, handlers, k);
      if e :| e in list && e.mand != 0 && e in tree && MsgSetAgree.KeyOf(e, handlers) == k {
        ItemsIn(list, ItemOf(e));
        assert Mandatory(s, items, ItemOf(e)) && KeyOf(s, ItemOf(e)) == k;
      }
      if it :| Mandatory(s, items, it) && KeyOf(s, it) == k {
        ItemsIn(list, it);
        var e :| e in list && ItemOf(e) == it;
        assert e in tree && MsgSetAgree.KeyOf(e, handlers) == k;
      }
    }
  }

  /** For a message defined by one layer that keeps list and tree in step, encoded, and decoded by a
      receiver who takes all of it: nothing is reported missing exactly when for every mandatory element
      of the definition one with the same key was sent. */
  lemma DefinedMessage(defs: seq<MsgSet.ElemDef>, handlers: seq<MsgSet.Handler>, s: Sender, allowed: map<Id, bool>,
                       mem: Memory, at: nat)
    requires Describes(handlers, s.t) && MsgSetAgree.AllKeepStep([], [], defs, 0, handlers)
    requires AllOnTheWire(MsgSetAgree.UpdateMsg(MsgSetAgree.NEW_MSG, defs, handlers).list)
    requires var list := Items(MsgSetAgree.UpdateMsg(MsgSetAgree.NEW_MSG, defs, handlers).list);
             AllFit(s, list) && AllAccepted(s, allowed, list) && Holds(mem, at, Encoded(s, list))
    ensures var m := MsgSetAgree.UpdateMsg(MsgSetAgree.NEW_MSG, defs, handlers);
            |Missing(m.mandKeys, SeenMand(s, allowed, mem, at, Items(m.list)))| == 0 <==>
            forall it :: Mandatory(s, Items(m.list), it) ==> KeySent(s, Items(m.list), it)
  {
    var m := MsgSetAgree.UpdateMsg(MsgSetAgree.NEW_MSG, defs, handlers);
    MsgSetAgree.LayerAgrees([], [], defs, 0, handlers);
    MsgSetAgree.StaysHandled([], [], defs, 0, handlers);
    KeysAreKept(m.list, m.tree, handlers, s);
    NoneMissingExactly(s, allowed, mem, at, Items(m.list), m.mandKeys);
  }
}
