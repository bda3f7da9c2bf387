/** The doubly linked list: nodes rewired in place, specified by the sequence of its data. */
module MList {
  // ----- on sequences -----

  /** Index of the first element equal to `x`, or the length. */
  function FirstEq<T>(cmp: (T, T) -> int, s: seq<T>, x: T): (i: nat)
    ensures i <= |s|
    ensures i < |s| ==> cmp(s[i], x) == 0
    ensures forall j :: 0 <= j < i ==> cmp(s[j], x) != 0
  {
    if s == [] || cmp(s[0], x) == 0 then 0 else FirstEq(cmp, s[1..], x) + 1
  }

  function DeleteFirst<T>(cmp: (T, T) -> int, s: seq<T>, x: T): seq<T>
  {
    var i := FirstEq(cmp, s, x);
    if i < |s| then s[..i] + s[i + 1..] else s
  }

  function ReplaceFirst<T>(cmp: (T, T) -> int, s: seq<T>, x: T): seq<T>
  {
    var i := FirstEq(cmp, s, x);
    if i < |s| then s[i := x] else s
  }

  // ----- linked -----

  class Node<T> {
    var next: Node?<T>
    var prev: Node?<T>
    var data: T

    constructor (data: T)
      ensures this.data == data && next == null && prev == null
    {
      this.data := data;
      next, prev := null, null;
    }
  }

  class List<T> {
    const cmp: (T, T) -> int
    var first: Node?<T>
    var last: Node?<T>
    var count: int
    ghost var nodes: seq<Node<T>>
    ghost var contents: seq<T>
    ghost var Repr: set<Node<T>>

    /** The list is linked through `nodes` in both directions, ends there, and holds `contents`. */
    ghost predicate Valid()
      reads this, Repr
    {
      && (forall i :: 0 <= i < |nodes| ==> nodes[i] in Repr)
      && count == |nodes| == |contents|
      && (forall i, j :: 0 <= i < j < |nodes| ==> nodes[i] != nodes[j])
      && (if nodes == [] then first == null && last == null
          else && first == nodes[0] && first.prev == null
               && last == nodes[|nodes| - 1] && last.next == null)
      && (forall i {:trigger nodes[i].next} :: 0 <= i < |nodes| - 1 ==> nodes[i].next == nodes[i + 1])
      && (forall i {:trigger nodes[i].prev} :: 1 <= i < |nodes| ==> nodes[i].prev == nodes[i - 1])
      && (forall i {:trigger nodes[i].data} :: 0 <= i < |nodes| ==> nodes[i].data == contents[i])
    }

    /** mlist_create */
    constructor (cmp: (T, T) -> int)
      ensures Valid() && contents == [] && this.cmp == cmp && Repr == {}
    {
      this.cmp := cmp;
      first, last, count, nodes, contents, Repr := null, null, 0, [], [], {};
    }

    /** mlist_append */
    method Append(data: T)
      requires Valid()
      modifies this, Repr
      ensures Valid() && fresh(Repr - old(Repr)) && contents == old(contents) + [data]
    {
      var e := new Node(data);
      if first == null {
        first, last := e, e;
      } else {
        last.next := e;
        e.prev := last;
        last := e;
      }
      count := count + 1;
      nodes, Repr := nodes + [e], Repr + {e};
      contents := contents + [data];
    }

    /** mlist_get: the first node whose data equals `data`. */
    method Get(data: T) returns (e: Node?<T>, ghost i: nat)
      requires Valid()
      ensures i == FirstEq(cmp, contents, data)
      ensures if i < |nodes| then e == nodes[i] else e == null
    {
      e, i := first, 0;
      while e != null && cmp(e.data, data) != 0
        invariant i <= |nodes| && (if i < |nodes| then e == nodes[i] else e == null)
        invariant forall j :: 0 <= j < i ==> cmp(contents[j], data) != 0
        decreases |nodes| - i
      {
        assert cmp(contents[i], data) != 0;
        e := e.next;
        i := i + 1;
      }
    }

    /** mlist_replace: overwrite the first equal element, if there is one. */
    method Replace(data: T) returns (found: bool)
      requires Valid()
      modifies this`contents, Repr
      ensures Valid() && contents == ReplaceFirst(cmp, old(contents), data)
      ensures found <==> FirstEq(cmp, old(contents), data) < |old(contents)|
    {
      var e, i := Get(data);
      if e == null {
        return false;
      }
      e.data := data;
      contents := contents[i := data];
      return true;
    }

    /** mlist_delete: unlink the first equal element. */
    method Delete(data: T)
      requires Valid()
      modifies this, Repr
      ensures Valid() && Repr == old(Repr) && contents == DeleteFirst(cmp, old(contents), data)
    {
      var e, i := Get(data);
      if e != null {
        Unlink(e, i);
      }
    }

    /** The four ways out of mlist_delete: only node, first, last, inner. */
    method Unlink(e: Node<T>, ghost i: nat)
      requires Valid() && i < |nodes| && nodes[i] == e
      modifies this, Repr
      ensures Valid() && Repr == old(Repr)
      ensures contents == old(contents)[..i] + old(contents)[i + 1..]
    {
      if e.prev == null && e.next == null {
        count := 0;
        first, last := null, null;
        nodes, contents := [], [];
      } else if e == first {
        UnlinkFirst();
      } else if e == last {
        UnlinkLast();
      } else {
        UnlinkInner(e, i);
      }
    }

    method UnlinkInner(e: Node<T>, ghost i: nat)
      requires Valid() && 0 < i < |nodes| - 1 && nodes[i] == e
      modifies this, Repr
      ensures Valid() && Repr == old(Repr)
      ensures contents == old(contents)[..i] + old(contents)[i + 1..]
    {
      assert nodes[i].next == nodes[i + 1] && nodes[i].prev == nodes[i - 1];
      e.next.prev := e.prev;
      e.prev.next := e.next;
      count := count - 1;
      nodes := nodes[..i] + nodes[i + 1..];
      contents := contents[..i] + contents[i + 1..];
    }

    method UnlinkFirst()
      requires Valid() && |nodes| > 1
      modifies this, Repr
      ensures Valid() && Repr == old(Repr) && contents == old(contents)[1..]
    {
      first := first.next;
      first.prev := null;
      count := count - 1;
      nodes, contents := nodes[1..], contents[1..];
    }

    method UnlinkLast()
      requires Valid() && |nodes| > 1
      modifies this, Repr
      ensures Valid() && Repr == old(Repr) && contents == old(contents)[..|old(contents)| - 1]
    {
      last := last.prev;
      last.next := null;
      count := count - 1;
      nodes, contents := nodes[..|nodes| - 1], contents[..|contents| - 1];
    }
  }
}
