/**
 What the decoding walk reports: the return code for an element, and the places of those that are not
 recognized.
 */
module ElementsReported {
  import opened Prelude
  import opened Elements
  import opened ElementsRoundTrip
  import opened ElementsSeen

  /** An element that the message does not have or nobody can handle, or that has nobody to take it. */
  predicate Strange(t: Table, allowed: map<Id, bool>, at: Id, len: int)
  {
    !(at in t && at in allowed)
    || (t[at].minLen <= len && (t[at].maxLen == 0 || len <= t[at].maxLen) && t[at].get == NoGet)
  }

  /** What cw_decode_element returns: 21 for such an element, -1 for one that is too short or too long, 1 for
      a wrapped one that somebody can handle, be it accepted or not, and otherwise 0. */
  lemma ReturnCode(t: Table, allowed: map<Id, bool>, mem: Memory, at: Id, off: nat, len: int, d: Found)
    ensures var rc := DecodeOne(t, allowed, mem, at, off, len, d).1;
            if Strange(t, allowed, at, len) then rc == 21
            else if len < t[at].minLen || (t[at].maxLen != 0 && len > t[at].maxLen) then rc == -1
            else if t[at].get == VendorPayload && Id(ReadU32(mem, off), ReadU16(mem, off + 4)) in t then rc == 1
            else rc == 0
  {
  }

  /** Where the elements begin that the walk visits. */
  function Starts(mem: Memory, i: nat, end: int): (r: seq<nat>)
    ensures |r| == |Seen(mem, i, end)| && forall j :: 0 <= j < |r| ==> r[j] >= i
    decreases end - i
  {
    if i >= end then [] else [i] + Starts(mem, i + 4 + ReadU16(mem, i + 2), end)
  }

  predicate StrangeAt(t: Table, allowed: map<Id, bool>, starts: seq<nat>, seen: seq<Elem>, j: nat, p: nat)
    requires |starts| == |seen|
  {
    j < |seen| && starts[j] == p && Strange(t, allowed, Id(0, seen[j].id), |seen[j].data|)
  }

  ghost predicate StrangeIn(t: Table, allowed: map<Id, bool>, starts: seq<nat>, seen: seq<Elem>, p: nat)
    requires |starts| == |seen|
  {
    exists j: nat :: StrangeAt(t, allowed, starts, seen, j, p)
  }

  lemma DecodeAtIs(t: Table, allowed: map<Id, bool>, mem: Memory, i: nat, d: Found)
    ensures DecodeAt(t, allowed, mem, i, d).unrecognized ==
            d.unrecognized + if Strange(t, allowed, Id(0, ReadU16(mem, i)), ReadU16(mem, i + 2)) then [i] else []
  {
    var at, len := Id(0, ReadU16(mem, i)), ReadU16(mem, i + 2);
    ReturnCode(t, allowed, mem, at, i + 4, len, d);
    OnlyTopLevel(t, allowed, mem, at, i + 4, len, d);
    assert d.unrecognized + [] == d.unrecognized;
  }

  lemma {:induction false} OnlyTopLevel(t: Table, allowed: map<Id, bool>, mem: Memory, at: Id, off: nat, len: int,
                                        d: Found)
    ensures DecodeOne(t, allowed, mem, at, off, len, d).0.unrecognized == d.unrecognized
    decreases len
  {
    if Known(t, allowed, at) && len >= t[at].minLen {
      var d1 := if allowed[at] then d.(mand := d.mand + {t[at].key}) else d;
      OnlyTopLevel(t, allowed, mem, Id(ReadU32(mem, off), ReadU16(mem, off + 4)), off + 6, len - 6, d1);
    }
  }

  /** Over any bytes the places reported as unrecognized are, in order and each once, those where such an
      element begins, wrapped ones not counted. */
  lemma {:induction false} UnrecognizedExactly(t: Table, allowed: map<Id, bool>, mem: Memory, i: nat, end: int,
                                               d: Found) returns (more: seq<nat>)
    ensures DecodeAll(t, allowed, mem, i, end, d).unrecognized == d.unrecognized + more
    ensures forall j, k :: 0 <= j < k < |more| ==> more[j] < more[k]
    ensures forall p :: p in more <==> StrangeIn(t, allowed, Starts(mem, i, end), Seen(mem, i, end), p)
    decreases end - i
  {
    more := [];
    if i < end {
      var e, next := ElemAt(mem, i), i + 4 + ReadU16(mem, i + 2);
      var later := UnrecognizedExactly(t, allowed, mem, next, end, DecodeAt(t, allowed, mem, i, d));
      var first := if Strange(t, allowed, Id(0, e.id), |e.data|) then [i] else [];
      OneDecoded(t, allowed, mem, i, end, d);
      DecodeAtIs(t, allowed, mem, i, d);
      more := first + later;
      assert d.unrecognized + first + later == d.unrecognized + (first + later);
      StartsCons(mem, i, end);
      StrangeBefore(t, allowed, i, Starts(mem, next, end), e, Seen(mem, next, end), later);
    }
  }

  lemma StartsCons(mem: Memory, i: nat, end: int)
    requires i < end
    ensures var next := i + 4 + ReadU16(mem, i + 2);
            Starts(mem, i, end) == [i] + Starts(mem, next, end)
            && Seen(mem, i, end) == [ElemAt(mem, i)] + Seen(mem, next, end)
  {
  }

  lemma StrangeBefore(t: Table, allowed: map<Id, bool>, i: nat, starts: seq<nat>, e: Elem, seen: seq<Elem>,
                      later: seq<nat>)
    requires |starts| == |seen| && forall j :: 0 <= j < |starts| ==> starts[j] > i
    requires forall p :: p in later <==> StrangeIn(t, allowed, starts, seen, p)
    requires forall j, k :: 0 <= j < k < |later| ==> later[j] < later[k]
    ensures var more := (if Strange(t, allowed, Id(0, e.id), |e.data|) then [i] else []) + later;
            && (forall j, k :: 0 <= j < k < |more| ==> more[j] < more[k])
            && forall p :: p in more <==> StrangeIn(t, allowed, [i] + starts, [e] + seen, p)
  {
    var first := if Strange(t, allowed, Id(0, e.id), |e.data|) then [i] else [];
    forall p ensures p in first + later <==> StrangeIn(t, allowed, [i] + starts, [e] + seen, p) {
      StrangeFirst(t, allowed, i, starts, e, seen, p);
    }
    forall k | 0 <= k < |later| ensures later[k] > i {
      assert later[k] in later && StrangeIn(t, allowed, starts, seen, later[k]);
      var j: nat :| StrangeAt(t, allowed, starts, seen, j, later[k]);
    }
    Increasing(first, later, i);
  }

  lemma Increasing(first: seq<nat>, later: seq<nat>, i: nat)
    requires first == [] || first == [i]
    requires forall j, k :: 0 <= j < k < |later| ==> later[j] < later[k]
    requires forall k :: 0 <= k < |later| ==> later[k] > i
    ensures var all := first + later; forall j, k :: 0 <= j < k < |all| ==> all[j] < all[k]
  {
  }

  lemma StrangeFirst(t: Table, allowed: map<Id, bool>, i: nat, starts: seq<nat>, e: Elem, seen: seq<Elem>, p: nat)
    requires |starts| == |seen|
    ensures StrangeIn(t, allowed, [i] + starts, [e] + seen, p) <==>
            (p == i && Strange(t, allowed, Id(0, e.id), |e.data|)) || StrangeIn(t, allowed, starts, seen, p)
  {
    var all, elems := [i] + starts, [e] + seen;
    assert StrangeAt(t, allowed, all, elems, 0, p) <==> p == i && Strange(t, allowed, Id(0, e.id), |e.data|);
    if j: nat :| StrangeAt(t, allowed, starts, seen, j, p) {
      assert StrangeAt(t, allowed, all, elems, j + 1, p);
    }
    if j: nat :| StrangeAt(t, allowed, all, elems, j, p) && j > 0 {
      assert StrangeAt(t, allowed, starts, seen, j - 1, p);
    }
  }
}
