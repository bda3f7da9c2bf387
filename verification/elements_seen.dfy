/**
 What decoding depends on. The walk passes every element on with the length it claims, also the last
 one, which may claim more than is left; so the result is a function of the elements as they stand in
 memory, and of the packet alone exactly when no element reaches beyond its end.
 */
module ElementsSeen {
  import opened Prelude
  import opened Elements
  import opened ElementsRoundTrip

  // ----- decoding as a function of the elements -----

  function Be16(s: seq<byte>, i: nat): word
    requires i + 2 <= |s|
  {
    var hi: int, lo: int := s[i], s[i + 1];
    hi * 256 + lo
  }

  function Be32(s: seq<byte>, i: nat): uint32
    requires i + 4 <= |s|
  {
    Be16(s, i) * 0x1_0000 + Be16(s, i + 2)
  }

  /** The element in a vendor specific payload. */
  function Inner(data: seq<byte>): Id
    requires |data| >= 6
  {
    Id(Be32(data, 0), Be16(data, 4))
  }

  predicate Known(t: Table, allowed: map<Id, bool>, at: Id) { at in t && at in allowed }

  /** What an element adds, and whether it is unrecognized. */
  function Treat(t: Table, allowed: map<Id, bool>, at: Id, data: seq<byte>, d: Found): (Found, bool)
    decreases |data|
  {
    if !Known(t, allowed, at) then (d, true)
    else if |data| < t[at].minLen then (d, false)
    else
      var h := t[at];
      var d1 := if allowed[at] then d.(mand := d.mand + {h.key}) else d;
      if |data| > h.maxLen && h.maxLen != 0 then (d1, false)
      else
        match h.get
        case NoGet => (d1, true)
        case Generic => (d1.(cfg := d1.cfg[h.key := data]), false)
        case VendorPayload =>
          (if |data| < 6 || Inner(data) !in t then d1 else Treat(t, allowed, Inner(data), data[6..], d1).0, false)
  }

  function TreatAt(t: Table, allowed: map<Id, bool>, e: Elem, i: nat, d: Found): Found
  {
    var (d1, unrecognized) := Treat(t, allowed, Id(0, e.id), e.data, d);
    if unrecognized then d1.(unrecognized := d1.unrecognized + [i]) else d1
  }

  function TreatAll(t: Table, allowed: map<Id, bool>, es: seq<Elem>, i: nat, d: Found): Found
    decreases |es|
  {
    if es == [] then d
    else TreatAll(t, allowed, es[1..], i + 4 + |es[0].data|, TreatAt(t, allowed, es[0], i, d))
  }

  lemma ReadsSlice(mem: Memory, off: nat, len: nat)
    requires len >= 6
    ensures Id(ReadU32(mem, off), ReadU16(mem, off + 4)) == Inner(Slice(mem, off, len))
    ensures Slice(mem, off, len)[6..] == Slice(mem, off + 6, len - 6)
  {
  }

  /** Bytes too few for a wrapped element add nothing, whatever stands behind them. */
  lemma NothingInside(t: Table, allowed: map<Id, bool>, mem: Memory, at: Id, off: nat, len: int, d: Found)
    requires len < 0
    ensures DecodeOne(t, allowed, mem, at, off, len, d).0 == d
  {
  }

  lemma {:induction false} DecodeOneTreats(t: Table, allowed: map<Id, bool>, mem: Memory, at: Id, off: nat, len: nat,
                                           d: Found)
    ensures var (r, rc) := DecodeOne(t, allowed, mem, at, off, len, d);
            (r, rc == UNRECOGNIZED_MESSAGE_ELEMENT) == Treat(t, allowed, at, Slice(mem, off, len), d)
    decreases len
  {
    if Known(t, allowed, at) && t[at].get == VendorPayload {
      var d1 := if allowed[at] then d.(mand := d.mand + {t[at].key}) else d;
      var inner := Id(ReadU32(mem, off), ReadU16(mem, off + 4));
      if len < 6 {
        NothingInside(t, allowed, mem, inner, off + 6, len - 6, d1);
      } else {
        ReadsSlice(mem, off, len);
        DecodeOneTreats(t, allowed, mem, inner, off + 6, len - 6, d1);
      }
    }
  }

  /** The element that stands at `i`. */
  function ElemAt(mem: Memory, i: nat): Elem { Elem(ReadU16(mem, i), Slice(mem, i + 4, ReadU16(mem, i + 2))) }

  lemma TreatsElemAt(t: Table, allowed: map<Id, bool>, mem: Memory, i: nat, d: Found)
    ensures DecodeAt(t, allowed, mem, i, d) == TreatAt(t, allowed, ElemAt(mem, i), i, d)
  {
    DecodeOneTreats(t, allowed, mem, Id(0, ReadU16(mem, i)), i + 4, ReadU16(mem, i + 2), d);
  }

  lemma TreatFirst(t: Table, allowed: map<Id, bool>, e: Elem, rest: seq<Elem>, i: nat, d: Found)
    ensures TreatAll(t, allowed, [e] + rest, i, d)
         == TreatAll(t, allowed, rest, i + 4 + |e.data|, TreatAt(t, allowed, e, i, d))
  {
    assert ([e] + rest)[1..] == rest;
  }

  /** The result is that of treating, one after the other, the elements the walk has seen. */
  lemma {:induction false} DecodeTreatsSeen(t: Table, allowed: map<Id, bool>, mem: Memory, i: nat, end: int, d: Found)
    ensures DecodeAll(t, allowed, mem, i, end, d) == TreatAll(t, allowed, Seen(mem, i, end), i, d)
    decreases end - i
  {
    if i < end {
      var e, next := ElemAt(mem, i), i + 4 + ReadU16(mem, i + 2);
      OneDecoded(t, allowed, mem, i, end, d);
      TreatsElemAt(t, allowed, mem, i, d);
      assert Seen(mem, i, end) == [e] + Seen(mem, next, end);
      TreatFirst(t, allowed, e, Seen(mem, next, end), i, d);
      DecodeTreatsSeen(t, allowed, mem, next, end, DecodeAt(t, allowed, mem, i, d));
    }
  }

  // ----- what the walk reads -----

  /** The packet as it was received, with whatever behind it. */
  ghost predicate SamePacket(m1: Memory, m2: Memory, at: nat, end: int)
  {
    forall i: nat :: at <= i < end ==> m1(i) == m2(i)
  }

  lemma SameRead(m1: Memory, m2: Memory, at: nat, end: int, off: nat, len: nat)
    requires SamePacket(m1, m2, at, end) && at <= off && off + len <= end
    ensures Slice(m1, off, len) == Slice(m2, off, len)
    ensures len >= 2 ==> ReadU16(m1, off) == ReadU16(m2, off)
    ensures len >= 4 ==> ReadU16(m1, off + 2) == ReadU16(m2, off + 2)
  {
    forall i | 0 <= i < len ensures Slice(m1, off, len)[i] == Slice(m2, off, len)[i] { }
    assert len >= 2 ==> m1(off) == m2(off) && m1(off + 1) == m2(off + 1);
    assert len >= 4 ==> m1(off + 2) == m2(off + 2) && m1(off + 2 + 1) == m2(off + 2 + 1);
  }

  lemma {:induction false} StopIsBehind(mem: Memory, i: nat, end: int)
    ensures Stop(mem, i, end) >= i && Stop(mem, i, end) >= end
    decreases end - i
  {
    if i < end {
      StopIsBehind(mem, i + 4 + ReadU16(mem, i + 2), end);
    }
  }

  lemma {:induction false} SameSeen(m1: Memory, m2: Memory, i: nat, end: int)
    requires SamePacket(m1, m2, i, end) && Stop(m1, i, end) <= end
    ensures Seen(m1, i, end) == Seen(m2, i, end) && Stop(m2, i, end) == Stop(m1, i, end)
    decreases end - i
  {
    if i < end {
      var next := i + 4 + ReadU16(m1, i + 2);
      StopIsBehind(m1, next, end);
      SameRead(m1, m2, i, end, i, next - i);
      SameRead(m1, m2, i, end, i + 4, next - i - 4);
      SameSeen(m1, m2, next, end);
    }
  }

  /** Where no element reaches beyond the end, nothing behind the end changes the result, for any
      handlers and any message definition. */
  lemma Confined(t: Table, allowed: map<Id, bool>, m1: Memory, m2: Memory, at: nat, end: int, d: Found)
    requires SamePacket(m1, m2, at, end) && Stop(m1, at, end) <= end
    ensures DecodeAll(t, allowed, m1, at, end, d) == DecodeAll(t, allowed, m2, at, end, d)
  {
    SameSeen(m1, m2, at, end);
    DecodeTreatsSeen(t, allowed, m1, at, end, d);
    DecodeTreatsSeen(t, allowed, m2, at, end, d);
  }

  // ----- when something behind the end does change the result -----

  const NOTHING := Found(map[], {}, [])

  /** The memory with other bytes behind the packet. */
  function Behind(mem: Memory, end: nat, s: seq<byte>): Memory
  {
    (i: nat) => if end <= i < end + |s| then s[i - end] else mem(i)
  }

  ghost predicate PacketDecides(t: Table, allowed: map<Id, bool>, mem: Memory, at: nat, end: nat, d: Found)
  {
    forall s :: DecodeAll(t, allowed, Behind(mem, end, s), at, end, d) == DecodeAll(t, allowed, mem, at, end, d)
  }

  /** Where the last element begins that the walk visits. */
  function LastStart(mem: Memory, i: nat, end: int): (k: nat)
    requires i < end
    ensures i <= k < end
    decreases end - i
  {
    var next := i + 4 + ReadU16(mem, i + 2);
    if next >= end then i else LastStart(mem, next, end)
  }

  /** What was found before the last element. */
  function Before(t: Table, allowed: map<Id, bool>, mem: Memory, at: nat, end: int, d: Found): Found
    requires at < end
  {
    DecodeAll(t, allowed, mem, at, LastStart(mem, at, end), d)
  }

  lemma {:induction false} LastDecoded(t: Table, allowed: map<Id, bool>, mem: Memory, at: nat, end: int, d: Found)
    requires at < end
    ensures var i := LastStart(mem, at, end);
            && Stop(mem, at, end) == i + 4 + |ElemAt(mem, i).data| && Stop(mem, at, i) == i
            && DecodeAll(t, allowed, mem, at, end, d)
            == TreatAt(t, allowed, ElemAt(mem, i), i, Before(t, allowed, mem, at, end, d))
    decreases end - at
  {
    var next := at + 4 + ReadU16(mem, at + 2);
    var i := LastStart(mem, at, end);
    var d1 := DecodeAt(t, allowed, mem, at, d);
    assert DecodeAll(t, allowed, mem, at, end, d) == DecodeAll(t, allowed, mem, next, end, d1);
    if next < end {
      LastDecoded(t, allowed, mem, next, end, d1);
    } else {
      TreatsElemAt(t, allowed, mem, at, d);
    }
  }

  lemma {:induction false} SameLast(m1: Memory, m2: Memory, at: nat, end: int)
    requires at < end && SamePacket(m1, m2, at, end)
    ensures LastStart(m2, at, end) == LastStart(m1, at, end)
    decreases end - at
  {
    if at + 4 <= end {
      SameRead(m1, m2, at, end, at, 4);
      var next := at + 4 + ReadU16(m1, at + 2);
      if next < end {
        SameLast(m1, m2, next, end);
      }
    }
  }

  lemma SameBefore(t: Table, allowed: map<Id, bool>, m1: Memory, m2: Memory, at: nat, end: int, d: Found)
    requires at < end && SamePacket(m1, m2, at, end)
    ensures LastStart(m2, at, end) == LastStart(m1, at, end)
    ensures Before(t, allowed, m2, at, end, d) == Before(t, allowed, m1, at, end, d)
  {
    SameLast(m1, m2, at, end);
    LastDecoded(t, allowed, m1, at, end, d);
    Confined(t, allowed, m1, m2, at, LastStart(m1, at, end), d);
  }

  /** What is left of the packet at the last element. */
  function Fragment(mem: Memory, at: nat, end: int): seq<byte>
    requires at < end
  {
    var i := LastStart(mem, at, end); Slice(mem, i, end - i)
  }

  /** An element of which the packet has only the beginning. */
  ghost predicate Begins(f: seq<byte>, e: Elem) { Fits(e) && f < Put(e) }

  /** Two elements that begin alike make a difference. */
  ghost predicate Apart(t: Table, allowed: map<Id, bool>, f: seq<byte>, i: nat, d: Found)
  {
    exists e1, e2 :: Begins(f, e1) && Begins(f, e2) && TreatAt(t, allowed, e1, i, d) != TreatAt(t, allowed, e2, i, d)
  }

  lemma ReadU16Bytes(mem: Memory, at: nat)
    ensures U16(ReadU16(mem, at)) == [mem(at), mem(at + 1)]
  {
    var hi: int, lo: int := mem(at), mem(at + 1);
    var n := hi * 256 + lo;
    assert n / 256 == hi && n % 256 == lo;
  }

  lemma SliceParts(mem: Memory, at: nat, a: nat, b: nat)
    ensures Slice(mem, at, a + b) == Slice(mem, at, a) + Slice(mem, at + a, b)
  {
    var s, t := Slice(mem, at, a + b), Slice(mem, at + a, b);
    forall k | 0 <= k < a + b ensures s[k] == (Slice(mem, at, a) + t)[k] {
      if k >= a { assert t[k - a] == mem(at + a + (k - a)); }
    }
  }

  lemma HeadBytes(mem: Memory, i: nat)
    ensures U16(ReadU16(mem, i)) + U16(ReadU16(mem, i + 2)) == Slice(mem, i, 4)
  {
    ReadU16Bytes(mem, i);
    ReadU16Bytes(mem, i + 2);
    SliceParts(mem, i, 2, 2);
    assert [mem(i), mem(i + 1)] == Slice(mem, i, 2);
    assert [mem(i + 2), mem(i + 2 + 1)] == Slice(mem, i + 2, 2);
  }

  lemma PutParts(id: word, len: word, data: seq<byte>)
    requires |data| == len
    ensures Put(Elem(id, data)) == U16(id) + U16(len) + data
  {
    assert |data| % 0x1_0000 == len;
  }

  lemma WireOfElemAt(mem: Memory, i: nat)
    ensures var e := ElemAt(mem, i); Fits(e) && Put(e) == Slice(mem, i, 4 + |e.data|)
  {
    var len := ReadU16(mem, i + 2);
    PutParts(ReadU16(mem, i), len, Slice(mem, i + 4, len));
    HeadBytes(mem, i);
    SliceParts(mem, i, 4, len);
  }

  lemma OwnElemBegins(mem: Memory, at: nat, end: int)
    requires at < end && Stop(mem, at, end) > end
    ensures Begins(Fragment(mem, at, end), ElemAt(mem, LastStart(mem, at, end)))
  {
    var i := LastStart(mem, at, end);
    LastDecoded(map[], map[], mem, at, end, NOTHING);
    WireOfElemAt(mem, i);
    var w, f := Slice(mem, i, 4 + |ElemAt(mem, i).data|), Slice(mem, i, end - i);
    assert f == w[..|f|];
  }

  lemma BytesCompleted(mem: Memory, i: nat, end: nat, f: seq<byte>, w: seq<byte>)
    requires i + |f| == end && f == Slice(mem, i, |f|) && f <= w
    ensures Holds(Behind(mem, end, w[|f|..]), i, w)
  {
    var m2 := Behind(mem, end, w[|f|..]);
    forall k | 0 <= k < |w| ensures m2(i + k) == w[k] {
      if k < |f| {
        assert w[k] == f[k] == mem(i + k);
      } else {
        assert w[|f|..][k - |f|] == w[k];
      }
    }
  }

  /** Any element that begins like the packet's last one can stand there. */
  lemma Completed(mem: Memory, at: nat, end: nat, e: Elem)
    requires at < end && Begins(Fragment(mem, at, end), e)
    ensures var f := Fragment(mem, at, end);
            ElemAt(Behind(mem, end, Put(e)[|f|..]), LastStart(mem, at, end)) == e
  {
    var i, f, w := LastStart(mem, at, end), Fragment(mem, at, end), Put(e);
    assert f == Slice(mem, i, end - i) && f <= w && Fits(e);
    BytesCompleted(mem, i, end, f, w);
    ElemHeld(Behind(mem, end, w[|f|..]), i, e);
  }

  lemma ElemHeld(mem: Memory, i: nat, e: Elem)
    requires Fits(e) && Holds(mem, i, Put(e))
    ensures ElemAt(mem, i) == e
  {
    ReadBackElem(mem, i, e);
  }

  /** The result depends on what stands behind the packet exactly when the last element reaches beyond
      its end, and the handlers tell two of the elements apart that begin with what is left of the
      packet. */
  lemma DependsExact(t: Table, allowed: map<Id, bool>, mem: Memory, at: nat, end: nat, d: Found)
    requires at < end
    ensures !PacketDecides(t, allowed, mem, at, end, d) <==>
            && Stop(mem, at, end) > end
            && Apart(t, allowed, Fragment(mem, at, end), LastStart(mem, at, end), Before(t, allowed, mem, at, end, d))
  {
    var i, f, b := LastStart(mem, at, end), Fragment(mem, at, end), Before(t, allowed, mem, at, end, d);
    LastDecoded(t, allowed, mem, at, end, d);
    if Stop(mem, at, end) <= end {
      forall s
        ensures DecodeAll(t, allowed, Behind(mem, end, s), at, end, d) == DecodeAll(t, allowed, mem, at, end, d)
      {
        Confined(t, allowed, mem, Behind(mem, end, s), at, end, d);
      }
    } else {
      OwnElemBegins(mem, at, end);
      forall s
        ensures var m2 := Behind(mem, end, s);
                && Begins(f, ElemAt(m2, i))
                && DecodeAll(t, allowed, m2, at, end, d) == TreatAt(t, allowed, ElemAt(m2, i), i, b)
      {
        OtherTail(t, allowed, mem, at, end, d, s);
      }
      if Apart(t, allowed, f, i, b) {
        var e1, e2 :| Begins(f, e1) && Begins(f, e2) && TreatAt(t, allowed, e1, i, b) != TreatAt(t, allowed, e2, i, b);
        Completed(mem, at, end, e1);
        Completed(mem, at, end, e2);
        assert DecodeAll(t, allowed, Behind(mem, end, Put(e1)[|f|..]), at, end, d) == TreatAt(t, allowed, e1, i, b);
        assert DecodeAll(t, allowed, Behind(mem, end, Put(e2)[|f|..]), at, end, d) == TreatAt(t, allowed, e2, i, b);
      }
    }
  }

  lemma OtherTail(t: Table, allowed: map<Id, bool>, mem: Memory, at: nat, end: nat, d: Found, s: seq<byte>)
    requires at < end && Stop(mem, at, end) > end
    ensures var m2, i := Behind(mem, end, s), LastStart(mem, at, end);
            && Begins(Fragment(mem, at, end), ElemAt(m2, i))
            && DecodeAll(t, allowed, m2, at, end, d)
            == TreatAt(t, allowed, ElemAt(m2, i), i, Before(t, allowed, mem, at, end, d))
  {
    var m2, i := Behind(mem, end, s), LastStart(mem, at, end);
    SameBefore(t, allowed, mem, m2, at, end, d);
    LastDecoded(t, allowed, m2, at, end, d);
    if Stop(m2, at, end) <= end {
      SameSeen(m2, mem, at, end);
    }
    OwnElemBegins(m2, at, end);
    SameRead(mem, m2, at, end, i, end - i);
  }

  // ----- the same in terms of handlers and lengths -----

  function Zeros(n: nat): (s: seq<byte>)
    ensures |s| == n
  {
    seq(n, _ => 0)
  }

  /** What stands in front of a wrapped element. */
  function WrapHead(at: Id): (s: seq<byte>)
    ensures |s| == 6
  {
    U32(at.vendor) + U16(at.id)
  }

  lemma Be16Back(n: word, s: seq<byte>, i: nat)
    requires i + 2 <= |s| && s[i..i + 2] == U16(n)
    ensures Be16(s, i) == n
  {
    assert s[i] == s[i..i + 2][0] && s[i + 1] == s[i..i + 2][1];
  }

  lemma U16Back(s: seq<byte>, i: nat)
    requires i + 2 <= |s|
    ensures U16(Be16(s, i)) == s[i..i + 2]
  {
    var hi: int, lo: int := s[i], s[i + 1];
    assert (hi * 256 + lo) / 256 == hi && (hi * 256 + lo) % 256 == lo;
  }

  lemma InnerOfWrap(at: Id, data: seq<byte>)
    ensures Inner(WrapHead(at) + data) == at && (WrapHead(at) + data)[6..] == data
  {
    var s := WrapHead(at) + data;
    assert s[0..2] == U16(at.vendor / 0x1_0000) && s[2..4] == U16(at.vendor % 0x1_0000) && s[4..6] == U16(at.id);
    Be16Back(at.vendor / 0x1_0000, s, 0);
    Be16Back(at.vendor % 0x1_0000, s, 2);
    Be16Back(at.id, s, 4);
  }

  lemma WrapOfInner(data: seq<byte>)
    requires |data| >= 6
    ensures WrapHead(Inner(data)) == data[..6]
  {
    U16Back(data, 0);
    U16Back(data, 2);
    U16Back(data, 4);
    var hi: int, lo: int := Be16(data, 0), Be16(data, 2);
    assert (hi * 0x1_0000 + lo) / 0x1_0000 == hi && (hi * 0x1_0000 + lo) % 0x1_0000 == lo;
    assert data[..6] == data[0..2] + data[2..4] + data[4..6];
  }

  /** What a vendor specific payload that is long enough passes on. */
  function Unwrapped(t: Table, allowed: map<Id, bool>, data: seq<byte>, d: Found): Found
  {
    if |data| < 6 || Inner(data) !in t then d else Treat(t, allowed, Inner(data), data[6..], d).0
  }

  function Marked(t: Table, allowed: map<Id, bool>, at: Id, d: Found): Found
    requires Known(t, allowed, at)
  {
    if allowed[at] then d.(mand := d.mand + {t[at].key}) else d
  }

  /** `len` bytes of which only `known` are given matter to the result: they are taken, be it by the
      element inside them, or what is missing decides which element that is. */
  ghost predicate Reads(t: Table, allowed: map<Id, bool>, at: Id, known: seq<byte>, len: nat, d: Found)
    requires |known| < len
    decreases len, 0
  {
    && Known(t, allowed, at) && LengthOk(t[at], len)
    && match t[at].get
       case NoGet => false
       case Generic => true
       case VendorPayload =>
         var d1 := Marked(t, allowed, at, d);
         if |known| >= 6 then Inner(known) in t && Reads(t, allowed, Inner(known), known[6..], len - 6, d1)
         else len >= 6 && (ReadsInside(t, allowed, known, len - 6, d1) || IdMatters(t, allowed, known, len - 6, d1))
  }

  ghost predicate ReadsInside(t: Table, allowed: map<Id, bool>, known: seq<byte>, len: nat, d: Found)
    decreases len, 1
  {
    len > 0 && exists at :: known <= WrapHead(at) && at in t && Reads(t, allowed, at, [], len, d)
  }

  ghost predicate IdMatters(t: Table, allowed: map<Id, bool>, known: seq<byte>, len: nat, d: Found)
  {
    exists a, b :: known <= WrapHead(a) && known <= WrapHead(b)
      && Unwrapped(t, allowed, WrapHead(a) + Zeros(len), d) != Unwrapped(t, allowed, WrapHead(b) + Zeros(len), d)
  }

  lemma {:induction false} TreatMarks(t: Table, allowed: map<Id, bool>, at: Id, a: seq<byte>, d: Found)
    ensures Treat(t, allowed, at, a, d).0.unrecognized == d.unrecognized
    ensures Treat(t, allowed, at, a, d).1 <==>
            !Known(t, allowed, at) || (LengthOk(t[at], |a|) && t[at].get == NoGet)
    ensures Known(t, allowed, at) && LengthOk(t[at], |a|) && t[at].get == VendorPayload ==>
            Treat(t, allowed, at, a, d).0 == Unwrapped(t, allowed, a, Marked(t, allowed, at, d))
    decreases |a|
  {
    if Known(t, allowed, at) && t[at].get == VendorPayload && |a| >= 6 && Inner(a) in t {
      TreatMarks(t, allowed, Inner(a), a[6..], Marked(t, allowed, at, d));
    }
  }

  /** Bytes that are read can make a difference. */
  lemma {:induction false} ReadsApart(t: Table, allowed: map<Id, bool>, at: Id, known: seq<byte>, len: nat, d: Found)
    returns (a: seq<byte>, b: seq<byte>)
    requires |known| < len && Reads(t, allowed, at, known, len, d)
    ensures |a| == |b| == len && known <= a && known <= b
    ensures Treat(t, allowed, at, a, d).0 != Treat(t, allowed, at, b, d).0
    decreases len
  {
    match t[at].get
    case Generic =>
      a, b := known + Zeros(len - |known|), known + [1] + Zeros(len - |known| - 1);
      assert a[|known|] == 0 && b[|known|] == 1;
      assert Treat(t, allowed, at, a, d).0.cfg[t[at].key] == a && Treat(t, allowed, at, b, d).0.cfg[t[at].key] == b;
    case VendorPayload =>
      a, b := ReadsApartInside(t, allowed, at, known, len, d);
      TreatMarks(t, allowed, at, a, d);
      TreatMarks(t, allowed, at, b, d);
  }

  lemma {:induction false} ReadsApartInside(t: Table, allowed: map<Id, bool>, at: Id, known: seq<byte>, len: nat,
                                            d: Found) returns (a: seq<byte>, b: seq<byte>)
    requires |known| < len && Reads(t, allowed, at, known, len, d) && t[at].get == VendorPayload
    ensures |a| == |b| == len && known <= a && known <= b
    ensures var d1 := Marked(t, allowed, at, d); Unwrapped(t, allowed, a, d1) != Unwrapped(t, allowed, b, d1)
    decreases len, 0
  {
    var d1 := Marked(t, allowed, at, d);
    if |known| >= 6 {
      a, b := ReadsApart(t, allowed, Inner(known), known[6..], len - 6, d1);
      a, b := WrapUp(t, allowed, Inner(known), a, b, d1);
      WrapOfInner(known);
      assert known == known[..6] + known[6..];
    } else if ReadsInside(t, allowed, known, len - 6, d1) {
      var inner :| known <= WrapHead(inner) && inner in t && Reads(t, allowed, inner, [], len - 6, d1);
      a, b := ReadsApart(t, allowed, inner, [], len - 6, d1);
      a, b := WrapUp(t, allowed, inner, a, b, d1);
    } else {
      var x, y :| known <= WrapHead(x) && known <= WrapHead(y)
        && Unwrapped(t, allowed, WrapHead(x) + Zeros(len - 6), d1)
        != Unwrapped(t, allowed, WrapHead(y) + Zeros(len - 6), d1);
      a, b := WrapHead(x) + Zeros(len - 6), WrapHead(y) + Zeros(len - 6);
    }
  }

  lemma WrapUp(t: Table, allowed: map<Id, bool>, inner: Id, a: seq<byte>, b: seq<byte>, d: Found)
    returns (wa: seq<byte>, wb: seq<byte>)
    requires |a| == |b| && inner in t && Treat(t, allowed, inner, a, d).0 != Treat(t, allowed, inner, b, d).0
    ensures wa == WrapHead(inner) + a && wb == WrapHead(inner) + b
    ensures Unwrapped(t, allowed, wa, d) != Unwrapped(t, allowed, wb, d)
  {
    wa, wb := WrapHead(inner) + a, WrapHead(inner) + b;
    InnerOfWrap(inner, a);
    InnerOfWrap(inner, b);
  }

  /** Bytes that are not read make none. */
  lemma {:induction false} NotReadsAlike(t: Table, allowed: map<Id, bool>, at: Id, known: seq<byte>, a: seq<byte>,
                                         b: seq<byte>, d: Found)
    requires |a| == |b| && known <= a && known <= b
    requires |known| < |a| ==> !Reads(t, allowed, at, known, |a|, d)
    ensures Treat(t, allowed, at, a, d) == Treat(t, allowed, at, b, d)
    decreases |a|
  {
    TreatMarks(t, allowed, at, a, d);
    TreatMarks(t, allowed, at, b, d);
    if |known| == |a| {
      assert a == b;
    } else if Known(t, allowed, at) && LengthOk(t[at], |a|) && t[at].get == VendorPayload && |a| >= 6 {
      var d1 := Marked(t, allowed, at, d);
      if |known| >= 6 {
        assert a[..6] == known[..6] == b[..6];
        WrapOfInner(a);
        WrapOfInner(b);
        WrapOfInner(known);
        SameInner(a, b);
        SameInner(a, known);
        if Inner(known) in t {
          NotReadsAlike(t, allowed, Inner(known), known[6..], a[6..], b[6..], d1);
        }
      } else {
        PlainInside(t, allowed, known, a, d1);
        PlainInside(t, allowed, known, b, d1);
      }
    }
  }

  lemma SameInner(a: seq<byte>, b: seq<byte>)
    requires |a| >= 6 && |b| >= 6 && a[..6] == b[..6]
    ensures Inner(a) == Inner(b)
  {
    forall i | 0 <= i < 6 ensures a[i] == b[i] { assert a[..6][i] == b[..6][i]; }
  }

  lemma {:induction false} PlainInside(t: Table, allowed: map<Id, bool>, known: seq<byte>, a: seq<byte>, d: Found)
    requires |known| < 6 <= |a| && known <= a && !ReadsInside(t, allowed, known, |a| - 6, d)
    ensures known <= WrapHead(Inner(a))
    ensures Unwrapped(t, allowed, a, d) == Unwrapped(t, allowed, WrapHead(Inner(a)) + Zeros(|a| - 6), d)
    decreases |a|, 0
  {
    var inner, n := Inner(a), |a| - 6;
    WrapOfInner(a);
    assert known == a[..6][..|known|];
    InnerOfWrap(inner, Zeros(n));
    if inner in t {
      NotReadsAlike(t, allowed, inner, [], a[6..], Zeros(n), d);
    }
  }

  /** An element whose header is in the packet and which claims more than is left: the two that begin
      like it differ in the missing bytes only. */
  lemma WholeHeader(t: Table, allowed: map<Id, bool>, f: seq<byte>, i: nat, d: Found)
    requires |f| >= 4 && |f| - 4 < Be16(f, 2)
    ensures Apart(t, allowed, f, i, d) <==> Reads(t, allowed, Id(0, Be16(f, 0)), f[4..], Be16(f, 2), d)
  {
    var at, len := Id(0, Be16(f, 0)), Be16(f, 2);
    if Reads(t, allowed, at, f[4..], len, d) {
      var a, b := ReadsApart(t, allowed, at, f[4..], len, d);
      ExtendHeader(f, a);
      ExtendHeader(f, b);
      ApartAt(t, allowed, at.id, a, b, i, d);
    } else {
      forall e1, e2 | Begins(f, e1) && Begins(f, e2)
        ensures TreatAt(t, allowed, e1, i, d) == TreatAt(t, allowed, e2, i, d)
      {
        HeaderOf(f, e1);
        HeaderOf(f, e2);
        NotReadsAlike(t, allowed, at, f[4..], e1.data, e2.data, d);
      }
    }
  }

  lemma ExtendHeader(f: seq<byte>, a: seq<byte>)
    requires |f| >= 4 && |f| - 4 < Be16(f, 2) == |a| && f[4..] <= a
    ensures Begins(f, Elem(Be16(f, 0), a))
  {
    U16Back(f, 0);
    U16Back(f, 2);
    var h := U16(Be16(f, 0)) + U16(|a|);
    assert f[..4] == f[0..2] + f[2..4] == h;
    assert f == h + f[4..];
    assert (h + a)[..|f|] == h + a[..|f| - 4];
  }

  lemma HeaderOf(f: seq<byte>, e: Elem)
    requires |f| >= 4 && Begins(f, e)
    ensures e.id == Be16(f, 0) && |e.data| == Be16(f, 2) && f[4..] <= e.data
  {
    var w := Put(e);
    assert f == w[..|f|];
    assert f[0..2] == w[0..2] == U16(e.id) && f[2..4] == w[2..4] == U16(|e.data|);
    Be16Back(e.id, f, 0);
    Be16Back(|e.data|, f, 2);
    assert f[4..] == w[4..|f|] == e.data[..|f| - 4];
  }

  function Header4(id: word, len: word): seq<byte> { U16(id) + U16(len) }

  /** An element with nothing in it, to see what its number and length alone bring about. */
  function Plain(id: word, len: word): Elem { Elem(id, Zeros(len)) }

  ghost predicate SomeRead(t: Table, allowed: map<Id, bool>, f: seq<byte>, d: Found)
  {
    exists id: word, len: word :: f <= Header4(id, len) && len > 0 && Reads(t, allowed, Id(0, id), [], len, d)
  }

  /** A plain element whose header begins with `f`. */
  predicate PlainBegins(f: seq<byte>, e: Elem)
  {
    Fits(e) && e.data == Zeros(|e.data|) && f <= Header4(e.id, |e.data|)
  }

  ghost predicate TwoApart(t: Table, allowed: map<Id, bool>, f: seq<byte>, i: nat, d: Found)
  {
    exists e1, e2 ::
      PlainBegins(f, e1) && PlainBegins(f, e2) && TreatAt(t, allowed, e1, i, d) != TreatAt(t, allowed, e2, i, d)
  }

  /** A header that is cut matters when one of the headers it may be is of an element that is read, or
      when two of them are treated differently. */
  ghost predicate HeaderMatters(t: Table, allowed: map<Id, bool>, f: seq<byte>, i: nat, d: Found)
  {
    SomeRead(t, allowed, f, d) || TwoApart(t, allowed, f, i, d)
  }

  lemma PrefixOfHead(f: seq<byte>, h: seq<byte>, data: seq<byte>)
    requires |f| < |h|
    ensures f < h + data <==> f <= h
  {
    assert (h + data)[..|f|] == h[..|f|];
  }

  lemma BeginsCut(f: seq<byte>, e: Elem)
    requires |f| < 4 && Fits(e)
    ensures Begins(f, e) <==> f <= Header4(e.id, |e.data|)
  {
    PutParts(e.id, |e.data|, e.data);
    PrefixOfHead(f, Header4(e.id, |e.data|), e.data);
  }

  lemma CutHeader(t: Table, allowed: map<Id, bool>, f: seq<byte>, i: nat, d: Found)
    requires |f| < 4
    ensures Apart(t, allowed, f, i, d) <==> HeaderMatters(t, allowed, f, i, d)
  {
    if HeaderMatters(t, allowed, f, i, d) {
      CutHeaderApart(t, allowed, f, i, d);
    } else {
      forall e1, e2 | Begins(f, e1) && Begins(f, e2)
        ensures TreatAt(t, allowed, e1, i, d) == TreatAt(t, allowed, e2, i, d)
      {
        AsPlain(t, allowed, f, e1, i, d);
        AsPlain(t, allowed, f, e2, i, d);
      }
    }
  }

  lemma AsPlain(t: Table, allowed: map<Id, bool>, f: seq<byte>, e: Elem, i: nat, d: Found)
    requires |f| < 4 && Begins(f, e) && !HeaderMatters(t, allowed, f, i, d)
    ensures PlainBegins(f, Plain(e.id, |e.data|))
    ensures TreatAt(t, allowed, e, i, d) == TreatAt(t, allowed, Plain(e.id, |e.data|), i, d)
  {
    BeginsCut(f, e);
    var len: word := |e.data|;
    NotReadsAlike(t, allowed, Id(0, e.id), [], e.data, Zeros(len), d);
  }

  lemma {:induction false} CutHeaderApart(t: Table, allowed: map<Id, bool>, f: seq<byte>, i: nat, d: Found)
    requires |f| < 4 && HeaderMatters(t, allowed, f, i, d)
    ensures Apart(t, allowed, f, i, d)
  {
    if SomeRead(t, allowed, f, d) {
      var id: word, len: word :| f <= Header4(id, len) && len > 0 && Reads(t, allowed, Id(0, id), [], len, d);
      CutAndRead(t, allowed, f, i, d, id, len);
    } else {
      PlainsApart(t, allowed, f, i, d);
    }
  }

  lemma {:induction false} PlainsApart(t: Table, allowed: map<Id, bool>, f: seq<byte>, i: nat, d: Found)
    requires |f| < 4 && TwoApart(t, allowed, f, i, d)
    ensures Apart(t, allowed, f, i, d)
  {
    var e1, e2 :| PlainBegins(f, e1) && PlainBegins(f, e2)
      && TreatAt(t, allowed, e1, i, d) != TreatAt(t, allowed, e2, i, d);
    PlainIsOne(f, e1);
    PlainIsOne(f, e2);
  }

  lemma PlainIsOne(f: seq<byte>, e: Elem)
    requires |f| < 4 && PlainBegins(f, e)
    ensures Begins(f, e)
  {
    BeginsCut(f, e);
  }

  lemma {:induction false} CutAndRead(t: Table, allowed: map<Id, bool>, f: seq<byte>, i: nat, d: Found, id: word,
                                      len: word)
    requires |f| < 4 && f <= Header4(id, len) && len > 0 && Reads(t, allowed, Id(0, id), [], len, d)
    ensures Apart(t, allowed, f, i, d)
  {
    var a, b := ReadsApart(t, allowed, Id(0, id), [], len, d);
    BeginsCut(f, Elem(id, a));
    BeginsCut(f, Elem(id, b));
    ApartAt(t, allowed, id, a, b, i, d);
  }

  /** Elements of one number and length that add different things do so at any place. */
  lemma ApartAt(t: Table, allowed: map<Id, bool>, id: word, a: seq<byte>, b: seq<byte>, i: nat, d: Found)
    requires |a| == |b| && Treat(t, allowed, Id(0, id), a, d).0 != Treat(t, allowed, Id(0, id), b, d).0
    ensures TreatAt(t, allowed, Elem(id, a), i, d) != TreatAt(t, allowed, Elem(id, b), i, d)
  {
    TreatMarks(t, allowed, Id(0, id), a, d);
    TreatMarks(t, allowed, Id(0, id), b, d);
  }

  /** The whole condition: the last element reaches beyond the end and is read, through all wrappings,
      or its own header is cut by the end and matters. */
  ghost predicate ReadsOn(t: Table, allowed: map<Id, bool>, mem: Memory, at: nat, end: nat, d: Found)
  {
    && at < end && Stop(mem, at, end) > end
    && var i, f, b := LastStart(mem, at, end), Fragment(mem, at, end), Before(t, allowed, mem, at, end, d);
       if i + 4 <= end then
         var e := ElemAt(mem, i); |f| - 4 < |e.data| && Reads(t, allowed, Id(0, e.id), f[4..], |e.data|, b)
       else HeaderMatters(t, allowed, f, i, b)
  }

  /** The packet alone decides the result exactly when this is not the case. */
  lemma PacketDecidesExactly(t: Table, allowed: map<Id, bool>, mem: Memory, at: nat, end: nat, d: Found)
    ensures PacketDecides(t, allowed, mem, at, end, d) <==> !ReadsOn(t, allowed, mem, at, end, d)
  {
    if at < end {
      var i, f, b := LastStart(mem, at, end), Fragment(mem, at, end), Before(t, allowed, mem, at, end, d);
      DependsExact(t, allowed, mem, at, end, d);
      if Stop(mem, at, end) > end {
        if i + 4 <= end {
          LastDecoded(t, allowed, mem, at, end, d);
          OwnElemBegins(mem, at, end);
          HeaderOf(f, ElemAt(mem, i));
          WholeHeader(t, allowed, f, i, b);
        } else {
          CutHeader(t, allowed, f, i, b);
        }
      }
    }
  }

  /** Whatever the handlers are, the packet alone decides, exactly when no element reaches beyond it. */
  lemma WellFormedExactly(mem: Memory, at: nat, end: nat)
    requires at < end
    ensures Stop(mem, at, end) == end <==> forall t, allowed :: PacketDecides(t, allowed, mem, at, end, NOTHING)
  {
    StopIsBehind(mem, at, end);
    if Stop(mem, at, end) == end {
      forall t, allowed ensures PacketDecides(t, allowed, mem, at, end, NOTHING) {
        PacketDecidesExactly(t, allowed, mem, at, end, NOTHING);
      }
    } else {
      var id := ElemAt(mem, LastStart(mem, at, end)).id;
      var t, allowed := map[Id(0, id) := Handler("", 0, 0, Generic, false)], map[Id(0, id) := false];
      OwnElemBegins(mem, at, end);
      LastDecoded(t, allowed, mem, at, end, NOTHING);
      TakesAnyLength(t, allowed, mem, at, end);
      PacketDecidesExactly(t, allowed, mem, at, end, NOTHING);
    }
  }

  lemma TakesAnyLength(t: Table, allowed: map<Id, bool>, mem: Memory, at: nat, end: nat)
    requires at < end && Stop(mem, at, end) > end
    requires var a := Id(0, ElemAt(mem, LastStart(mem, at, end)).id);
             Known(t, allowed, a) && t[a].get == Generic && t[a].minLen == t[a].maxLen == 0
    ensures ReadsOn(t, allowed, mem, at, end, NOTHING)
  {
    var i, f := LastStart(mem, at, end), Fragment(mem, at, end);
    var e := ElemAt(mem, i);
    LastDecoded(t, allowed, mem, at, end, NOTHING);
    OwnElemBegins(mem, at, end);
    if i + 4 > end {
      BeginsCut(f, e);
      var low := |e.data| - |e.data| % 256;
      var len: word := low + 1;
      assert U16(|e.data|)[0] == U16(len)[0];
      assert f <= Header4(e.id, len) by {
        var h := Header4(e.id, |e.data|);
        assert f == h[..|f|];
        assert h[..|f|] == Header4(e.id, len)[..|f|];
      }
    }
  }

  // ----- two inputs -----

  /** Four bytes that claim two more: the value is taken from behind the packet. */
  lemma TakenFromBehind(mem: Memory, key: string, put: bool)
    requires Holds(mem, 0, [0, 5, 0, 2])
    ensures var t, allowed := map[Id(0, 5) := Handler(key, 0, 0, Generic, put)], map[Id(0, 5) := true];
            DecodeAll(t, allowed, mem, 0, 4, NOTHING) == Found(map[key := [mem(4), mem(5)]], {key}, [])
  {
    var t, allowed := map[Id(0, 5) := Handler(key, 0, 0, Generic, put)], map[Id(0, 5) := true];
    var p: seq<byte> := [0, 5, 0, 2];
    assert mem(0 + 0) == p[0] && mem(0 + 1) == p[1] && mem(0 + 2) == p[2] && mem(0 + 3) == p[3];
    assert ReadU16(mem, 0) == 5 && ReadU16(mem, 2) == 2;
    assert Slice(mem, 4, 2) == [mem(4), mem(5)];
    OneDecoded(t, allowed, mem, 0, 4, NOTHING);
  }

  /** A vendor specific payload too short to hold an element, which the handler admits when it demands
      no length: six bytes are read all the same, behind the packet if need be. They decide the return
      code, but nothing that is found. */
  lemma ShortWrapper(t: Table, allowed: map<Id, bool>, mem: Memory, at: Id, off: nat, len: nat, d: Found)
    requires Known(t, allowed, at) && t[at].get == VendorPayload && LengthOk(t[at], len) && len < 6
    ensures var (r, rc) := DecodeOne(t, allowed, mem, at, off, len, d);
            && r == Marked(t, allowed, at, d)
            && rc == if Id(ReadU32(mem, off), ReadU16(mem, off + 4)) in t then 1 else 0
  {
    NothingInside(t, allowed, mem, Id(ReadU32(mem, off), ReadU16(mem, off + 4)), off + 6, len - 6,
                  Marked(t, allowed, at, d));
  }
}
