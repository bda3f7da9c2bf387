/** Decoding inverts encoding. */
module ElementsRoundTrip {
  import opened Prelude
  import opened CfgStore
  import opened CfgBase
  import opened Elements

  // ----- the walk -----

  /** The elements that the walk visits, each with the length it claims. */
  function Seen(mem: Memory, i: nat, end: int): seq<Elem>
    decreases end - i
  {
    if i >= end then []
    else
      var len := ReadU16(mem, i + 2);
      [Elem(ReadU16(mem, i), Slice(mem, i + 4, len))] + Seen(mem, i + 4 + len, end)
  }

  /** Where the walk stops. */
  function Stop(mem: Memory, i: nat, end: int): nat
    decreases end - i
  {
    if i >= end then i else Stop(mem, i + 4 + ReadU16(mem, i + 2), end)
  }

  lemma HoldsParts(mem: Memory, at: nat, a: seq<byte>, b: seq<byte>)
    ensures Holds(mem, at, a + b) <==> Holds(mem, at, a) && Holds(mem, at + |a|, b)
  {
    if Holds(mem, at, a + b) {
      forall i | 0 <= i < |a| ensures mem(at + i) == a[i] { assert (a + b)[i] == a[i]; }
      forall i | 0 <= i < |b| ensures mem(at + |a| + i) == b[i] {
        assert (a + b)[|a| + i] == b[i] && mem(at + (|a| + i)) == (a + b)[|a| + i];
      }
    }
    if Holds(mem, at, a) && Holds(mem, at + |a|, b) {
      forall i | 0 <= i < |a + b| ensures mem(at + i) == (a + b)[i] {
        if i >= |a| { assert mem(at + |a| + (i - |a|)) == b[i - |a|]; }
      }
    }
  }

  lemma ReadBackU16(mem: Memory, at: nat, n: word)
    requires Holds(mem, at, U16(n))
    ensures ReadU16(mem, at) == n
  {
    assert mem(at + 0) == U16(n)[0] && mem(at + 1) == U16(n)[1];
  }

  lemma ReadBackU32(mem: Memory, at: nat, n: uint32)
    requires Holds(mem, at, U32(n))
    ensures ReadU32(mem, at) == n
  {
    HoldsParts(mem, at, U16(n / 0x1_0000), U16(n % 0x1_0000));
    ReadBackU16(mem, at, n / 0x1_0000);
    ReadBackU16(mem, at + 2, n % 0x1_0000);
  }

  lemma ReadBackData(mem: Memory, at: nat, s: seq<byte>)
    requires Holds(mem, at, s)
    ensures Slice(mem, at, |s|) == s
  {
    forall i | 0 <= i < |s| ensures Slice(mem, at, |s|)[i] == s[i] { }
  }

  lemma ReadBackElem(mem: Memory, at: nat, e: Elem)
    requires Fits(e) && Holds(mem, at, Put(e))
    ensures ReadU16(mem, at) == e.id && ReadU16(mem, at + 2) == |e.data|
    ensures Slice(mem, at + 4, |e.data|) == e.data && Holds(mem, at + 4, e.data)
  {
    HoldsParts(mem, at, U16(e.id) + U16(|e.data|), e.data);
    HoldsParts(mem, at, U16(e.id), U16(|e.data|));
    ReadBackU16(mem, at, e.id);
    ReadBackU16(mem, at + 2, |e.data|);
    ReadBackData(mem, at + 4, e.data);
  }

  function Bytes(es: seq<Elem>): seq<byte> { if es == [] then [] else Put(es[0]) + Bytes(es[1..]) }

  /** The walk finds this element at `at`. */
  predicate Stands(mem: Memory, at: nat, e: Elem)
  {
    ReadU16(mem, at) == e.id && ReadU16(mem, at + 2) == |e.data| && Slice(mem, at + 4, |e.data|) == e.data
  }

  /** And it finds these, one behind the other. */
  predicate AllStand(mem: Memory, at: nat, es: seq<Elem>)
    decreases |es|
  {
    es == [] || (Stands(mem, at, es[0]) && AllStand(mem, at + 4 + |es[0].data|, es[1..]))
  }

  lemma {:induction false} PutStands(mem: Memory, at: nat, es: seq<Elem>)
    requires (forall e :: e in es ==> Fits(e)) && Holds(mem, at, Bytes(es))
    ensures AllStand(mem, at, es)
    decreases |es|
  {
    if es != [] {
      assert es[0] in es && forall e :: e in es[1..] ==> e in es;
      HoldsParts(mem, at, Put(es[0]), Bytes(es[1..]));
      ReadBackElem(mem, at, es[0]);
      PutStands(mem, at + 4 + |es[0].data|, es[1..]);
    }
  }

  lemma {:induction false} WalkOver(mem: Memory, at: nat, end: nat, es: seq<Elem>)
    requires AllStand(mem, at, es) && end == at + |Bytes(es)|
    ensures Seen(mem, at, end) == es && Stop(mem, at, end) == end
    decreases |es|
  {
    if es != [] {
      var next := at + 4 + |es[0].data|;
      assert Seen(mem, at, end) == [es[0]] + Seen(mem, next, end);
      WalkOver(mem, next, end, es[1..]);
    }
  }

  /** Over encoded elements the walk visits exactly these, in order, and stops exactly at the end. */
  lemma WalkInvertsPut(mem: Memory, at: nat, es: seq<Elem>)
    requires (forall e :: e in es ==> Fits(e)) && Holds(mem, at, Bytes(es))
    ensures Seen(mem, at, at + |Bytes(es)|) == es
    ensures Stop(mem, at, at + |Bytes(es)|) == at + |Bytes(es)|
  {
    PutStands(mem, at, es);
    WalkOver(mem, at, at + |Bytes(es)|, es);
  }

  /** Over any bytes whatever it takes at least four bytes an element. */
  lemma {:induction false} WalkBound(mem: Memory, i: nat, end: int)
    ensures 4 * |Seen(mem, i, end)| <= if i < end then end - i + 3 else 0
    decreases end - i
  {
    if i < end {
      WalkBound(mem, i + 4 + ReadU16(mem, i + 2), end);
    }
  }

  // ----- one element -----

  predicate LengthOk(h: Handler, len: nat) { h.minLen <= len && (h.maxLen == 0 || len <= h.maxLen) }

  /** The receiver takes this element, and the wrapping around it, in this message. */
  predicate Accepts(t: Table, allowed: map<Id, bool>, it: Item, data: seq<byte>)
  {
    var outer := Id(0, VENDOR_SPECIFIC_PAYLOAD);
    && it.at in t && it.at in allowed && allowed[it.at] == it.mand
    && t[it.at].get == Generic && LengthOk(t[it.at], |data|)
    && (it.at.vendor != 0 ==>
        && outer in t && outer in allowed && !allowed[outer]
        && t[outer].get == VendorPayload && LengthOk(t[outer], |data| + 6))
  }

  function Taken(d: Found, key: string, data: seq<byte>, mand: bool): Found
  {
    Found(d.cfg[key := data], if mand then d.mand + {key} else d.mand, d.unrecognized)
  }

  lemma OneBack(t: Table, allowed: map<Id, bool>, mem: Memory, at: nat, it: Item, data: seq<byte>, d: Found)
    requires Fits(Wire(it.at, data)) && Holds(mem, at, Put(Wire(it.at, data))) && Accepts(t, allowed, it, data)
    ensures DecodeAt(t, allowed, mem, at, d) == Taken(d, t[it.at].key, data, it.mand)
  {
    var e := Wire(it.at, data);
    ReadBackElem(mem, at, e);
    if it.at.vendor != 0 {
      InnerBack(mem, at + 4, it.at, data);
      assert |e.data| == |data| + 6;
      assert DecodeOne(t, allowed, mem, it.at, at + 10, |data|, d).0 == Taken(d, t[it.at].key, data, it.mand);
    }
  }

  lemma InnerBack(mem: Memory, at: nat, id: Id, data: seq<byte>)
    requires Holds(mem, at, U32(id.vendor) + U16(id.id) + data)
    ensures Id(ReadU32(mem, at), ReadU16(mem, at + 4)) == id && Slice(mem, at + 6, |data|) == data
  {
    HoldsParts(mem, at, U32(id.vendor) + U16(id.id), data);
    HoldsParts(mem, at, U32(id.vendor), U16(id.id));
    ReadBackU32(mem, at, id.vendor);
    ReadBackU16(mem, at + 4, id.id);
    ReadBackData(mem, at + 6, data);
  }

  // ----- a message -----

  function KeyOf(s: Sender, it: Item): string
    requires it.at in s.t
  {
    s.t[it.at].key
  }

  function KeysSent(s: Sender, list: seq<Item>): set<string>
  {
    set it | it in list && Goes(s, it) :: KeyOf(s, it)
  }

  function MandSent(s: Sender, list: seq<Item>): set<string>
  {
    set it | it in list && it.mand && Goes(s, it) :: KeyOf(s, it)
  }

  ghost predicate AllAccepted(s: Sender, allowed: map<Id, bool>, list: seq<Item>)
  {
    forall it :: it in list && Goes(s, it) ==> Accepts(s.t, allowed, it, s.values[it.at])
  }

  function TakeNext(s: Sender, d: Found, it: Item): Found
  {
    if Goes(s, it) then Taken(d, KeyOf(s, it), s.values[it.at], it.mand) else d
  }

  function TakeAll(s: Sender, d: Found, list: seq<Item>): Found
    decreases |list|
  {
    if list == [] then d else TakeAll(s, TakeNext(s, d, list[0]), list[1..])
  }

  lemma DecodeFirst(t: Table, allowed: map<Id, bool>, mem: Memory, at: nat, end: int, it: Item, data: seq<byte>,
                    d: Found, next: nat, d1: Found)
    requires Fits(Wire(it.at, data)) && Holds(mem, at, Put(Wire(it.at, data))) && Accepts(t, allowed, it, data)
    requires next == at + |Put(Wire(it.at, data))| <= end && d1 == Taken(d, t[it.at].key, data, it.mand)
    ensures DecodeAll(t, allowed, mem, at, end, d) == DecodeAll(t, allowed, mem, next, end, d1)
  {
    OneBack(t, allowed, mem, at, it, data, d);
    ReadBackElem(mem, at, Wire(it.at, data));
    OneDecoded(t, allowed, mem, at, end, d);
  }

  /** The elements of `list`, encoded, fill the memory from `at` to `end`. */
  ghost predicate Filled(s: Sender, list: seq<Item>, mem: Memory, at: nat, end: int)
  {
    Holds(mem, at, Encoded(s, list)) && end == at + |Encoded(s, list)|
  }

  lemma FilledNext(s: Sender, list: seq<Item>, mem: Memory, at: nat, end: int)
    requires list != [] && Filled(s, list, mem, at, end)
    ensures var next := at + |Piece(s, list[0])|;
            Holds(mem, at, Piece(s, list[0])) && next <= end && Filled(s, list[1..], mem, next, end)
  {
    HoldsParts(mem, at, Piece(s, list[0]), Encoded(s, list[1..]));
  }

  /** The receiver takes whatever of `list` is sent. */
  ghost predicate Taking(s: Sender, allowed: map<Id, bool>, list: seq<Item>)
  {
    AllFit(s, list) && AllAccepted(s, allowed, list)
  }

  lemma TakingNext(s: Sender, allowed: map<Id, bool>, list: seq<Item>)
    requires list != [] && Taking(s, allowed, list)
    ensures Taking(s, allowed, list[1..])
    ensures Goes(s, list[0]) ==>
            Fits(ElemOf(s, list[0])) && Accepts(s.t, allowed, list[0], s.values[list[0].at])
  {
    assert list[0] in list;
    assert forall it :: it in list[1..] ==> it in list;
  }

  lemma FirstDecoded(s: Sender, allowed: map<Id, bool>, mem: Memory, at: nat, end: int, list: seq<Item>, d: Found)
    returns (next: nat, d1: Found)
    requires list != [] && Taking(s, allowed, list) && Filled(s, list, mem, at, end)
    ensures Taking(s, allowed, list[1..]) && Filled(s, list[1..], mem, next, end) && d1 == TakeNext(s, d, list[0])
    ensures DecodeAll(s.t, allowed, mem, at, end, d) == DecodeAll(s.t, allowed, mem, next, end, d1)
  {
    var it := list[0];
    TakingNext(s, allowed, list);
    FilledNext(s, list, mem, at, end);
    next, d1 := at + |Piece(s, it)|, TakeNext(s, d, it);
    if Goes(s, it) {
      DecodeFirst(s.t, allowed, mem, at, end, it, s.values[it.at], d, next, d1);
    } else {
      assert next == at && d1 == d;
    }
  }

  lemma {:induction false} DecodeTakesAll(s: Sender, allowed: map<Id, bool>, mem: Memory, at: nat, end: int,
                                          list: seq<Item>, d: Found)
    requires Taking(s, allowed, list) && Filled(s, list, mem, at, end)
    ensures DecodeAll(s.t, allowed, mem, at, end, d) == TakeAll(s, d, list)
    decreases |list|
  {
    if list == [] {
      assert end == at;
    } else {
      var next, d1 := FirstDecoded(s, allowed, mem, at, end, list, d);
      DecodeTakesAll(s, allowed, mem, next, end, list[1..], d1);
    }
  }

  /** A sent element with this key. */
  predicate Sends(s: Sender, it: Item, key: string) { Goes(s, it) && KeyOf(s, it) == key }

  /** The last one of a list. */
  predicate SendsLast(s: Sender, list: seq<Item>, i: nat, key: string)
  {
    i < |list| && Sends(s, list[i], key) && forall j :: i < j < |list| ==> !Sends(s, list[j], key)
  }

  /** The key was sent, and the value is that of the last element sent with it. */
  ghost predicate LastValue(s: Sender, list: seq<Item>, key: string, value: seq<byte>)
  {
    exists i: nat :: SendsLast(s, list, i, key) && s.values[list[i].at] == value
  }

  /** What taking all of `list` makes of one key. */
  lemma {:induction false} TakenValue(s: Sender, d: Found, list: seq<Item>, key: string)
    ensures var r := TakeAll(s, d, list);
            && (key in r.cfg <==> key in d.cfg || key in KeysSent(s, list))
            && (key in r.cfg ==>
                if key in KeysSent(s, list) then LastValue(s, list, key, r.cfg[key])
                else key in d.cfg && r.cfg[key] == d.cfg[key])
    decreases |list|
  {
    if list != [] {
      var d1, rest := TakeNext(s, d, list[0]), list[1..];
      var r := TakeAll(s, d1, rest);
      TakenValue(s, d1, rest, key);
      OneMoreKey(s, list);
      if key in KeysSent(s, rest) {
        var i: nat :| SendsLast(s, rest, i, key) && s.values[rest[i].at] == r.cfg[key];
        assert SendsLast(s, list, i + 1, key) && list[i + 1] == rest[i];
      } else if key in KeysSent(s, list) {
        assert forall j :: 0 < j < |list| ==> list[j] in rest;
        assert SendsLast(s, list, 0, key);
      }
    }
  }

  lemma {:induction false} TakenMand(s: Sender, d: Found, list: seq<Item>)
    ensures var r := TakeAll(s, d, list); r.unrecognized == d.unrecognized && r.mand == d.mand + MandSent(s, list)
    decreases |list|
  {
    if list != [] {
      TakenMand(s, TakeNext(s, d, list[0]), list[1..]);
      OneMoreKey(s, list);
    }
  }

  lemma OneMoreKey(s: Sender, list: seq<Item>)
    requires list != []
    ensures var it := list[0];
            && KeysSent(s, list) == (if Goes(s, it) then {KeyOf(s, it)} else {}) + KeysSent(s, list[1..])
            && MandSent(s, list) == (if it.mand && Goes(s, it) then {KeyOf(s, it)} else {}) + MandSent(s, list[1..])
  {
    assert forall it :: it in list <==> it == list[0] || it in list[1..];
  }

  /** A receiver that takes every element of the message gets, for each key that was sent, the value of
      the last element sent with it, and nothing else; none is unrecognized, and the mandatory keys it
      has seen are those of the mandatory elements that were sent. */
  lemma RoundTrip(s: Sender, allowed: map<Id, bool>, mem: Memory, at: nat, list: seq<Item>)
    requires AllFit(s, list) && AllAccepted(s, allowed, list) && Holds(mem, at, Encoded(s, list))
    ensures var r := DecodeAll(s.t, allowed, mem, at, at + |Encoded(s, list)|, Found(map[], {}, []));
            && r.cfg.Keys == KeysSent(s, list) && (forall k :: k in r.cfg ==> LastValue(s, list, k, r.cfg[k]))
            && r.mand == MandSent(s, list) && r.unrecognized == []
  {
    var d := Found(map[], {}, []);
    DecodeTakesAll(s, allowed, mem, at, at + |Encoded(s, list)|, list, d);
    TakenMand(s, d, list);
    forall k
      ensures k in TakeAll(s, d, list).cfg <==> k in KeysSent(s, list)
      ensures k in TakeAll(s, d, list).cfg ==> LastValue(s, list, k, TakeAll(s, d, list).cfg[k])
    {
      TakenValue(s, d, list, k);
    }
  }

  // ----- what is sent -----

  /** The elements of a message. */
  function Elems(s: Sender, list: seq<Item>): seq<Elem>
  {
    if list == [] then [] else (if Goes(s, list[0]) then [ElemOf(s, list[0])] else []) + Elems(s, list[1..])
  }

  lemma {:induction false} ElemsAreSent(s: Sender, list: seq<Item>)
    ensures Bytes(Elems(s, list)) == Encoded(s, list)
    ensures forall e :: e in Elems(s, list) ==> exists it :: it in list && Goes(s, it) && e == ElemOf(s, it)
  {
    if list != [] {
      var rest := Elems(s, list[1..]);
      ElemsAreSent(s, list[1..]);
      if Goes(s, list[0]) {
        assert Elems(s, list) == [ElemOf(s, list[0])] + rest && ([ElemOf(s, list[0])] + rest)[1..] == rest;
      } else {
        assert Elems(s, list) == [] + rest == rest;
      }
      forall e | e in Elems(s, list) ensures exists it :: it in list && Goes(s, it) && e == ElemOf(s, it) {
        if e in rest {
          var it :| it in list[1..] && Goes(s, it) && e == ElemOf(s, it);
          assert it in list;
        } else {
          assert list[0] in list;
        }
      }
    }
  }

  /** What the sender's store and handlers say of an element of the list: it has a handler that can put it
      and makes something of it, and it is mandatory or something is found below its key. */
  predicate Due(s: Sender, cfg: seq<Entry>, it: Item)
  {
    && it.at in s.t && s.t[it.at].put && it.at in s.values
    && (it.mand || BaseExists(cfg, s.t[it.at].key))
  }

  /** The positions of some of the elements of a list, in order. */
  ghost predicate Positions(idx: seq<nat>, n: nat)
  {
    (forall j :: 0 <= j < |idx| ==> idx[j] < n) && forall j, k :: 0 <= j < k < |idx| ==> idx[j] < idx[k]
  }

  /** What the handler of an element makes, on the wire. */
  predicate IsWireOf(s: Sender, it: Item, e: Elem) { it.at in s.values && e == Wire(it.at, s.values[it.at]) }

  /** `es` are the elements of the list at these positions, which are all that are due. */
  ghost predicate DueAt(s: Sender, cfg: seq<Entry>, list: seq<Item>, idx: seq<nat>, es: seq<Elem>)
  {
    Positions(idx, |list|) && AllDue(s, cfg, list, idx) && WiresAt(s, list, idx, es)
  }

  ghost predicate AllDue(s: Sender, cfg: seq<Entry>, list: seq<Item>, idx: seq<nat>)
  {
    forall i :: 0 <= i < |list| ==> (i in idx <==> Due(s, cfg, list[i]))
  }

  ghost predicate WiresAt(s: Sender, list: seq<Item>, idx: seq<nat>, es: seq<Elem>)
    requires Positions(idx, |list|)
  {
    |es| == |idx| && forall j :: 0 <= j < |idx| ==> IsWireOf(s, list[idx[j]], es[j])
  }

  function Shifted(idx: seq<nat>): (r: seq<nat>)
    ensures |r| == |idx| && forall j :: 0 <= j < |idx| ==> r[j] == idx[j] + 1
  {
    seq(|idx|, j requires 0 <= j < |idx| => idx[j] + 1)
  }

  lemma ShiftedIn(idx: seq<nat>, i: nat)
    ensures i + 1 in Shifted(idx) <==> i in idx
    ensures 0 !in Shifted(idx)
  {
    var r := Shifted(idx);
    if i in idx {
      var j :| 0 <= j < |idx| && idx[j] == i;
      assert r[j] == i + 1;
    }
    if i + 1 in r {
      var j :| 0 <= j < |r| && r[j] == i + 1;
      assert idx[j] == i;
    }
  }

  lemma PositionsCons(idx: seq<nat>, n: nat)
    requires Positions(idx, n)
    ensures Positions(Shifted(idx), n + 1) && Positions([0] + Shifted(idx), n + 1)
  {
  }

  lemma AllDueCons(s: Sender, cfg: seq<Entry>, list: seq<Item>, idx: seq<nat>, all: seq<nat>)
    requires list != [] && AllDue(s, cfg, list[1..], idx)
    requires all == if Due(s, cfg, list[0]) then [0] + Shifted(idx) else Shifted(idx)
    ensures AllDue(s, cfg, list, all)
  {
    ShiftedIn(idx, 0);
    forall i | 0 <= i < |list| ensures i in all <==> Due(s, cfg, list[i]) {
      if i > 0 {
        ShiftedIn(idx, i - 1);
        assert list[i] == list[1..][i - 1];
      }
    }
  }

  lemma WiresShift(s: Sender, list: seq<Item>, idx: seq<nat>, es: seq<Elem>)
    requires list != [] && Positions(idx, |list| - 1) && WiresAt(s, list[1..], idx, es)
    ensures Positions(Shifted(idx), |list|) && WiresAt(s, list, Shifted(idx), es)
  {
    PositionsCons(idx, |list| - 1);
    var more := Shifted(idx);
    forall j | 0 <= j < |more| ensures IsWireOf(s, list[more[j]], es[j]) {
      assert list[more[j]] == list[1..][idx[j]];
    }
  }

  lemma WiresCons(s: Sender, list: seq<Item>, more: seq<nat>, es: seq<Elem>, e: Elem)
    requires list != [] && Positions(more, |list|) && WiresAt(s, list, more, es) && IsWireOf(s, list[0], e)
    requires Positions([0] + more, |list|)
    ensures WiresAt(s, list, [0] + more, [e] + es)
  {
    var all, wires := [0] + more, [e] + es;
    forall j | 0 <= j < |all| ensures IsWireOf(s, list[all[j]], wires[j]) {
      if j > 0 {
        assert all[j] == more[j - 1] && wires[j] == es[j - 1];
      }
    }
  }

  lemma DueAtSkip(s: Sender, cfg: seq<Entry>, list: seq<Item>, idx: seq<nat>, es: seq<Elem>)
    requires list != [] && DueAt(s, cfg, list[1..], idx, es) && !Due(s, cfg, list[0])
    ensures DueAt(s, cfg, list, Shifted(idx), es)
  {
    AllDueCons(s, cfg, list, idx, Shifted(idx));
    WiresShift(s, list, idx, es);
  }

  lemma DueAtTake(s: Sender, cfg: seq<Entry>, list: seq<Item>, idx: seq<nat>, es: seq<Elem>, e: Elem)
    requires list != [] && DueAt(s, cfg, list[1..], idx, es) && Due(s, cfg, list[0]) && IsWireOf(s, list[0], e)
    ensures DueAt(s, cfg, list, [0] + Shifted(idx), [e] + es)
  {
    PositionsCons(idx, |list| - 1);
    AllDueCons(s, cfg, list, idx, [0] + Shifted(idx));
    WiresShift(s, list, idx, es);
    WiresCons(s, list, Shifted(idx), es, e);
  }

  lemma {:induction false} ElemsAreDue(s: Sender, cfg: seq<Entry>, list: seq<Item>) returns (idx: seq<nat>)
    requires forall k :: k in s.present <==> BaseExists(cfg, k)
    ensures DueAt(s, cfg, list, idx, Elems(s, list))
  {
    if list == [] {
      idx := [];
    } else {
      var later := ElemsAreDue(s, cfg, list[1..]);
      var es := Elems(s, list[1..]);
      if Due(s, cfg, list[0]) {
        DueAtTake(s, cfg, list, later, es, ElemOf(s, list[0]));
        idx := [0] + Shifted(later);
      } else {
        DueAtSkip(s, cfg, list, later, es);
        idx := Shifted(later);
        assert [] + es == es;
      }
    }
  }

  lemma DueFits(s: Sender, cfg: seq<Entry>, list: seq<Item>, idx: seq<nat>, es: seq<Elem>)
    requires DueAt(s, cfg, list, idx, es)
    requires forall it :: it in list && Due(s, cfg, it) ==> Fits(Wire(it.at, s.values[it.at]))
    ensures forall e :: e in es ==> Fits(e)
  {
    forall e | e in es ensures Fits(e) {
      var j :| 0 <= j < |es| && es[j] == e;
      assert idx[j] in idx && list[idx[j]] in list;
    }
  }

  /** Over an encoded message the walk meets exactly the elements of the list that are due, in the order of
      the list, each as its handler's bytes behind its own header or wrapped in a vendor's. */
  lemma SentExactly(s: Sender, cfg: seq<Entry>, mem: Memory, at: nat, list: seq<Item>) returns (idx: seq<nat>)
    requires forall k :: k in s.present <==> BaseExists(cfg, k)
    requires forall it :: it in list && Due(s, cfg, it) ==> Fits(Wire(it.at, s.values[it.at]))
    requires Holds(mem, at, Encoded(s, list))
    ensures DueAt(s, cfg, list, idx, Seen(mem, at, at + |Encoded(s, list)|))
    ensures Stop(mem, at, at + |Encoded(s, list)|) == at + |Encoded(s, list)|
  {
    var es := Elems(s, list);
    idx := ElemsAreDue(s, cfg, list);
    DueFits(s, cfg, list, idx, es);
    WalkOverEncoded(s, mem, at, list, at + |Encoded(s, list)|, es);
  }

  lemma WalkOverEncoded(s: Sender, mem: Memory, at: nat, list: seq<Item>, end: nat, es: seq<Elem>)
    requires es == Elems(s, list) && forall e :: e in es ==> Fits(e)
    requires Holds(mem, at, Encoded(s, list)) && end == at + |Encoded(s, list)|
    ensures Seen(mem, at, end) == es && Stop(mem, at, end) == end
  {
    ElemsAreSent(s, list);
    WalkInvertsPut(mem, at, es);
  }

  /** An optional element whose value is stored under just its key is never sent. */
  lemma OptionalScalarStaysBehind(s: Sender, it: Item, cfg: seq<Entry>)
    requires Sorted(cfg) && forall k :: k in s.present ==> BaseExists(cfg, k)
    requires !it.mand && it.at in s.t && '.' !in KeyOf(s, it) && Lookup(cfg, KeyOf(s, it)).Some?
    ensures !Goes(s, it)
  {
    BaseExistsExact(cfg, KeyOf(s, it));
  }
}
