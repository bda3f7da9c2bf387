/**
 The two local addresses of a join request and of its response: one handler for IPv4 and one for IPv6
 under one key, both mandatory, of which a sender has one.
 */
module LocalAddress {
  import opened Prelude
  import opened Elements
  import opened ElementsRoundTrip
  import opened ElementsSeen
  import opened ElementsMandatory

  const V4 := Id(0, 30)
  const V6 := Id(0, 50)
  const KEY := "capwap/local-ip-address"

  /** What cw_put_local_ip_address puts for an address of 4 or of 16 bytes; the length field is 4 in
      both cases, and so is what counts of the address. */
  function Sent(id: word, src: seq<byte>): Option<seq<byte>>
  {
    if |src| == 4 && id == V4.id then Some(src)
    else if |src| == 16 && id == V6.id then Some(src[..4])
    else None
  }

  /** The rest of an IPv6 address is written as well, and lies where the next element goes. */
  method CwPutLocalIpAddress(dst: array<byte>, at: nat, id: word, src: seq<byte>) returns (l: nat)
    requires Sent(id, src).Some? ==> at + 4 + |src| <= dst.Length
    modifies dst
    ensures match Sent(id, src)
            case Some(data) => l == |Put(Elem(id, data))| && dst[..] ==
                               Written(old(dst[..]), at, Put(Elem(id, data)) + src[4..])
            case None => l == 0 && dst[..] == old(dst[..])
  {
    if (|src| == 4 && id == V4.id) || (|src| == 16 && id == V6.id) {
      WrittenBefore(dst[..], at, U16(id) + U16(4), src);
      CopyTo(dst, at + 4, src);
      CopyTo(dst, at, U16(id) + U16(4));
      assert src == src[..4] + src[4..];
      assert U16(id) + U16(4) + src == Put(Elem(id, src[..4])) + src[4..];
      return 8;
    }
    return 0;
  }

  /** A sender with this address, and the handlers of both elements. */
  ghost predicate Has(s: Sender, src: seq<byte>)
  {
    && V4 in s.t && s.t[V4] == Handler(KEY, 4, 4, Generic, true)
    && V6 in s.t && s.t[V6] == Handler(KEY, 16, 16, Generic, true)
    && (V4 in s.values <==> Sent(V4.id, src).Some?) && (V4 in s.values ==> s.values[V4] == Sent(V4.id, src).value)
    && (V6 in s.values <==> Sent(V6.id, src).Some?) && (V6 in s.values ==> s.values[V6] == Sent(V6.id, src).value)
  }

  /** With an IPv4 address the mandatory IPv6 element is not sent, and nobody notices. */
  lemma Ipv4HidesIpv6(s: Sender, allowed: map<Id, bool>, mem: Memory, at: nat, list: seq<Item>, mandKeys: seq<string>,
                      src: seq<byte>)
    requires Has(s, src) && |src| == 4 && Item(V4, true) in list && Item(V6, true) in list
    requires AllFit(s, list) && AllAccepted(s, allowed, list) && Holds(mem, at, Encoded(s, list))
    requires KeysOf(s, list, mandKeys)
    ensures !Goes(s, Item(V6, true)) && KEY !in Missing(mandKeys, SeenMand(s, allowed, mem, at, list))
  {
    var it, o := Item(V6, true), Item(V4, true);
    assert Mandatory(s, list, o) && Goes(s, o) && KeyOf(s, o) == KeyOf(s, it);
    UnsentUnreported(s, allowed, mem, at, list, mandKeys, it);
  }

  // ----- an IPv6 address -----

  lemma {:induction false} UnmarkedAll(t: Table, allowed: map<Id, bool>, es: seq<Elem>, key: string)
    requires forall e :: e in es ==> !SomeMarks(t, allowed, Visits(t, allowed, Id(0, e.id), e.data), key)
    ensures !SomeMarks(t, allowed, AllVisits(t, allowed, es), key)
  {
    if es != [] {
      assert es[0] in es;
      UnmarkedAll(t, allowed, es[1..], key);
    }
  }

  /** The only elements under the key are these two, and the wrapping of other vendors' has another. */
  ghost predicate OnlyHere(s: Sender, list: seq<Item>)
  {
    && (forall it :: it in list && Goes(s, it) ==> s.t[it.at].get == Generic)
    && (forall it :: it in list && Goes(s, it) && KeyOf(s, it) == KEY ==> it.at == V4 || it.at == V6)
    && (Id(0, VENDOR_SPECIFIC_PAYLOAD) in s.t ==> s.t[Id(0, VENDOR_SPECIFIC_PAYLOAD)].key != KEY)
  }

  lemma UnmarkedOne(s: Sender, allowed: map<Id, bool>, list: seq<Item>, it: Item, src: seq<byte>)
    requires Has(s, src) && |src| == 16 && OnlyHere(s, list) && it in list && Goes(s, it)
    ensures var e := ElemOf(s, it); !SomeMarks(s.t, allowed, Visits(s.t, allowed, Id(0, e.id), e.data), KEY)
  {
    var e, data := ElemOf(s, it), s.values[it.at];
    assert it.at != V4;
    if it.at.vendor == 0 {
      assert Visits(s.t, allowed, it.at, data) == [Visit(it.at, data)];
    } else {
      var outer := Id(0, VENDOR_SPECIFIC_PAYLOAD);
      InnerOfWire(it.at, data);
      assert Visits(s.t, allowed, it.at, data) == [Visit(it.at, data)];
      assert Visits(s.t, allowed, outer, e.data) == [Visit(outer, e.data)]
          || Visits(s.t, allowed, outer, e.data) == [Visit(outer, e.data)] + [Visit(it.at, data)];
    }
  }

  lemma InnerOfWire(at: Id, data: seq<byte>)
    requires at.vendor != 0
    ensures var w := Wire(at, data).data; |w| >= 6 && Inner(w) == at && w[6..] == data
  {
  }

  /** With an IPv6 address its element is sent with the first four bytes, which is too short for any
      receiver: the address is reported missing although it was sent. */
  lemma Ipv6IsMissing(s: Sender, allowed: map<Id, bool>, mem: Memory, at: nat, list: seq<Item>, mandKeys: seq<string>,
                      src: seq<byte>)
    requires Has(s, src) && |src| == 16 && OnlyHere(s, list) && Item(V6, true) in list && KEY in mandKeys
    requires AllFit(s, list) && Holds(mem, at, Encoded(s, list))
    ensures Goes(s, Item(V6, true)) && KEY in Missing(mandKeys, SeenMand(s, allowed, mem, at, list))
  {
    var es := Elems(s, list);
    ElemsAreSent(s, list);
    WalkInvertsPut(mem, at, es);
    forall e | e in es ensures !SomeMarks(s.t, allowed, Visits(s.t, allowed, Id(0, e.id), e.data), KEY) {
      var it :| it in list && Goes(s, it) && e == ElemOf(s, it);
      UnmarkedOne(s, allowed, list, it, src);
    }
    UnmarkedAll(s.t, allowed, es, KEY);
    DecodeAdds(s.t, allowed, mem, at, at + |Encoded(s, list)|, KEY);
    InMissing(mandKeys, SeenMand(s, allowed, mem, at, list), KEY);
  }
}
