/**
 Message elements: the loop that puts the elements of a message one behind the other, and the walk
 over a received message that picks them up again, with the rules for what is accepted and what is
 mandatory.
 */
module Elements {
  import opened Prelude

  const VENDOR_SPECIFIC_PAYLOAD: word := 37
  const UNRECOGNIZED_MESSAGE_ELEMENT := 21

  /** What stands in memory; a walk may look behind the end of a packet. */
  type Memory = nat -> byte

  datatype Id = Id(vendor: uint32, id: word)

  datatype Get = NoGet | Generic | VendorPayload

  datatype Handler = Handler(key: string, minLen: nat, maxLen: nat, get: Get, put: bool)

  type Table = map<Id, Handler>

  /** An entry of a message's element list. */
  datatype Item = Item(at: Id, mand: bool)

  /** An element as it goes over the wire. */
  datatype Elem = Elem(id: word, data: seq<byte>)

  // ----- bytes -----

  function U16(n: word): seq<byte> { [n / 256, n % 256] }

  function U32(n: uint32): seq<byte> { U16(n / 0x1_0000) + U16(n % 0x1_0000) }

  function ReadU16(mem: Memory, at: nat): word
  {
    var hi: int, lo: int := mem(at), mem(at + 1);
    hi * 256 + lo
  }

  function ReadU32(mem: Memory, at: nat): uint32 { ReadU16(mem, at) * 0x1_0000 + ReadU16(mem, at + 2) }

  function Slice(mem: Memory, at: nat, len: nat): (s: seq<byte>)
    ensures |s| == len
  {
    seq(len, i requires 0 <= i < len => mem(at + i))
  }

  ghost predicate Holds(mem: Memory, at: nat, s: seq<byte>)
  {
    forall i :: 0 <= i < |s| ==> mem(at + i) == s[i]
  }

  /** The 16-bit length field can hold the length. */
  predicate Fits(e: Elem) { |e.data| < 0x1_0000 }

  function Put(e: Elem): (s: seq<byte>)
    ensures |s| == 4 + |e.data|
  {
    U16(e.id) + U16(|e.data| % 0x1_0000) + e.data
  }

  // ----- cw_encode_elements -----

  /** What a sender has: handlers, the keys for which cw_cfg_base_exists finds something, and the bytes
      that some handlers make of what is stored under their keys. Two handlers of one key can make
      different bytes of it, or one of them none. */
  datatype Sender = Sender(t: Table, present: set<string>, values: map<Id, seq<byte>>)

  /** Whether an element of the list goes into the message: it has a handler that can put it, it is
      mandatory or there is something below its key, and the handler makes something of it. */
  predicate Goes(s: Sender, it: Item)
  {
    && it.at in s.t && s.t[it.at].put
    && (it.mand || s.t[it.at].key in s.present)
    && it.at in s.values
  }

  /** Elements of other vendors travel in a vendor specific payload. */
  function Wire(at: Id, data: seq<byte>): Elem
  {
    if at.vendor == 0 then Elem(at.id, data) else Elem(VENDOR_SPECIFIC_PAYLOAD, U32(at.vendor) + U16(at.id) + data)
  }

  function ElemOf(s: Sender, it: Item): Elem
    requires Goes(s, it)
  {
    Wire(it.at, s.values[it.at])
  }

  function Piece(s: Sender, it: Item): seq<byte> { if Goes(s, it) then Put(ElemOf(s, it)) else [] }

  function Encoded(s: Sender, list: seq<Item>): seq<byte>
  {
    if list == [] then [] else Piece(s, list[0]) + Encoded(s, list[1..])
  }

  ghost predicate AllFit(s: Sender, list: seq<Item>)
  {
    forall it :: it in list && Goes(s, it) ==> Fits(ElemOf(s, it))
  }

  /** A buffer after `s` was written at `at`. */
  function Written(buf: seq<byte>, at: nat, s: seq<byte>): (r: seq<byte>)
    requires at + |s| <= |buf|
    ensures |r| == |buf|
  {
    buf[..at] + s + buf[at + |s|..]
  }

  lemma WrittenBehind(buf: seq<byte>, at: nat, a: seq<byte>, b: seq<byte>)
    requires at + |a| + |b| <= |buf|
    ensures Written(Written(buf, at, a), at + |a|, b) == Written(buf, at, a + b)
  {
  }

  lemma WrittenBefore(buf: seq<byte>, at: nat, a: seq<byte>, b: seq<byte>)
    requires at + |a| + |b| <= |buf|
    ensures Written(Written(buf, at + |a|, b), at, a) == Written(buf, at, a + b)
  {
  }

  method CopyTo(dst: array<byte>, at: nat, s: seq<byte>)
    requires at + |s| <= dst.Length
    modifies dst
    ensures dst[..] == Written(old(dst[..]), at, s)
  {
    forall i | 0 <= i < |s| {
      dst[at + i] := s[i];
    }
  }

  /** What write_header puts in front of `len` bytes. */
  function Header(at: Id, len: nat): (h: seq<byte>)
    requires len + 6 < 0x1_0000 || (at.vendor == 0 && len < 0x1_0000)
    ensures |h| == if at.vendor == 0 then 4 else 10
  {
    if at.vendor == 0 then U16(at.id) + U16(len)
    else U16(VENDOR_SPECIFIC_PAYLOAD) + U16(len + 6) + U32(at.vendor) + U16(at.id)
  }

  lemma Regroup(a: seq<byte>, b: seq<byte>, c: seq<byte>, d: seq<byte>)
    ensures a + (b + c + d) == a + b + c + d
  {
  }

  lemma HeaderFirst(at: Id, data: seq<byte>)
    requires Fits(Wire(at, data))
    ensures Put(Wire(at, data)) == Header(at, |data|) + data
  {
    if at.vendor != 0 {
      var head := U16(VENDOR_SPECIFIC_PAYLOAD) + U16(|data| + 6);
      assert |U32(at.vendor) + U16(at.id) + data| == |data| + 6;
      assert Put(Wire(at, data)) == head + (U32(at.vendor) + U16(at.id) + data);
      Regroup(head, U32(at.vendor), U16(at.id), data);
      assert Header(at, |data|) == head + U32(at.vendor) + U16(at.id);
    }
  }

  /** cw_out_generic: the type writes behind the place for the header, then the header is put. */
  method OutGeneric(dst: array<byte>, at: nat, id: Id, data: seq<byte>) returns (l: nat)
    requires Fits(Wire(id, data)) && at + |Put(Wire(id, data))| <= dst.Length
    modifies dst
    ensures l == |Put(Wire(id, data))| && dst[..] == Written(old(dst[..]), at, Put(Wire(id, data)))
  {
    HeaderFirst(id, data);
    WrittenBefore(dst[..], at, Header(id, |data|), data);
    var start := if id.vendor == 0 then 4 else 10;
    CopyTo(dst, at + start, data);
    CopyTo(dst, at, Header(id, |data|));
    l := start + |data|;
  }

  method EncodeElements(dst: array<byte>, at: nat, s: Sender, list: seq<Item>) returns (len: nat)
    requires AllFit(s, list) && at + |Encoded(s, list)| <= dst.Length
    modifies dst
    ensures len == |Encoded(s, list)| && dst[..] == Written(old(dst[..]), at, Encoded(s, list))
  {
    len := 0;
    ghost var before, done: seq<byte> := dst[..], [];
    var i := 0;
    assert list[0..] == list;
    while i < |list|
      invariant i <= |list| && len == |done| && EncodedTo(s, list, i, done)
      invariant at + len <= |before| == dst.Length && dst[..] == Written(before, at, done)
    {
      EncodedStep(s, list, i, done);
      var l := EncodeNext(dst, at, len, s, list[i], before, done);
      done := done + Piece(s, list[i]);
      len, i := len + l, i + 1;
    }
    EncodedStep(s, list, i, done);
  }

  /** One turn of its loop, behind what is `done`. */
  method EncodeNext(dst: array<byte>, at: nat, len: nat, s: Sender, it: Item, ghost before: seq<byte>,
                    ghost done: seq<byte>) returns (l: nat)
    requires Goes(s, it) ==> Fits(ElemOf(s, it))
    requires len == |done| && at + len + |Piece(s, it)| <= |before| && dst[..] == Written(before, at, done)
    modifies dst
    ensures l == |Piece(s, it)| && dst[..] == Written(before, at, done + Piece(s, it))
  {
    WrittenBehind(before, at, done, Piece(s, it));
    l := EncodeItem(dst, at + len, s, it);
  }

  method EncodeItem(dst: array<byte>, at: nat, s: Sender, it: Item) returns (l: nat)
    requires Goes(s, it) ==> Fits(ElemOf(s, it))
    requires at + |Piece(s, it)| <= dst.Length
    modifies dst
    ensures l == |Piece(s, it)| && dst[..] == Written(old(dst[..]), at, Piece(s, it))
  {
    if it.at !in s.t || !s.t[it.at].put {
      return 0;
    }
    var handler := s.t[it.at];
    if !it.mand && handler.key !in s.present {
      return 0;
    }
    if it.at !in s.values {
      return 0;
    }
    l := OutGeneric(dst, at, it.at, s.values[it.at]);
  }

  /** What the elements before `i` have come to. */
  ghost predicate EncodedTo(s: Sender, list: seq<Item>, i: nat, done: seq<byte>)
    requires i <= |list|
  {
    done + Encoded(s, list[i..]) == Encoded(s, list)
  }

  lemma EncodedStep(s: Sender, list: seq<Item>, i: nat, done: seq<byte>)
    requires i <= |list| && EncodedTo(s, list, i, done)
    ensures i == |list| ==> done == Encoded(s, list)
    ensures i < |list| ==>
            && EncodedTo(s, list, i + 1, done + Piece(s, list[i]))
            && |done| + |Piece(s, list[i])| <= |Encoded(s, list)|
  {
    if i == |list| {
      assert list[i..] == [];
    } else {
      assert list[i..][1..] == list[i + 1..];
      var piece, rest := Piece(s, list[i]), Encoded(s, list[i + 1..]);
      assert done + (piece + rest) == done + piece + rest;
    }
  }

  // ----- cw_decode_element and cw_decode_elements -----

  /** What decoding builds up: values by key, mandatory keys seen, places of unrecognized elements. */
  datatype Found = Found(cfg: map<string, seq<byte>>, mand: set<string>, unrecognized: seq<nat>)

  function DecodeOne(t: Table, allowed: map<Id, bool>, mem: Memory, at: Id, off: nat, len: int, d: Found)
    : (Found, int)
    decreases len
  {
    if at !in t || at !in allowed then (d, UNRECOGNIZED_MESSAGE_ELEMENT)
    else if len < t[at].minLen then (d, -1)
    else
      var h := t[at];
      var d1 := if allowed[at] then d.(mand := d.mand + {h.key}) else d;
      if len > h.maxLen && h.maxLen != 0 then (d1, -1)
      else
        match h.get
        case NoGet => (d1, UNRECOGNIZED_MESSAGE_ELEMENT)
        case Generic => (d1.(cfg := d1.cfg[h.key := Slice(mem, off, len)]), 0)
        case VendorPayload =>
          var inner := Id(ReadU32(mem, off), ReadU16(mem, off + 4));
          if inner !in t then (d1, 0) else (DecodeOne(t, allowed, mem, inner, off + 6, len - 6, d1).0, 1)
  }

  /** The element at `i`. */
  function DecodeAt(t: Table, allowed: map<Id, bool>, mem: Memory, i: nat, d: Found): Found
  {
    var (d1, rc) := DecodeOne(t, allowed, mem, Id(0, ReadU16(mem, i)), i + 4, ReadU16(mem, i + 2), d);
    if rc == UNRECOGNIZED_MESSAGE_ELEMENT then d1.(unrecognized := d1.unrecognized + [i]) else d1
  }

  function DecodeAll(t: Table, allowed: map<Id, bool>, mem: Memory, i: nat, end: int, d: Found): Found
    decreases end - i
  {
    if i >= end then d
    else DecodeAll(t, allowed, mem, i + 4 + ReadU16(mem, i + 2), end, DecodeAt(t, allowed, mem, i, d))
  }

  lemma OneDecoded(t: Table, allowed: map<Id, bool>, mem: Memory, i: nat, end: int, d: Found)
    requires i < end
    ensures DecodeAll(t, allowed, mem, i, end, d)
         == DecodeAll(t, allowed, mem, i + 4 + ReadU16(mem, i + 2), end, DecodeAt(t, allowed, mem, i, d))
  {
  }

  /** Decoding from `i` on leads from `d` to `all`. */
  ghost predicate Leads(t: Table, allowed: map<Id, bool>, mem: Memory, i: nat, end: int, d: Found, all: Found)
  {
    DecodeAll(t, allowed, mem, i, end, d) == all
  }

  lemma LeadsOn(t: Table, allowed: map<Id, bool>, mem: Memory, i: nat, end: int, d: Found, all: Found)
    requires i < end && Leads(t, allowed, mem, i, end, d, all)
    ensures Leads(t, allowed, mem, i + 4 + ReadU16(mem, i + 2), end, DecodeAt(t, allowed, mem, i, d), all)
  {
    OneDecoded(t, allowed, mem, i, end, d);
  }

  lemma LeadsThere(t: Table, allowed: map<Id, bool>, mem: Memory, i: nat, end: int, d: Found, all: Found)
    requires i >= end && Leads(t, allowed, mem, i, end, d, all)
    ensures d == all
  {
  }

  class Params {
    const t: Table
    const allowed: map<Id, bool>
    var cfg: map<string, seq<byte>>
    var mandFound: set<string>
    var unrecognized: seq<nat>

    constructor (t: Table, allowed: map<Id, bool>)
      ensures this.t == t && this.allowed == allowed && Now() == Found(map[], {}, [])
    {
      this.t, this.allowed := t, allowed;
      cfg, mandFound, unrecognized := map[], {}, [];
    }

    ghost function Now(): Found
      reads this
    {
      Found(cfg, mandFound, unrecognized)
    }

    method DecodeElement(mem: Memory, at: Id, off: nat, len: int) returns (rc: int)
      modifies this
      ensures (Now(), rc) == DecodeOne(t, allowed, mem, at, off, len, old(Now()))
      decreases len
    {
      if at !in t {
        return UNRECOGNIZED_MESSAGE_ELEMENT;
      }
      var handler := t[at];
      if at !in allowed {
        return UNRECOGNIZED_MESSAGE_ELEMENT;
      }
      if len < handler.minLen {
        return -1;
      }
      if allowed[at] {
        mandFound := mandFound + {handler.key};
      }
      if len > handler.maxLen && handler.maxLen != 0 {
        return -1;
      }
      match handler.get
      case NoGet => return UNRECOGNIZED_MESSAGE_ELEMENT;
      case Generic =>
        cfg := cfg[handler.key := Slice(mem, off, len)];
        return 0;
      case VendorPayload =>
        var inner := Id(ReadU32(mem, off), ReadU16(mem, off + 4));
        if inner !in t {
          return 0;
        }
        var _ := DecodeElement(mem, inner, off + 6, len - 6);
        return 1;
    }

    method DecodeElements(mem: Memory, start: nat, elemsLen: int)
      modifies this
      ensures Now() == DecodeAll(t, allowed, mem, start, start + elemsLen, old(Now()))
    {
      var elem := start;
      ghost var all := DecodeAll(t, allowed, mem, start, start + elemsLen, Now());
      while elem < start + elemsLen
        invariant Leads(t, allowed, mem, elem, start + elemsLen, Now(), all)
        decreases start + elemsLen - elem
      {
        elem := DecodeNext(mem, elem, start + elemsLen, all);
      }
      LeadsThere(t, allowed, mem, elem, start + elemsLen, Now(), all);
    }

    /** One turn of its loop, with `all` what it comes to in the end. */
    method DecodeNext(mem: Memory, elem: nat, ghost end: int, ghost all: Found) returns (next: nat)
      requires elem < end && Leads(t, allowed, mem, elem, end, Now(), all)
      modifies this
      ensures Now() == DecodeAt(t, allowed, mem, elem, old(Now()))
      ensures next == elem + 4 + ReadU16(mem, elem + 2) && Leads(t, allowed, mem, next, end, Now(), all)
    {
      LeadsOn(t, allowed, mem, elem, end, Now(), all);
      var rc := DecodeElement(mem, Id(0, ReadU16(mem, elem)), elem + 4, ReadU16(mem, elem + 2));
      if rc == UNRECOGNIZED_MESSAGE_ELEMENT {
        unrecognized := unrecognized + [elem];
      }
      next := elem + 4 + ReadU16(mem, elem + 2);
    }
  }
}
