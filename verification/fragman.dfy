/**
 Reassembly of CAPWAP fragments (RFC 5415, sections 3.4 and 4.3).

 A table of FRAG_MAXIDS slots collects fragments. A slot knows its message only through two byte
 counters: how many bytes arrived, and how many are needed once the last fragment was seen.
 The functions of this module are the specification; FragTable is the table updated in place.
 */
module Fragman {
  import opened Prelude

  const FRAG_MAXSIZE := 65536 + 4
  const FRAG_MAXIDS := 10
  const FRAG_TTL := 5

  /** A packet as it travels: header length in bytes, the F and L flags, the second header
      dword (fragment id, 13-bit fragment offset, 3 reserved bits) and what follows the header. */
  datatype Packet = Packet(hlen: nat, flagF: bool, flagL: bool, dword1: nat, payload: seq<byte>) {
    function FragId(): nat { dword1 / 0x1_0000 }

    /** Where the payload belongs; the header counts in units of 8 bytes. */
    function Offset(): nat { dword1 / 8 % 0x2000 * 8 }

    function AsPiece(): Piece { Piece(Offset(), payload, flagL) }

    /** Three sizes pass the bound that is tested before copying and end behind the buffer. */
    predicate InBuffer() { !(0x1_0000 < Offset() + |payload| < FRAG_MAXSIZE) }
  }

  /** The guarded copy, to behind the 4 bytes of the length, stays inside the buffer exactly for the
      packets that InBuffer admits. */
  lemma GuardedCopyFits(p: Packet)
    ensures (p.Offset() + |p.payload| < FRAG_MAXSIZE ==> 4 + p.Offset() + |p.payload| <= FRAG_MAXSIZE) <==> p.InBuffer()
  {
  }

  /** The others can be made: one byte too many at the last offset. */
  lemma CopyCanPassTheEnd(payload: seq<byte>)
    requires |payload| == 9
    ensures var p := Packet(8, true, true, 0xfff8, payload);
            && p.Offset() + |payload| < FRAG_MAXSIZE < 4 + p.Offset() + |payload| && !p.InBuffer()
  {
    assert 0xfff8 / 8 % 0x2000 * 8 == 0xfff8;
  }

  /** What one packet contributes to a message. */
  datatype Piece = Piece(off: nat, data: seq<byte>, last: bool) {
    function End(): nat { off + |data| }

    predicate Covers(k: int) { off <= k < End() }

    function Bytes(): map<nat, byte>
    {
      map k: nat {:trigger Covers(k)} | off <= k < off + |data| :: data[k - off]
    }
  }

  /** The state of one reassembly: the two counters and the bytes copied so far. */
  datatype Asm = Asm(received: nat, needed: nat, written: map<nat, byte>)

  const EMPTY := Asm(0, 0, map[])

  datatype Slot = Free | Live(fragid: int, t: int, asm: Asm)

  function AddPiece(a: Asm, p: Piece): Asm
  {
    var a1 := if p.End() < FRAG_MAXSIZE then
                a.(received := a.received + |p.data|, written := a.written + p.Bytes())
              else a;
    if p.last then a1.(needed := p.End()) else a1
  }

  predicate Complete(a: Asm) { 0 < a.needed <= a.received }

  /** First live slot that collects `id`, or -1. */
  function Find(s: seq<Slot>, id: int): (i: int)
    ensures -1 <= i < |s|
    ensures i >= 0 ==> s[i].Live? && s[i].fragid == id
    ensures forall j :: 0 <= j < (if i < 0 then |s| else i) ==> !(s[j].Live? && s[j].fragid == id)
  {
    if s == [] then -1
    else if s[0].Live? && s[0].fragid == id then 0
    else var r := Find(s[1..], id); if r < 0 then -1 else r + 1
  }

  predicate Usable(slot: Slot, now: int) { slot.Free? || now - slot.t > FRAG_TTL }

  /** First slot that is free or has outlived FRAG_TTL, or -1. */
  function Place(s: seq<Slot>, now: int): (i: int)
    ensures -1 <= i < |s|
    ensures i >= 0 ==> s[i].Free? || now - s[i].t > FRAG_TTL
    ensures forall j :: 0 <= j < (if i < 0 then |s| else i) ==> s[j].Live? && now - s[j].t <= FRAG_TTL
  {
    if s == [] then -1
    else if Usable(s[0], now) then 0
    else var r := Place(s[1..], now); if r < 0 then -1 else r + 1
  }

  /** The slot that serves a packet, or -1 when the table is full. */
  function Target(s: seq<Slot>, now: int, p: Packet): (i: int)
    ensures -1 <= i < |s|
  {
    var g := Find(s, p.FragId());
    if g >= 0 then g else Place(s, now)
  }

  /** One packet: the new table, and the finished reassembly if this packet finished one. */
  function Add(s: seq<Slot>, now: int, p: Packet): (r: (seq<Slot>, Option<Asm>))
    ensures |r.0| == |s|
  {
    var i := Target(s, now, p);
    if i < 0 then (s, None)
    else
      var slot := if Find(s, p.FragId()) >= 0 then s[i] else Live(p.FragId(), now, EMPTY);
      var a := AddPiece(slot.asm, p.AsPiece());
      if Complete(a) then (s[i := Free], Some(a)) else (s[i := slot.(asm := a)], None)
  }

  // ----- the table in place -----

  /** One element of the C array of slots. */
  datatype Frag = Frag(buffer: array?<byte>, fragid: int, bytesReceived: nat, bytesNeeded: nat, t: int)

  class FragTable {
    const frags: array<Frag>
    ghost var slots: seq<Slot>

    ghost function Buffers(): set<object>
      reads this, frags
    {
      set i | 0 <= i < frags.Length && frags[i].buffer != null :: frags[i].buffer
    }

    ghost predicate Matches(f: Frag, s: Slot)
      reads f.buffer
    {
      match s
      case Free => f.buffer == null
      case Live(id, t, a) =>
        && f.buffer != null && f.buffer.Length == FRAG_MAXSIZE
        && f.fragid == id && f.t == t && f.bytesReceived == a.received && f.bytesNeeded == a.needed
        && forall k :: k in a.written ==> 4 + k < FRAG_MAXSIZE && f.buffer[4 + k] == a.written[k]
    }

    ghost predicate Valid()
      reads this, frags, Buffers()
    {
      && frags.Length == |slots| == FRAG_MAXIDS
      && (forall i :: 0 <= i < FRAG_MAXIDS ==> Matches(frags[i], slots[i]))
      && (forall i, j :: 0 <= i < j < FRAG_MAXIDS && frags[i].buffer != null ==> frags[i].buffer != frags[j].buffer)
    }

    constructor ()
      ensures Valid() && fresh(frags)
      ensures slots == seq(FRAG_MAXIDS, _ => Free)
    {
      frags := new Frag[FRAG_MAXIDS](_ => Frag(null, 0, 0, 0, 0));
      slots := seq(FRAG_MAXIDS, _ => Free);
    }

    /** frag_get: the index of the slot that already collects `fragid`, or -1. */
    method FragGet(fragid: int) returns (r: int)
      requires Valid()
      ensures r == Find(slots, fragid)
    {
      var i := 0;
      while i < FRAG_MAXIDS
        invariant 0 <= i <= FRAG_MAXIDS
        invariant forall j :: 0 <= j < i ==> !(slots[j].Live? && slots[j].fragid == fragid)
      {
        assert Matches(frags[i], slots[i]);
        if frags[i].buffer != null && frags[i].fragid == fragid {
          return i;
        }
        i := i + 1;
      }
      return -1;
    }

    /** frag_new: take the first slot that is free or too old, reusing its buffer. */
    method FragNew(fragid: int, now: int) returns (r: int)
      requires Valid()
      modifies this, frags
      ensures Valid()
      ensures r == Place(old(slots), now)
      ensures r < 0 <==> forall i :: 0 <= i < FRAG_MAXIDS ==> old(slots)[i].Live? && now - old(slots)[i].t <= FRAG_TTL
      ensures slots == if r < 0 then old(slots) else old(slots)[r := Live(fragid, now, EMPTY)]
      ensures forall b :: b in Buffers() ==> b in old(Buffers()) || fresh(b)
    {
      var i := 0;
      while i < FRAG_MAXIDS
        invariant 0 <= i <= FRAG_MAXIDS
        invariant slots == old(slots) && frags[..] == old(frags[..])
        invariant Valid()
        invariant forall j :: 0 <= j < i ==> !Usable(slots[j], now)
      {
        assert Matches(frags[i], slots[i]);
        if frags[i].buffer == null || now - frags[i].t > FRAG_TTL {
          var b := frags[i].buffer;
          if b == null {
            b := new byte[FRAG_MAXSIZE];
          }
          frags[i] := Frag(b, fragid, 0, 0, now);
          slots := slots[i := Live(fragid, now, EMPTY)];
          return i;
        }
        i := i + 1;
      }
      return -1;
    }

    /** The copy and counter step of fragman_add for slot `i`. */
    method StorePiece(i: nat, p: Packet)
      requires Valid() && p.InBuffer()
      requires i < FRAG_MAXIDS && slots[i].Live?
      modifies this, frags, frags[i].buffer
      ensures Valid() && Buffers() == old(Buffers())
      ensures slots == old(slots)[i := old(slots)[i].(asm := AddPiece(old(slots)[i].asm, p.AsPiece()))]
    {
      var f := frags[i];
      assert Matches(f, slots[i]);
      ghost var slot := slots[i].(asm := AddPiece(slots[i].asm, p.AsPiece()));
      var dst := p.Offset();
      if dst + |p.payload| < FRAG_MAXSIZE {
        forall k | 0 <= k < |p.payload| {
          f.buffer[4 + dst + k] := p.payload[k];
        }
        f := f.(bytesReceived := f.bytesReceived + |p.payload|);
      }
      if p.flagL {
        f := f.(bytesNeeded := dst + |p.payload|);
      }
      assert Matches(f, slot);
      forall j | 0 <= j < FRAG_MAXIDS && j != i
        ensures Matches(frags[j], slots[j])
      {
        assert old(Matches(frags[j], slots[j]));
      }
      frags[i] := f;
      slots := slots[i := slot];
      assert forall j :: 0 <= j < FRAG_MAXIDS ==> frags[j].buffer == old(frags[j].buffer);
      forall b ensures b in Buffers() <==> b in old(Buffers()) {
        if j :| 0 <= j < FRAG_MAXIDS && frags[j].buffer == b { assert old(frags[j].buffer) == b; }
      }
    }

    /** The end of fragman_add: a finished buffer leaves the table. */
    method TakeIfComplete(i: nat) returns (r: array?<byte>, n: nat)
      requires Valid()
      requires i < FRAG_MAXIDS && slots[i].Live?
      modifies this, frags
      ensures Valid()
      ensures var a := old(slots)[i].asm;
              if Complete(a) then
                slots == old(slots)[i := Free] && r != null && n == a.needed && r !in Buffers() && Holds(r, a)
              else slots == old(slots) && r == null
    {
      r, n := null, 0;
      var f := frags[i];
      assert Matches(f, slots[i]);
      if 0 < f.bytesNeeded <= f.bytesReceived {
        r, n := f.buffer, f.bytesNeeded;
        frags[i] := f.(buffer := null);
        slots := slots[i := Free];
      }
    }

    /** fragman_add: the message stands behind the first 4 bytes of the returned buffer. */
    method FragmanAdd(p: Packet, now: int) returns (r: array?<byte>, n: nat, full: bool)
      requires Valid() && p.InBuffer()
      modifies this, frags, Buffers()
      ensures Valid()
      ensures slots == Add(old(slots), now, p).0
      ensures full <==>
              && Find(old(slots), p.FragId()) < 0
              && forall i :: 0 <= i < FRAG_MAXIDS ==> old(slots)[i].Live? && now - old(slots)[i].t <= FRAG_TTL
      ensures var o := Add(old(slots), now, p).1;
              if r == null then o == None
              else o.Some? && n == o.value.needed && r !in Buffers() && Holds(r, o.value)
    {
      r, n, full := null, 0, false;
      var i := FragGet(p.FragId());
      if i < 0 {
        i := FragNew(p.FragId(), now);
      }
      if i < 0 {
        full := true;
        return;
      }
      assert Matches(frags[i], slots[i]) && frags[i].buffer in Buffers();
      StorePiece(i, p);
      r, n := TakeIfComplete(i);
    }
  }

  /** The bytes of a reassembly, behind room for its length. */
  ghost predicate Holds(b: array<byte>, a: Asm)
    reads b
  {
    forall k :: k in a.written ==> 4 + k < b.Length && b[4 + k] == a.written[k]
  }
}
