/**
 The cutter: cw_send_msg splits a message (the part behind the CAPWAP header) into packets.
 Offsets are counted in units of 8 bytes, but the MTU is only aligned to 4.
 */
module Sender {
  import opened Prelude
  import opened Fragman

  const MAX_MTU := 9500

  /** mtu &= ~3 */
  function Align(mtu: nat): nat { mtu - mtu % 4 }

  function Dword1(fragid: word, fo: nat): nat { fragid * 0x1_0000 + fo * 8 }

  /** The packets still to be sent, with `fo` units sent and `left` bytes to go. */
  function Rest(msg: seq<byte>, fragid: word, mtu: nat, hlen: nat, fo: nat, left: nat): (r: seq<Packet>)
    requires hlen < mtu && 8 < mtu
    requires left <= |msg| && fo * 8 + left <= |msg|
    ensures |r| > 0
    ensures |r| > 1 <==> left + hlen > mtu
    decreases left
  {
    if left + hlen > mtu then
      var n := mtu - hlen;
      [Packet(hlen, true, false, Dword1(fragid, fo), msg[fo * 8..fo * 8 + n])]
      + Rest(msg, fragid, mtu, 8, fo + n / 8, left - n)
    else
      [Packet(hlen, fo > 0, fo > 0, Dword1(fragid, fo), msg[fo * 8..fo * 8 + left])]
  }

  /** All packets of a message. */
  function Packets(msg: seq<byte>, fragid: word, mtu: nat, hlen: nat): seq<Packet>
    requires hlen < Align(mtu) && 8 < Align(mtu)
  {
    Rest(msg, fragid, Align(mtu), hlen, 0, |msg|)
  }

  /** What a receiver expects: consecutive non-empty pieces that spell `msg`, and when there is
      more than one of them, F on all and L on the last. */
  ghost predicate Tiles(ps: seq<Packet>, msg: seq<byte>)
  {
    && TilesFrom(ps, msg, 0)
    && forall i :: 0 <= i < |ps| ==> ps[i].flagF == (|ps| > 1) && ps[i].flagL == (|ps| > 1 && i == |ps| - 1)
  }

  ghost predicate TilesFrom(ps: seq<Packet>, msg: seq<byte>, at: nat)
  {
    && |ps| > 0
    && ps[0].Offset() == at
    && IsPieceOf(ps[0], msg)
    && var end := ps[0].AsPiece().End();
       if |ps| == 1 then end == |msg| else TilesFrom(ps[1..], msg, end)
  }

  ghost predicate IsPieceOf(p: Packet, msg: seq<byte>)
  {
    p.AsPiece().End() <= |msg| && p.payload == msg[p.Offset()..p.AsPiece().End()] && |p.payload| > 0
  }

  /** The exact condition on the sizes under which cutting is faithful. */
  predicate Aligned(len: nat, mtu: nat, hlen: nat)
  {
    var m := Align(mtu);
    || len + hlen <= m  // no fragmentation
    || ((m - hlen) % 8 == 0 && (len - (m - hlen) + 8 <= m || (m - 8) % 8 == 0))  // two fragments, or more
  }

  // ----- the loop -----

  /** cw_send_msg; the socket accepts `accepts` packets and then fails. */
  method SendMsg(msg: seq<byte>, fragid: word, mtu0: nat, hlen0: nat, accepts: nat)
    returns (out: seq<Packet>, ok: bool)
    requires 0 < |msg| <= 0x1_0000
    requires 8 <= hlen0 < Align(mtu0) && 8 < Align(mtu0) && mtu0 <= MAX_MTU
    ensures var ps := Packets(msg, fragid, mtu0, hlen0);
            ok == (|ps| <= accepts) && out == if ok then ps else ps[..accepts]
  {
    var mtu := mtu0 - mtu0 % 4;
    var fragoffset, hlen, msglen := 0, hlen0, |msg|;
    var flagF, flagL := false, false;
    out := [];
    ghost var all := Packets(msg, fragid, mtu0, hlen0);
    while msglen + hlen > mtu
      invariant 8 <= hlen < mtu
      invariant 0 < msglen <= |msg| && fragoffset * 8 + msglen <= |msg|
      invariant fragoffset >= 0
      invariant flagF == (out != []) && !flagL
      invariant Sent(all, out, msg, fragid, mtu, hlen, fragoffset, msglen)
      invariant |out| <= accepts
      decreases msglen
    {
      var n := mtu - hlen;
      var buf := msg[fragoffset * 8..fragoffset * 8 + n];
      flagF := true;
      var p := Packet(hlen, flagF, flagL, Dword1(fragid, fragoffset), buf);
      RestNext(out, p, msg, fragid, mtu, hlen, fragoffset, msglen, all);
      msglen := msglen - n;
      if |out| == accepts {
        return out, false;
      }
      out := out + [p];
      fragoffset := fragoffset + n / 8;
      hlen := 8;
    }
    var p := LastPacket(msg, fragid, mtu, hlen, fragoffset, msglen, flagF, flagL);
    if |out| == accepts {
      return out, false;
    }
    return out + [p], true;
  }

  /** What follows the loop: the packet with the remaining bytes. */
  method LastPacket(msg: seq<byte>, fragid: word, mtu: nat, hlen: nat, fragoffset: nat, msglen: nat, f: bool, l: bool)
    returns (p: Packet)
    requires hlen < mtu && 8 < mtu && fragoffset * 8 + msglen <= |msg| && msglen + hlen <= mtu && !l
    ensures [p] == Rest(msg, fragid, mtu, hlen, fragoffset, msglen)
  {
    var flagF, flagL := f, l;
    if fragoffset > 0 {
      flagF, flagL := true, true;
    } else {
      flagF := false;
    }
    p := Packet(hlen, flagF, flagL, Dword1(fragid, fragoffset), msg[fragoffset * 8..fragoffset * 8 + msglen]);
  }

  /** `out` went out already, the rest is to come. */
  ghost predicate Sent(all: seq<Packet>, out: seq<Packet>, msg: seq<byte>, fragid: word, mtu: nat, hlen: nat,
                       fo: nat, left: nat)
    requires hlen < mtu && 8 < mtu && left <= |msg| && fo * 8 + left <= |msg|
  {
    all == out + Rest(msg, fragid, mtu, hlen, fo, left)
  }

  lemma RestNext(out: seq<Packet>, p: Packet, msg: seq<byte>, fragid: word, mtu: nat, hlen: nat, fo: nat, left: nat,
                 all: seq<Packet>)
    requires hlen < mtu && 8 < mtu && left <= |msg| && fo * 8 + left <= |msg| && left + hlen > mtu
    requires Sent(all, out, msg, fragid, mtu, hlen, fo, left)
    requires p == Packet(hlen, true, false, Dword1(fragid, fo), msg[fo * 8..fo * 8 + (mtu - hlen)])
    ensures var n := mtu - hlen;
            (fo + n / 8) * 8 + (left - n) <= |msg| && Sent(all, out + [p], msg, fragid, mtu, 8, fo + n / 8, left - n)
    ensures all[..|out|] == out && |all| > |out| + 1
  {
    var n := mtu - hlen;
    var rest := Rest(msg, fragid, mtu, 8, fo + n / 8, left - n);
    assert Rest(msg, fragid, mtu, hlen, fo, left) == [p] + rest;
    assert out + ([p] + rest) == out + [p] + rest;
  }

  // ----- when the packets tile the message -----

  lemma DecodeHeader(fragid: word, fo: nat, p: Packet)
    requires fo < 0x2000 && p.dword1 == Dword1(fragid, fo)
    ensures p.FragId() == fragid && p.Offset() == fo * 8
  {
    assert (fragid * 0x1_0000 + fo * 8) / 8 == fragid * 0x2000 + fo;
    assert (fragid * 0x2000 + fo) % 0x2000 == fo;
  }

  /** Every packet fits the MTU, its 13-bit offset does not spill into the fragment id, and the
      flags tell the last packet from the others. */
  lemma {:induction false} RestFits(msg: seq<byte>, fragid: word, mtu: nat, hlen: nat, fo: nat, left: nat, i: nat)
    requires hlen < mtu && 8 < mtu && 0 < left && fo * 8 + left <= |msg| <= 0x1_0000
    requires i < |Rest(msg, fragid, mtu, hlen, fo, left)|
    ensures var ps := Rest(msg, fragid, mtu, hlen, fo, left);
            && ps[i].FragId() == fragid && ps[i].InBuffer()
            && 0 < |ps[i].payload| && ps[i].hlen + |ps[i].payload| <= mtu
            && ps[i].hlen == (if i == 0 then hlen else 8)
            && (i < |ps| - 1 ==> ps[i].hlen + |ps[i].payload| == mtu)
            && (i < |ps| - 1 ==> ps[i].flagF && !ps[i].flagL)
            && (i == |ps| - 1 && (i == 0 || (mtu - hlen >= 8 && mtu >= 16)) ==>
                ps[i].flagF == ps[i].flagL == (fo > 0 || |ps| > 1))
    decreases left
  {
    var ps := Rest(msg, fragid, mtu, hlen, fo, left);
    DecodeHeader(fragid, fo, ps[0]);
    if i > 0 {
      var n := mtu - hlen;
      RestFits(msg, fragid, mtu, 8, fo + n / 8, left - n, i - 1);
    }
  }

  /** Each packet carries the fragment id and has at most the size of the MTU; behind the first one the
      header is the short one. A message goes out in one packet exactly when it fits, with the header, into
      the MTU rounded down to 4, and each packet of several but the last has just that size. */
  lemma PacketsFitMtu(msg: seq<byte>, fragid: word, mtu: nat, hlen: nat, i: nat)
    requires 0 < |msg| <= 0x1_0000 && hlen < Align(mtu) && 8 < Align(mtu) && i < |Packets(msg, fragid, mtu, hlen)|
    ensures var ps := Packets(msg, fragid, mtu, hlen);
            && ps[i].FragId() == fragid && ps[i].hlen == (if i == 0 then hlen else 8)
            && 0 < |ps[i].payload| && ps[i].hlen + |ps[i].payload| <= mtu
            && (i < |ps| - 1 ==> ps[i].hlen + |ps[i].payload| == mtu / 4 * 4)
            && (|ps| == 1 <==> |msg| + hlen <= mtu / 4 * 4)
  {
    RestFits(msg, fragid, Align(mtu), hlen, 0, |msg|, i);
  }

  /** The first of the remaining packets and the state it leaves behind. */
  lemma RestHead(msg: seq<byte>, fragid: word, mtu: nat, hlen: nat, fo: nat, left: nat)
    requires hlen < mtu && 8 < mtu && 0 < left && fo * 8 + left <= |msg| <= 0x1_0000
    ensures var ps := Rest(msg, fragid, mtu, hlen, fo, left);
            var n := mtu - hlen;
            && ps[0].Offset() == fo * 8
            && IsPieceOf(ps[0], msg)
            && |ps[0].payload| == (if left > n then n else left)
            && (left > n ==> ps[1..] == Rest(msg, fragid, mtu, 8, fo + n / 8, left - n) && ps[0].flagF && !ps[0].flagL)
            && (left <= n ==> |ps| == 1 && ps[0].flagF == ps[0].flagL == (fo > 0))
  {
    DecodeHeader(fragid, fo, Rest(msg, fragid, mtu, hlen, fo, left)[0]);
  }

  /** From an aligned position with nothing lost, the rest tiles what is left. */
  lemma {:induction false} RestTiles(msg: seq<byte>, fragid: word, mtu: nat, hlen: nat, fo: nat, left: nat)
    requires hlen < mtu && 8 < mtu && 0 < left && fo * 8 + left == |msg| <= 0x1_0000
    requires left + hlen <= mtu || ((mtu - hlen) % 8 == 0 && (left - (mtu - hlen) + 8 <= mtu || (mtu - 8) % 8 == 0))
    ensures TilesFrom(Rest(msg, fragid, mtu, hlen, fo, left), msg, fo * 8)
    decreases left
  {
    RestHead(msg, fragid, mtu, hlen, fo, left);
    if left + hlen > mtu {
      var n := mtu - hlen;
      assert (fo + n / 8) * 8 == fo * 8 + n;
      RestTiles(msg, fragid, mtu, 8, fo + n / 8, left - n);
    }
  }

  lemma TilesSecond(ps: seq<Packet>, msg: seq<byte>, at: nat)
    requires TilesFrom(ps, msg, at) && |ps| > 1
    ensures ps[1..][0].Offset() == ps[0].Offset() + |ps[0].payload|
  {
  }

  /** A cut that is no multiple of 8 breaks the tiling at the next packet. */
  lemma UnalignedCutBreaks(msg: seq<byte>, fragid: word, mtu: nat, hlen: nat, fo: nat, left: nat, at: nat)
    requires hlen < mtu && 8 < mtu && 0 < left && fo * 8 + left <= |msg| <= 0x1_0000
    requires left + hlen > mtu && (mtu - hlen) % 8 != 0
    ensures !TilesFrom(Rest(msg, fragid, mtu, hlen, fo, left), msg, at)
  {
    var n := mtu - hlen;
    var ps := Rest(msg, fragid, mtu, hlen, fo, left);
    RestHead(msg, fragid, mtu, hlen, fo, left);
    RestHead(msg, fragid, mtu, 8, fo + n / 8, left - n);
    if TilesFrom(ps, msg, at) {
      TilesSecond(ps, msg, at);
      assert false;
    }
  }

  /** The fragments spell the message exactly when the sizes are aligned to the offset unit. */
  lemma PacketsTileExactlyWhenAligned(msg: seq<byte>, fragid: word, mtu: nat, hlen: nat)
    requires 0 < |msg| <= 0x1_0000 && 8 <= hlen < Align(mtu) && 8 < Align(mtu)
    ensures Tiles(Packets(msg, fragid, mtu, hlen), msg) <==> Aligned(|msg|, mtu, hlen)
  {
    if Aligned(|msg|, mtu, hlen) {
      AlignedTiles(msg, fragid, Align(mtu), hlen);
    } else {
      UnalignedBreaks(msg, fragid, Align(mtu), hlen);
    }
  }

  lemma AlignedFlags(msg: seq<byte>, fragid: word, m: nat, hlen: nat, i: nat)
    requires 0 < |msg| <= 0x1_0000 && 8 <= hlen < m && i < |Rest(msg, fragid, m, hlen, 0, |msg|)|
    requires |msg| + hlen <= m || m - hlen >= 8
    ensures var ps := Rest(msg, fragid, m, hlen, 0, |msg|);
            ps[i].flagF == (|ps| > 1) && ps[i].flagL == (|ps| > 1 && i == |ps| - 1)
  {
    RestFits(msg, fragid, m, hlen, 0, |msg|, i);
  }

  lemma AllFlags(msg: seq<byte>, fragid: word, m: nat, hlen: nat)
    requires 0 < |msg| <= 0x1_0000 && 8 <= hlen < m && (|msg| + hlen <= m || m - hlen >= 8)
    ensures var ps := Rest(msg, fragid, m, hlen, 0, |msg|);
            forall i :: 0 <= i < |ps| ==> ps[i].flagF == (|ps| > 1) && ps[i].flagL == (|ps| > 1 && i == |ps| - 1)
  {
    var ps := Rest(msg, fragid, m, hlen, 0, |msg|);
    forall i | 0 <= i < |ps| ensures ps[i].flagF == (|ps| > 1) && ps[i].flagL == (|ps| > 1 && i == |ps| - 1) {
      AlignedFlags(msg, fragid, m, hlen, i);
    }
  }

  lemma AtLeastEight(n: int)
    requires n > 0 && n % 8 == 0
    ensures n >= 8
  {
  }

  lemma AlignedTiles(msg: seq<byte>, fragid: word, m: nat, hlen: nat)
    requires 0 < |msg| <= 0x1_0000 && 8 <= hlen < m
    requires |msg| + hlen <= m || ((m - hlen) % 8 == 0 && (|msg| - (m - hlen) + 8 <= m || (m - 8) % 8 == 0))
    ensures Tiles(Rest(msg, fragid, m, hlen, 0, |msg|), msg)
  {
    RestTiles(msg, fragid, m, hlen, 0, |msg|);
    if |msg| + hlen > m {
      AtLeastEight(m - hlen);
    }
    AllFlags(msg, fragid, m, hlen);
  }

  lemma UnalignedBreaks(msg: seq<byte>, fragid: word, m: nat, hlen: nat)
    requires 0 < |msg| <= 0x1_0000 && 8 <= hlen < m && |msg| + hlen > m
    requires (m - hlen) % 8 != 0 || (|msg| - (m - hlen) + 8 > m && (m - 8) % 8 != 0)
    ensures !TilesFrom(Rest(msg, fragid, m, hlen, 0, |msg|), msg, 0)
  {
    var n := m - hlen;
    if n % 8 != 0 {
      UnalignedCutBreaks(msg, fragid, m, hlen, 0, |msg|, 0);
    } else {
      RestHead(msg, fragid, m, hlen, 0, |msg|);
      UnalignedCutBreaks(msg, fragid, m, 8, n / 8, |msg| - n, n);
    }
  }
}
