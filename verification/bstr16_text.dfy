/** What text stands for: hex digits as a number, dots taken literally, and the UTF-8 that is kept as it is. */
module Bstr16Text {
  import opened Prelude
  import opened Bstr16

  // ----- hex digits as a number -----

  /** The first `n` digits as a number, */
  function HexNumber(s: seq<byte>, n: nat): nat
    requires n <= |s|
  {
    if n == 0 then 0
    else HexNumber(s, n - 1) * 16 + Digit(s[n - 1])
  }

  function Digit(c: byte): nat { var v := DigitValue(c); if v.Some? then v.value else 0 }

  /** and a byte string as one. */
  function Number(d: seq<byte>): nat { if d == [] then 0 else Number(d[..|d| - 1]) * 256 + d[|d| - 1] }

  predicate Digits(s: seq<byte>) { forall i :: 0 <= i < |s| ==> DigitValue(s[i]).Some? }

  /** Digits of both cases count. */
  lemma DigitsAre(c: byte)
    ensures DigitValue(c) ==
            if '0' as int <= c <= '9' as int then Some(c - '0' as int)
            else if 'a' as int <= c <= 'f' as int then Some(10 + c - 'a' as int)
            else if 'A' as int <= c <= 'F' as int then Some(10 + c - 'A' as int)
            else None
  {
  }

  lemma NibbleIs(s: seq<byte>, i: nat)
    requires i < |s| && Digits(s)
    ensures DigitValue(s[i]) == Some(Nibble(s[i..])) && ScanDigit(s[i..]).Some?
  {
    DigitsAre(s[i]);
    assert s[i..][0] == s[i];
  }

  lemma NumberSnoc(d: seq<byte>, b: byte)
    ensures Number(d + [b]) == Number(d) * 256 + b
  {
    assert (d + [b])[..|d|] == d;
  }

  function PairAt(s: seq<byte>, at: nat): byte
    requires at + 2 <= |s|
  {
    Nibble(s[at..]) * 16 + Nibble(s[at + 1..])
  }

  /** Two digits more. */
  lemma TwoDigits(s: seq<byte>, n: nat)
    requires n + 2 <= |s| && Digits(s)
    ensures HexNumber(s, n + 2) == HexNumber(s, n) * 256 + PairAt(s, n)
  {
    NibbleIs(s, n);
    NibbleIs(s, n + 1);
    assert HexNumber(s, n + 1) == HexNumber(s, n) * 16 + Nibble(s[n..]);
    assert HexNumber(s, n + 2) == HexNumber(s, n + 1) * 16 + Nibble(s[n + 1..]);
  }

  /** The number `x` with `n` pairs of digits behind it, from `at` on. */
  function Pairs(x: nat, s: seq<byte>, at: nat, n: nat): nat
    requires at + 2 * n <= |s|
    decreases n
  {
    if n == 0 then x else Pairs(x, s, at, n - 1) * 256 + PairAt(s, at + 2 * (n - 1))
  }

  lemma {:induction false} PairsAreDigits(x: nat, s: seq<byte>, at: nat, n: nat, end: nat)
    requires end == at + 2 * n && end <= |s| && Digits(s) && x == HexNumber(s, at)
    ensures Pairs(x, s, at, n) == HexNumber(s, end)
    decreases n
  {
    if n > 0 {
      var k := end - 2;
      PairsAreDigits(x, s, at, n - 1, k);
      TwoDigits(s, k);
      assert Pairs(x, s, at, n) == Pairs(x, s, at, n - 1) * 256 + PairAt(s, k);
    }
  }

  lemma {:induction false} PairsNumber(d: seq<byte>, s: seq<byte>, n: nat)
    requires 2 * n <= |s|
    ensures Number(d + ScanPairs(s, n)) == Pairs(Number(d), s, 0, n)
  {
    if n == 0 {
      assert d + ScanPairs(s, 0) == d;
    } else {
      PairsNumber(d, s, n - 1);
      OnePair(d, s, n - 1);
      NumberSnoc(d + ScanPairs(s, n - 1), PairAt(s, 2 * (n - 1)));
    }
  }

  lemma OnePair(d: seq<byte>, s: seq<byte>, i: nat)
    requires 2 * i + 2 <= |s|
    ensures d + ScanPairs(s, i) + [PairAt(s, 2 * i)] == d + ScanPairs(s, i + 1)
  {
    assert ScanPairs(s, i + 1) == ScanPairs(s, i) + [PairAt(s, 2 * i)];
  }

  lemma {:induction false} PairsBehindOne(x: nat, s: seq<byte>, t: seq<byte>, n: nat)
    requires 2 * n + 1 <= |s| && t == s[1..]
    ensures Pairs(x, t, 0, n) == Pairs(x, s, 1, n)
  {
    if n > 0 {
      var k := 2 * (n - 1);
      assert t[k..] == s[k + 1..] && t[k + 1..] == s[k + 2..];
      PairsBehindOne(x, s, t, n - 1);
    }
  }

  lemma FirstDigitNumber(s: seq<byte>)
    requires s != [] && Digits(s)
    ensures Number([Nibble(s)]) == HexNumber(s, 1)
  {
    var x := Nibble(s);
    NibbleIs(s, 0);
    assert s[0..] == s && [] + [x] == [x];
    NumberSnoc([], x);
  }

  lemma EvenNumber(s: seq<byte>, n: nat)
    requires |s| == 2 * n && Digits(s)
    ensures Number(ScanPairs(s, n)) == HexNumber(s, |s|)
  {
    var none: seq<byte>, d := [], ScanPairs(s, n);
    PairsNumber(none, s, n);
    assert none + d == d;
    PairsAreDigits(0, s, 0, n, |s|);
  }

  lemma OddNumber(s: seq<byte>, n: nat)
    requires |s| == 2 * n + 1 && Digits(s)
    ensures Number([Nibble(s)] + ScanPairs(s[1..], n)) == HexNumber(s, |s|)
  {
    PairsNumber([Nibble(s)], s[1..], n);
    FirstDigitNumber(s);
    PairsBehindOne(HexNumber(s, 1), s, s[1..], n);
    PairsAreDigits(HexNumber(s, 1), s, 1, n, |s|);
  }

  lemma ScanParts(s: seq<byte>)
    ensures Scan(s, |s|) == if |s| % 2 == 1 then [Nibble(s)] + ScanPairs(s[1..], |s| / 2) else ScanPairs(s, |s| / 2)
  {
  }

  lemma DigitsScanned(s: seq<byte>)
    requires Digits(s)
    ensures AllDigits(s, |s|)
  {
    forall i | 0 <= i < |s| ensures ScanDigit(s[i..]).Some? {
      NibbleIs(s, i);
    }
  }

  /** The bytes that hex digits are read as are the same number, big-endian, in half as many bytes, and there
      is no error. */
  lemma ScanIsNumber(s: seq<byte>)
    requires Digits(s)
    ensures Number(Scan(s, |s|)) == HexNumber(s, |s|) && |Scan(s, |s|)| == (|s| + 1) / 2 && AllDigits(s, |s|)
  {
    DigitsScanned(s);
    ScanParts(s);
    if |s| % 2 == 0 {
      EvenNumber(s, |s| / 2);
    } else {
      OddNumber(s, |s| / 2);
    }
  }

  /** What is written for a byte: two digits, the high one first, and of lower case. */
  lemma HexAsNumber(b: byte)
    ensures |Hex([b])| == 2 && HexNumber(Hex([b]), 2) == b
    ensures forall i :: 0 <= i < 2 ==>
              '0' as int <= Hex([b])[i] <= '9' as int || 'a' as int <= Hex([b])[i] <= 'f' as int
  {
    var h := Hex([b]);
    HexAt([b], 0);
    DigitsAre(h[0]);
    DigitsAre(h[1]);
    assert HexNumber(h, 1) == HexNumber(h, 0) * 16 + b / 16;
  }

  // ----- text that stands for itself -----

  /** A dot in front of text that begins with one keeps it from being special. */
  function TextOf(d: seq<byte>): seq<byte> { if |d| >= 2 && d[0] == DOT then [DOT] + d else d }

  /** So every byte string has a text, be it UTF-8 or not; and text behind ".x" is read as hex. */
  lemma EveryStringHasAText(d: seq<byte>)
    ensures Xput(TextOf(d)) == d
    ensures forall s :: s != [] && Digits(s) ==> Number(Xput([DOT, X] + s)) == HexNumber(s, |s|)
  {
    if |d| >= 2 && d[0] == DOT {
      assert ([DOT] + d)[1..] == d;
    }
    forall s: seq<byte> | s != [] && Digits(s) ensures Number(Xput([DOT, X] + s)) == HexNumber(s, |s|) {
      assert ([DOT, X] + s)[2..] == s;
      ScanIsNumber(s);
    }
  }

  // ----- UTF-8 -----

  type Character = c: int | 0 <= c <= 0x10FFFF

  /** The UTF-8 form of a character (section 3 of RFC 3629). */
  function Encode(c: Character): seq<byte>
  {
    if c < 0x80 then [c]
    else if c < 0x800 then [0xC0 + c / 0x40, 0x80 + c % 0x40]
    else if c < 0x1_0000 then [0xE0 + c / 0x1000, 0x80 + c / 0x40 % 0x40, 0x80 + c % 0x40]
    else [0xF0 + c / 0x4_0000, 0x80 + c / 0x1000 % 0x40, 0x80 + c / 0x40 % 0x40, 0x80 + c % 0x40]
  }

  function EncodeAll(cs: seq<Character>): seq<byte> { if cs == [] then [] else Encode(cs[0]) + EncodeAll(cs[1..]) }

  lemma OneAccepted(c: Character, rest: seq<byte>)
    requires 0x20 <= c
    ensures IsUtf8(Encode(c) + rest) <==> IsUtf8(rest)
  {
    var e := Encode(c);
    var s := e + rest;
    assert s[0] == e[0];
    assert Following(e[0]) == Some(|e| - 1);
    forall i | 1 <= i <= |e| - 1 ensures Continues(s[i]) {
      assert s[i] == e[i];
    }
    assert s[|e|..] == rest;
  }

  /** All characters but the control characters are accepted, in any text. */
  lemma {:induction false} TextIsAccepted(cs: seq<Character>)
    requires forall c :: c in cs ==> 0x20 <= c
    ensures IsUtf8(EncodeAll(cs))
  {
    if cs != [] {
      assert cs[0] in cs && forall c :: c in cs[1..] ==> c in cs;
      TextIsAccepted(cs[1..]);
      OneAccepted(cs[0], EncodeAll(cs[1..]));
    }
  }

  /** Text that is accepted has no control characters, and no byte that UTF-8 does not have at its end. */
  lemma {:induction false} AcceptedBytes(s: seq<byte>, i: nat)
    requires IsUtf8(s) && i < |s|
    ensures 0x20 <= s[i] <= 0xF4
    decreases |s|
  {
    var n := Following(s[0]).value;
    if i > n {
      assert s[n + 1..][i - n - 1] == s[i];
      AcceptedBytes(s[n + 1..], i - n - 1);
    } else if i > 0 {
      assert Continues(s[i]);
    }
  }

  /** But not only UTF-8 is accepted: a character in more bytes than it needs is, and a surrogate. */
  lemma OverlongIsAccepted()
    ensures IsUtf8([0xC0, 0x80]) && IsUtf8([0xED, 0xA0, 0x80])
  {
    var a: seq<byte>, b: seq<byte> := [0xC0, 0x80], [0xED, 0xA0, 0x80];
    assert a[2..] == [] && b[3..] == [];
  }
}
