/**
 Binary strings as configuration text: UTF-8 is kept as it is, everything else becomes ".x" and
 lower-case hex digits. Text is a sequence of character codes.
 */
module Bstr16 {
  import opened Prelude

  const DOT: byte := 46
  const X: byte := 120

  // ----- format_is_utf8 -----

  predicate Continues(b: byte) { 0x80 <= b <= 0xBF }

  /** How many bytes follow a first byte; none for a byte that cannot be first. */
  function Following(b: byte): Option<nat>
  {
    if b < 0x20 then None
    else if b <= 0x7F then Some(0)
    else if 0xC0 <= b <= 0xDF then Some(1)
    else if 0xE0 <= b <= 0xEF then Some(2)
    else if 0xF0 <= b <= 0xF4 then Some(3)
    else None
  }

  function IsUtf8(s: seq<byte>): bool
    decreases |s|
  {
    s == [] ||
    match Following(s[0])
    case None => false
    case Some(n) => n < |s| && (forall i :: 1 <= i <= n ==> Continues(s[i])) && IsUtf8(s[n + 1..])
  }

  method FormatIsUtf8(s: seq<byte>) returns (r: bool)
    ensures r == IsUtf8(s)
  {
    var i := 0;
    assert s[0..] == s;
    while i < |s|
      invariant i <= |s| && IsUtf8(s) == IsUtf8(s[i..])
    {
      if Following(s[i]) == None {
        return false;
      }
      var bytes := Following(s[i]).value;
      ghost var start, n := i, bytes;
      i := i + 1;
      while i < |s| && bytes > 0 && Continues(s[i])
        invariant i <= |s| && i + bytes == start + 1 + n && bytes >= 0
        invariant forall j :: start < j < i ==> Continues(s[j])
        decreases bytes
      {
        i := i + 1;
        bytes := bytes - 1;
      }
      ghost var t := s[start..];
      if bytes != 0 {
        assert i < |s| ==> t[i - start] == s[i] && !Continues(s[i]);
        return false;
      }
      assert t[n + 1..] == s[i..];
    }
    return true;
  }

  // ----- hex digits out and in -----

  function HexDigit(n: nat): byte
    requires n < 16
  {
    if n < 10 then 48 + n else 87 + n
  }

  /** format_hex */
  function Hex(d: seq<byte>): (t: seq<byte>)
    ensures |t| == 2 * |d|
  {
    if d == [] then [] else [HexDigit(d[0] / 16), HexDigit(d[0] % 16)] + Hex(d[1..])
  }

  method FormatHex(d: seq<byte>) returns (t: seq<byte>)
    ensures t == Hex(d)
  {
    t := [];
    var i := 0;
    assert d[0..] == d;
    while i < |d|
      invariant i <= |d| && Hex(d) == t + Hex(d[i..])
    {
      assert d[i..][1..] == d[i + 1..];
      t := t + [HexDigit(d[i] / 16), HexDigit(d[i] % 16)];
      i := i + 1;
    }
  }

  predicate Blank(c: byte) { c == 32 || 9 <= c <= 13 }

  /** The value of a hex digit of either case. */
  function DigitValue(c: byte): Option<nat>
  {
    if 48 <= c <= 57 then Some(c - 48)
    else if 65 <= c <= 70 then Some(c - 55)
    else if 97 <= c <= 102 then Some(c - 87)
    else None
  }

  /** sscanf with "%01X": blanks are skipped, then one digit is read. */
  function ScanDigit(s: seq<byte>): (r: Option<nat>)
    ensures r.Some? ==> r.value < 16
  {
    if s == [] then None
    else if Blank(s[0]) then ScanDigit(s[1..])
    else DigitValue(s[0])
  }

  function Nibble(s: seq<byte>): (n: nat)
    ensures n < 16
  {
    var r := ScanDigit(s);
    if r.Some? then r.value else 0
  }

  /** The byte that the digits at 2k and 2k+1 make. */
  function Pair(s: seq<byte>, k: nat): byte
    requires 2 * k + 2 <= |s|
  {
    Nibble(s[2 * k..]) * 16 + Nibble(s[2 * k + 1..])
  }

  /** `n` bytes of two digits each. */
  function ScanPairs(s: seq<byte>, n: nat): (d: seq<byte>)
    requires 2 * n <= |s|
    ensures |d| == n
  {
    if n == 0 then [] else ScanPairs(s, n - 1) + [Pair(s, n - 1)]
  }

  /** An odd first digit is a byte of its own. */
  function Scan(s: seq<byte>, len: nat): (d: seq<byte>)
    requires len <= |s|
    ensures |d| == (len + 1) / 2
  {
    if len % 2 == 1 then [Nibble(s)] + ScanPairs(s[1..], len / 2) else ScanPairs(s, len / 2)
  }

  predicate AllDigits(s: seq<byte>, len: nat)
    requires len <= |s|
  {
    forall i :: 0 <= i < len ==> ScanDigit(s[i..]).Some?
  }

  /** cw_format_scan_hex_bytes */
  method ScanHexBytes(dst: array<byte>, s: seq<byte>, len: nat) returns (err: bool)
    requires len <= |s| && (len + 1) / 2 <= dst.Length
    modifies dst
    ensures dst[..(len + 1) / 2] == Scan(s, len)
    ensures err == !AllDigits(s, len)
  {
    if len % 2 == 1 {
      var rc := ScanDigit(s);
      dst[0] := if rc.Some? then rc.value else 0;
      err := ScanPairsInto(dst, 1, s[1..], len - 1);
      err := err || rc == None;
      assert dst[..1] == [Nibble(s)] && dst[..(len + 1) / 2] == dst[..1] + dst[1..(len + 1) / 2];
      FirstDigit(s, len);
    } else {
      err := ScanPairsInto(dst, 0, s, len);
    }
  }

  lemma FirstDigit(s: seq<byte>, len: nat)
    requires 0 < len <= |s|
    ensures AllDigits(s, len) <==> ScanDigit(s).Some? && AllDigits(s[1..], len - 1)
  {
    assert s[0..] == s;
    assert forall i :: 1 <= i < len ==> s[i..] == s[1..][i - 1..];
    if AllDigits(s[1..], len - 1) {
      forall i | 1 <= i < len ensures ScanDigit(s[i..]).Some? { assert ScanDigit(s[1..][i - 1..]).Some?; }
    }
  }

  lemma OneMoreDigit(s: seq<byte>, i: nat)
    requires i < |s|
    ensures AllDigits(s, i + 1) <==> AllDigits(s, i) && ScanDigit(s[i..]).Some?
  {
  }

  lemma HalfAndRest(i: nat, k: nat)
    requires i == 2 * k || i == 2 * k + 1
    ensures i % 2 == i - 2 * k
  {
  }

  /** Its loop over pairs of digits, writing from `at0` on. */
  method ScanPairsInto(dst: array<byte>, at0: nat, s: seq<byte>, len: nat) returns (err: bool)
    requires len <= |s| && len % 2 == 0 && at0 + len / 2 <= dst.Length
    modifies dst
    ensures dst[..at0] == old(dst[..at0]) && dst[at0..at0 + len / 2] == ScanPairs(s, len / 2)
    ensures err == !AllDigits(s, len)
  {
    err := false;
    var i, at, val := 0, at0, 0;
    ghost var before, k := dst[..at0], 0;
    while i < len
      invariant i <= len && at == at0 + k && (i == 2 * k || i == 2 * k + 1)
      invariant dst[..at0] == before
      invariant dst[at0..at] == ScanPairs(s, k)
      invariant i == 2 * k + 1 ==> val == Nibble(s[2 * k..]) * 16
      invariant err == !AllDigits(s, i)
    {
      var rc := ScanDigit(s[i..]);
      var c := if rc.Some? then rc.value else 0;
      assert c == Nibble(s[i..]);
      HalfAndRest(i, k);
      OneMoreDigit(s, i);
      if rc == None {
        err := true;
      }
      if i % 2 == 0 {
        val := c * 16;
      } else {
        val := val + c;
        assert val == Pair(s, k);
        dst[at] := val;
        assert dst[at0..at + 1] == dst[at0..at] + [val];
        at := at + 1;
        k := k + 1;
      }
      i := i + 1;
    }
  }

  lemma DigitRoundTrip(n: nat, t: seq<byte>)
    requires n < 16 && t != [] && t[0] == HexDigit(n)
    ensures ScanDigit(t) == Some(n)
  {
  }

  lemma {:induction false} HexAt(d: seq<byte>, k: nat)
    requires k < |d|
    ensures Hex(d)[2 * k] == HexDigit(d[k] / 16) && Hex(d)[2 * k + 1] == HexDigit(d[k] % 16)
  {
    if k > 0 {
      HexAt(d[1..], k - 1);
      assert Hex(d)[2 * k] == Hex(d[1..])[2 * k - 2] && Hex(d)[2 * k + 1] == Hex(d[1..])[2 * k - 1];
    }
  }

  lemma HexPair(d: seq<byte>, k: nat)
    requires k < |d|
    ensures Pair(Hex(d), k) == d[k]
    ensures ScanDigit(Hex(d)[2 * k..]).Some? && ScanDigit(Hex(d)[2 * k + 1..]).Some?
  {
    HexAt(d, k);
    var a, b := Hex(d)[2 * k..], Hex(d)[2 * k + 1..];
    assert a[0] == Hex(d)[2 * k] && b[0] == Hex(d)[2 * k + 1];
    DigitRoundTrip(d[k] / 16, a);
    DigitRoundTrip(d[k] % 16, b);
    assert Nibble(a) == d[k] / 16 && Nibble(b) == d[k] % 16;
  }

  lemma {:induction false} ScanPairsOfHex(d: seq<byte>, n: nat)
    requires n <= |d|
    ensures ScanPairs(Hex(d), n) == d[..n]
  {
    if n > 0 {
      ScanPairsOfHex(d, n - 1);
      HexPair(d, n - 1);
      assert d[..n] == d[..n - 1] + [d[n - 1]];
    }
  }

  lemma HexIsDigits(d: seq<byte>, i: nat)
    requires i < 2 * |d|
    ensures ScanDigit(Hex(d)[i..]).Some?
  {
    var k := i / 2;
    HexPair(d, k);
    if i % 2 == 0 {
      assert i == 2 * k;
    } else {
      assert i == 2 * k + 1;
    }
  }

  /** Hex reading undoes hex writing, without errors. */
  lemma ScanUndoesHex(d: seq<byte>)
    ensures Scan(Hex(d), 2 * |d|) == d && AllDigits(Hex(d), 2 * |d|)
  {
    ScanPairsOfHex(d, |d|);
    HexAllDigits(d);
    assert d[..|d|] == d && (2 * |d|) % 2 == 0 && 2 * |d| / 2 == |d|;
  }

  lemma HexAllDigits(d: seq<byte>)
    ensures AllDigits(Hex(d), 2 * |d|)
  {
    forall i | 0 <= i < 2 * |d| ensures ScanDigit(Hex(d)[i..]).Some? {
      HexIsDigits(d, i);
    }
  }

  // ----- bread and xput -----

  /** The text bread stores for a binary string. */
  function Bread(d: seq<byte>): seq<byte> { if IsUtf8(d) then d else [DOT, X] + Hex(d) }

  method BreadText(d: seq<byte>) returns (t: seq<byte>)
    ensures t == Bread(d)
    ensures |t| + 1 <= 2 * |d| + 3  // the bytes allocated
  {
    var utf8 := FormatIsUtf8(d);
    if utf8 {
      return d;
    }
    var h := FormatHex(d);
    return [DOT, X] + h;
  }

  /** The bytes xput makes of a text. */
  function Xput(s: seq<byte>): seq<byte>
  {
    if |s| <= 2 || s[0] != DOT then s
    else if s[1] == DOT then s[1..]
    else if s[1] != X then s
    else Scan(s[2..], |s| - 2)
  }

  method XputBytes(dst: array<byte>, s: seq<byte>) returns (n: nat)
    requires |s| <= dst.Length
    modifies dst
    ensures n <= dst.Length && dst[..n] == Xput(s)
  {
    var l := |s|;
    if l == 0 || s[0] != DOT || l <= 2 {
      CopyBytes(dst, s);
      return l;
    }
    if s[1] == DOT {
      CopyBytes(dst, s[1..]);
      return l - 1;
    }
    if s[1] != X {
      CopyBytes(dst, s);
      return l;
    }
    l := l - 2;
    n := l / 2;
    if l % 2 == 1 {
      n := n + 1;
    }
    var _ := ScanHexBytes(dst, s[2..], l);
  }

  method CopyBytes(dst: array<byte>, s: seq<byte>)
    requires |s| <= dst.Length
    modifies dst
    ensures dst[..|s|] == s
  {
    forall i | 0 <= i < |s| {
      dst[i] := s[i];
    }
  }

  /** Text that xput does not take literally. */
  predicate Special(d: seq<byte>) { |d| > 2 && d[0] == DOT && (d[1] == DOT || d[1] == X) }

  /** A binary string comes back from its text exactly when it is not UTF-8 that looks special. */
  lemma TextRoundTrip(d: seq<byte>)
    ensures Xput(Bread(d)) == d <==> !(IsUtf8(d) && Special(d))
  {
    if !IsUtf8(d) {
      var t := Bread(d);
      ScanUndoesHex(d);
      assert t[2..] == Hex(d) && |t| == 2 * |d| + 2;
    }
  }
}
