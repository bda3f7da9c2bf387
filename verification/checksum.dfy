/** The folded checksum against the ones' complement sum of section 1 of RFC 1071. */
module Checksum {
  import opened Prelude

  function Ntohs(hi: byte, lo: byte): word
  {
    var h: int, l: int := hi, lo;
    256 * h + l
  }

  /** The byte string as big-endian words, an odd last byte padded by a zero byte. */
  function Word(d: seq<byte>, i: nat): word
    requires 2 * i < |d|
  {
    Ntohs(d[2 * i], if 2 * i + 1 < |d| then d[2 * i + 1] else 0)
  }

  function Words(d: seq<byte>): (ws: seq<word>)
    ensures |ws| == (|d| + 1) / 2
  {
    seq((|d| + 1) / 2, i requires 0 <= i < (|d| + 1) / 2 => Word(d, i))
  }

  /** The plain sum. */
  function Total(ws: seq<word>): nat
  {
    if ws == [] then 0 else Total(ws[..|ws| - 1]) + ws[|ws| - 1]
  }

  /** Ones' complement addition: the carry is added at the low end. */
  function OnesAdd(a: word, b: word): word { if a + b > 0xffff then a + b - 0xffff else a + b }

  function OnesSum(ws: seq<word>): word
  {
    if ws == [] then 0 else OnesAdd(OnesSum(ws[..|ws| - 1]), ws[|ws| - 1])
  }

  /** lw_checksum. Its `int32_t` must hold the plain sum; see FitsUpTo64K. */
  method LwChecksum(d: seq<byte>) returns (c: word)
    requires Total(Words(d)) < 0x8000_0000
    ensures c == 0xffff - OnesSum(Words(d))
  {
    ghost var ws := Words(d);
    var sum: int32 := 0;
    var w, len := 0, |d|;
    while len > 1
      invariant 0 <= len && len + 2 * w == |d|
      invariant sum == Total(ws[..w])
    {
      TotalStep(ws, w);
      sum := sum + Ntohs(d[2 * w], d[2 * w + 1]);
      w := w + 1;
      len := len - 2;
    }
    if len == 1 {
      TotalStep(ws, w);
      var last: int := d[2 * w];
      sum := sum + last * 256;
      w := w + 1;
    }
    assert ws[..w] == ws;
    FoldIsOnesSum(ws);
    c := Folded(sum);
  }

  /** Its two folds. */
  method Folded(s: int32) returns (c: word)
    requires s >= 0
    ensures c == 0xffff - Fold(s)
  {
    TwoFolds(s);
    var sum := s;
    sum := sum / 0x1_0000 + sum % 0x1_0000;
    sum := sum + sum / 0x1_0000;
    c := 0xffff - sum % 0x1_0000;
  }

  lemma {:induction false} TotalStep(ws: seq<word>, i: nat)
    requires i < |ws|
    ensures Total(ws[..i + 1]) == Total(ws[..i]) + ws[i] <= Total(ws)
    decreases |ws| - i
  {
    assert ws[..i + 1][..i] == ws[..i];
    if i + 1 == |ws| {
      assert ws[..i + 1] == ws;
    } else {
      TotalStep(ws, i + 1);
    }
  }

  /** What a sum is congruent to modulo 65535, where only 0 is represented by 0. */
  function Fold(n: nat): (r: word)
    ensures r == 0 <==> n == 0
  {
    if n == 0 then 0 else (n - 1) % 0xffff + 1
  }

  /** Two folds reach 16 bits for every sum below 2^31. */
  lemma TwoFolds(n: nat)
    requires n < 0x8000_0000
    ensures var m := n / 0x1_0000 + n % 0x1_0000; (m + m / 0x1_0000) % 0x1_0000 == Fold(n)
  {
    var hi, lo := n / 0x1_0000, n % 0x1_0000;
    var m := hi + lo;
    if n > 0 {
      Residue(n - 1, hi, m - 1);
    }
  }

  lemma Residue(n: int, q: int, r: int)
    requires n == 0xffff * q + r
    ensures n % 0xffff == r % 0xffff
  {
  }

  lemma FoldAdd(n: nat, w: word)
    ensures OnesAdd(Fold(n), w) == Fold(n + w)
  {
    if n > 0 {
      var q, r := (n - 1) / 0xffff, (n - 1) % 0xffff;
      Residue(n + w - 1, q, r + w);
    }
  }

  lemma {:induction false} FoldIsOnesSum(ws: seq<word>)
    ensures OnesSum(ws) == Fold(Total(ws))
  {
    if ws != [] {
      FoldIsOnesSum(ws[..|ws| - 1]);
      FoldAdd(Total(ws[..|ws| - 1]), ws[|ws| - 1]);
    }
  }

  // ----- the 32-bit sum -----

  lemma {:induction false} TotalBound(ws: seq<word>)
    ensures Total(ws) <= 0xffff * |ws|
  {
    if ws != [] {
      TotalBound(ws[..|ws| - 1]);
    }
  }

  /** Up to 65536 bytes the sum cannot overflow. */
  lemma FitsUpTo64K(d: seq<byte>)
    requires |d| <= 0x1_0000
    ensures Total(Words(d)) < 0x8000_0000
  {
    TotalBound(Words(d));
  }

  lemma {:induction false} TotalOfOnes(ws: seq<word>)
    requires forall i :: 0 <= i < |ws| ==> ws[i] == 0xffff
    ensures Total(ws) == 0xffff * |ws|
  {
    if ws != [] {
      TotalOfOnes(ws[..|ws| - 1]);
    }
  }

  /** One byte more can overflow. */
  lemma OverflowsAt64KAndOne(d: seq<byte>)
    requires |d| == 0x1_0001 && forall i :: 0 <= i < |d| ==> d[i] == 0xff
    ensures Total(Words(d)) >= 0x8000_0000
  {
    var ws := Words(d);
    var front := ws[..0x8000];
    forall i | 0 <= i < 0x8000 ensures front[i] == 0xffff {
      assert ws[i] == Word(d, i) && d[2 * i] == 0xff && d[2 * i + 1] == 0xff;
    }
    TotalOfOnes(front);
    assert ws[..|ws| - 1] == front && ws[0x8000] == Word(d, 0x8000) == 0xff00;
  }

  // ----- what a receiver relies on -----

  lemma {:induction false} TotalConcat(a: seq<word>, b: seq<word>)
    ensures Total(a + b) == Total(a) + Total(b)
  {
    if b == [] {
      assert a + b == a;
    } else {
      assert (a + b)[..|a + b| - 1] == a + b[..|b| - 1];
      TotalConcat(a, b[..|b| - 1]);
    }
  }

  /** Words and their checksum sum to 65535, so that the checksum over both is 0. */
  lemma ChecksumVerifies(d: seq<byte>, c: word)
    requires |d| % 2 == 0 && c == 0xffff - OnesSum(Words(d))
    ensures OnesSum(Words(d + [c / 256, c % 256])) == 0xffff
  {
    var e := d + [c / 256, c % 256];
    forall i | 0 <= i < |d| / 2 ensures Words(e)[i] == Words(d)[i] {
      assert Word(e, i) == Word(d, i);
    }
    assert Words(e)[..|d| / 2] == Words(d) && Words(e)[|d| / 2] == c;
  }

  lemma {:induction false} TotalOfPermutation(a: seq<word>, b: seq<word>)
    requires multiset(a) == multiset(b)
    ensures Total(a) == Total(b)
    decreases |a|
  {
    if a == [] {
      assert |multiset(b)| == 0;
    } else {
      var n := |a| - 1;
      var x := a[n];
      assert a == a[..n] + [x];
      assert x in multiset(b);
      var i: nat :| i < |b| && b[i] == x;
      TotalWithout(b[..i], x, b[i + 1..]);
      Without(b, i);
      TotalOfPermutation(a[..n], b[..i] + b[i + 1..]);
    }
  }

  lemma Without(b: seq<word>, i: nat)
    requires i < |b|
    ensures b == b[..i] + [b[i]] + b[i + 1..]
    ensures multiset(b[..i] + b[i + 1..]) == multiset(b) - multiset{b[i]}
  {
    assert b == b[..i] + [b[i]] + b[i + 1..];
  }

  lemma TotalWithout(a: seq<word>, x: word, b: seq<word>)
    ensures Total(a + [x] + b) == Total(a + b) + x
  {
    TotalConcat(a, b);
    TotalConcat(a + [x], b);
    TotalConcat(a, [x]);
    assert Total([x]) == x;
  }

  /** The order of the words does not matter. */
  lemma AnyOrderOfWords(d: seq<byte>, e: seq<byte>)
    requires multiset(Words(d)) == multiset(Words(e))
    ensures OnesSum(Words(d)) == OnesSum(Words(e))
  {
    TotalOfPermutation(Words(d), Words(e));
    FoldIsOnesSum(Words(d));
    FoldIsOnesSum(Words(e));
  }

  /** Changing one word goes unnoticed exactly when 0 and 65535 are exchanged next to a word that is
      not 0. */
  lemma OneChangedWord(ws: seq<word>, i: nat, x: word)
    requires i < |ws| && x != ws[i]
    ensures OnesSum(ws[i := x]) == OnesSum(ws) <==>
            (x == 0 || ws[i] == 0) && (x == 0xffff || ws[i] == 0xffff) && Total(ws[..i]) + Total(ws[i + 1..]) > 0
  {
    var others := Total(ws[..i]) + Total(ws[i + 1..]);
    SumAround(ws, i, ws[i]);
    SumAround(ws, i, x);
    assert ws[i := ws[i]] == ws;
    SameFold(others, ws[i], x);
  }

  lemma SumAround(ws: seq<word>, i: nat, x: word)
    requires i < |ws|
    ensures OnesSum(ws[i := x]) == Fold(Total(ws[..i]) + Total(ws[i + 1..]) + x)
  {
    assert ws[i := x] == ws[..i] + [x] + ws[i + 1..];
    TotalWithout(ws[..i], x, ws[i + 1..]);
    TotalConcat(ws[..i], ws[i + 1..]);
    FoldIsOnesSum(ws[i := x]);
  }

  lemma SameFold(n: nat, w: word, x: word)
    requires w != x
    ensures Fold(n + w) == Fold(n + x) <==> (w == 0 || x == 0) && (w == 0xffff || x == 0xffff) && n > 0
  {
    if n > 0 {
      SameResidue(n + 0xffff, n, 1);
      if Fold(n + w) == Fold(n + x) {
        var q, r := (n + w - 1) / 0xffff, (n + x - 1) / 0xffff;
        assert w - x == 0xffff * (q - r);
      }
    }
  }

  // ----- byte order -----

  function Swap(w: word): word { w % 256 * 256 + w / 256 }

  function Swapped(ws: seq<word>): (r: seq<word>)
    ensures |r| == |ws|
  {
    seq(|ws|, i requires 0 <= i < |ws| => Swap(ws[i]))
  }

  lemma SameResidue(n: nat, m: nat, q: int)
    requires n == m + 0xffff * q && n > 0 && m > 0
    ensures Fold(n) == Fold(m)
  {
    Residue(n - 1, (m - 1) / 0xffff + q, (m - 1) % 0xffff);
  }

  /** Exchanging the bytes is multiplying by 256. */
  lemma SwapIsFold(w: word)
    ensures Swap(w) == Fold(256 * w)
  {
    var hi, lo := w / 256, w % 256;
    assert w == 256 * hi + lo && Swap(w) == 256 * lo + hi;
    assert 256 * w == Swap(w) + 0xffff * hi;
    if w > 0 {
      SameResidue(256 * w, Swap(w), hi);
    }
  }

  lemma SwapAdd(a: word, b: word)
    ensures OnesAdd(Swap(a), Swap(b)) == Swap(OnesAdd(a, b))
  {
    SwapIsFold(a);
    SwapIsFold(OnesAdd(a, b));
    FoldAdd(256 * a, Swap(b));
    var n, m := 256 * a + Swap(b), 256 * OnesAdd(a, b);
    if n > 0 {
      SameResidue(n, m, (if a + b > 0xffff then 256 else 0) - b / 256);
    }
  }

  /** Summing words read in the other byte order gives the sum in the other byte order. */
  lemma {:induction false} ByteOrderOfTheSum(ws: seq<word>)
    ensures OnesSum(Swapped(ws)) == Swap(OnesSum(ws))
  {
    if ws != [] {
      var n := |ws| - 1;
      ByteOrderOfTheSum(ws[..n]);
      assert Swapped(ws)[..n] == Swapped(ws[..n]);
      SwapAdd(OnesSum(ws[..n]), ws[n]);
    }
  }

  // ----- an odd number of bytes -----

  /** A padding byte behind an odd number of bytes changes no word. */
  lemma PaddingIsFree(d: seq<byte>)
    requires |d| % 2 == 1
    ensures Words(d + [0]) == Words(d)
  {
    forall i | 0 <= i < (|d| + 1) / 2 ensures Words(d + [0])[i] == Words(d)[i] {
      assert Word(d + [0], i) == Word(d, i);
    }
  }

  /** Without it the bytes of the checksum change places, for the first one goes into the last word. */
  lemma OddWords(d: seq<byte>, c: word)
    requires |d| % 2 == 1
    ensures var n := |d| / 2; Word(d, n) + c / 256 < 0x1_0000
    ensures var n, front := |d| / 2, Words(d)[..|d| / 2];
            && Words(d) == front + [Word(d, n)]
            && Words(d + [c / 256, c % 256]) == front + [Word(d, n) + c / 256] + [256 * (c % 256)]
  {
    var e, n := d + [c / 256, c % 256], |d| / 2;
    var front := Words(d)[..n];
    forall i | 0 <= i < n ensures Words(e)[i] == front[i] {
      assert Word(e, i) == Word(d, i);
    }
    assert Word(e, n) == Word(d, n) + c / 256 && Word(e, n + 1) == 256 * (c % 256);
    assert Words(e)[n] == Word(e, n) && Words(e)[n + 1] == Word(e, n + 1) && |Words(e)| == n + 2;
  }

  lemma TotalSnoc(ws: seq<word>, x: word)
    ensures Total(ws + [x]) == Total(ws) + x
  {
    assert (ws + [x])[..|ws|] == ws;
  }

  lemma OddTotal(d: seq<byte>, c: word)
    requires |d| % 2 == 1
    ensures Total(Words(d + [c / 256, c % 256])) == Total(Words(d)) + Swap(c)
  {
    var n := |d| / 2;
    var front := Words(d)[..n];
    OddWords(d, c);
    TotalSnoc(front, Word(d, n));
    TotalSnoc(front, Word(d, n) + c / 256);
    TotalSnoc(front + [Word(d, n) + c / 256], 256 * (c % 256));
  }

  /** So the checksum of an odd number of bytes verifies exactly when the two bytes of the sum are the
      same. */
  lemma OddLengthExact(d: seq<byte>, c: word)
    requires |d| % 2 == 1 && c == 0xffff - OnesSum(Words(d))
    ensures OnesSum(Words(d + [c / 256, c % 256])) == 0xffff <==>
            OnesSum(Words(d)) / 256 == OnesSum(Words(d)) % 256
  {
    var sum := OnesSum(Words(d));
    FoldIsOnesSum(Words(d));
    FoldIsOnesSum(Words(d + [c / 256, c % 256]));
    OddTotal(d, c);
    FoldAdd(Total(Words(d)), Swap(c));
    assert c / 256 == 255 - sum / 256 && c % 256 == 255 - sum % 256;
    assert Swap(c) == 0xffff - Swap(sum);
  }

  /** One byte 1 does not verify, one byte 0 does. */
  lemma OddLengthFails()
    ensures OnesSum(Words([1])) == 0x100 && OnesSum(Words([1, 0xfe, 0xff])) != 0xffff
    ensures OnesSum(Words([0])) == 0 && OnesSum(Words([0, 0xff, 0xff])) == 0xffff
  {
    OneWord(1);
    OneWord(0);
    OddLengthExact([1], 0xfeff);
    OddLengthExact([0], 0xffff);
    assert [1] + [0xfe, 0xff] == [1, 0xfe, 0xff] && [0] + [0xff, 0xff] == [0, 0xff, 0xff];
  }

  lemma OneWord(b: byte)
    ensures OnesSum(Words([b])) == 256 * b
  {
    assert Words([b]) == [Word([b], 0)];
  }
}
