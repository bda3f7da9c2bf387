/**
 The order of configuration keys: strcmp, except that digits right after a dot count as a number.
 The C comparator is a recursion over dots with five ways out; the order it computes is the
 lexicographic order of token sequences.
 */
module CfgOrder {
  predicate IsDigit(c: char) { '0' <= c <= '9' }

  /** nextc: skip digits. */
  function NextC(s: string): (r: string)
    ensures |r| <= |s|
  {
    if s != [] && IsDigit(s[0]) then NextC(s[1..]) else s
  }

  /** atoi on a leading run of digits. */
  function Atoi(s: string): nat { AtoiFrom(s, 0) }

  function AtoiFrom(s: string, acc: nat): nat
  {
    if s != [] && IsDigit(s[0]) then AtoiFrom(s[1..], acc * 10 + (s[0] as int - '0' as int)) else acc
  }

  /** strcmp; only the sign of the result means anything. */
  function StrCmp(a: string, b: string): int
  {
    if a == [] then (if b == [] then 0 else -1)
    else if b == [] then 1
    else if a[0] != b[0] then a[0] as int - b[0] as int
    else StrCmp(a[1..], b[1..])
  }

  /** strchr(s, '.'), as an index, or -1. */
  function Dot(s: string): (d: int)
    ensures -1 <= d < |s|
    ensures d >= 0 ==> s[d] == '.' && '.' !in s[..d]
    ensures d < 0 ==> '.' !in s
  {
    if s == [] then -1
    else if s[0] == '.' then 0
    else var d := Dot(s[1..]); if d < 0 then -1 else d + 1
  }

  /** cmp0 */
  function Cmp0(s1: string, s2: string): int
    decreases |s1|
  {
    var d1, d2 := Dot(s1), Dot(s2);
    if d1 < 0 || d2 < 0 || d1 != d2 || s1[..d1] != s2[..d2] then StrCmp(s1, s2)
    else
      var t1, t2 := s1[d1 + 1..], s2[d2 + 1..];
      if t1 == [] || !IsDigit(t1[0]) || t2 == [] || !IsDigit(t2[0]) then Cmp0(t1, t2)
      else if Atoi(t1) == Atoi(t2) then Cmp0(NextC(t1), NextC(t2))
      else Atoi(t1) - Atoi(t2)
  }

  // ----- what is compared -----

  datatype Token = Ch(c: char) | Num(n: nat)

  /** Key text as tokens; `dot` says that a dot was just passed. */
  function Tokens(s: string, dot: bool): seq<Token>
    decreases |s|
  {
    if s == [] then []
    else if dot && IsDigit(s[0]) then [Num(Atoi(s))] + Tokens(NextC(s[1..]), false)
    else [Ch(s[0])] + Tokens(s[1..], s[0] == '.')
  }

  /** A number sorts where digits sort. */
  function TokenCmp(a: Token, b: Token): int
  {
    match (a, b)
    case (Num(m), Num(n)) => m - n
    case (Ch(c), Ch(d)) => c as int - d as int
    case (Num(_), Ch(c)) => if c < '0' then 1 else -1
    case (Ch(c), Num(_)) => if c < '0' then -1 else 1
  }

  function Lex(a: seq<Token>, b: seq<Token>): int
  {
    if a == [] then (if b == [] then 0 else -1)
    else if b == [] then 1
    else if a[0] != b[0] then TokenCmp(a[0], b[0])
    else Lex(a[1..], b[1..])
  }

  function Sign(x: int): int { if x < 0 then -1 else if x == 0 then 0 else 1 }

  // ----- Lex is a total order -----

  lemma {:induction false} LexAntisymmetric(a: seq<Token>, b: seq<Token>)
    ensures Sign(Lex(a, b)) == -Sign(Lex(b, a))
    ensures Lex(a, b) == 0 <==> a == b
  {
    if a != [] && b != [] && a[0] == b[0] {
      LexAntisymmetric(a[1..], b[1..]);
      assert a == [a[0]] + a[1..] && b == [b[0]] + b[1..];
    }
  }

  lemma {:induction false} LexTransitive(a: seq<Token>, b: seq<Token>, c: seq<Token>)
    requires Lex(a, b) <= 0 && Lex(b, c) <= 0
    ensures Lex(a, c) <= 0
  {
    if a != [] && b != [] && c != [] && a[0] == b[0] && b[0] == c[0] {
      LexTransitive(a[1..], b[1..], c[1..]);
    }
  }

  // ----- Cmp0 computes Lex -----

  /** Text that differs before or at its first dot: strcmp and the token order agree. */
  lemma {:induction false} StrCmpIsLex(s1: string, s2: string)
    requires Dot(s1) < 0 || Dot(s2) < 0 || Dot(s1) != Dot(s2) || s1[..Dot(s1)] != s2[..Dot(s2)]
    ensures Sign(StrCmp(s1, s2)) == Sign(Lex(Tokens(s1, false), Tokens(s2, false)))
  {
    if s1 != [] && s2 != [] && s1[0] == s2[0] {
      assert s1[0] != '.';
      var d1, d2 := Dot(s1), Dot(s2);
      if d1 > 0 && d2 > 0 {
        assert s1[..d1] == [s1[0]] + s1[1..][..d1 - 1];
        assert s2[..d2] == [s2[0]] + s2[1..][..d2 - 1];
      }
      StrCmpIsLex(s1[1..], s2[1..]);
    }
  }

  /** Common text up to the first dot does not matter. */
  lemma {:induction false} LexSkipsPrefix(s1: string, s2: string)
    requires Dot(s1) >= 0 && Dot(s1) == Dot(s2) && s1[..Dot(s1)] == s2[..Dot(s2)]
    ensures var d := Dot(s1);
            Lex(Tokens(s1, false), Tokens(s2, false)) == Lex(Tokens(s1[d + 1..], true), Tokens(s2[d + 1..], true))
  {
    var d := Dot(s1);
    if d > 0 {
      assert s1[0] == s1[..d][0] == s2[..d][0] == s2[0];
      assert s1[1..][..d - 1] == s1[..d][1..] == s2[..d][1..] == s2[1..][..d - 1];
      assert s1[1..][d..] == s1[d + 1..] && s2[1..][d..] == s2[d + 1..];
      LexSkipsPrefix(s1[1..], s2[1..]);
    }
  }

  /** Numbers behind a dot are compared first, the text behind them next. */
  lemma LexNumber(t1: string, t2: string)
    requires t1 != [] && IsDigit(t1[0]) && t2 != [] && IsDigit(t2[0])
    ensures var l := Lex(Tokens(t1, true), Tokens(t2, true));
            l == if Atoi(t1) == Atoi(t2) then Lex(Tokens(NextC(t1), false), Tokens(NextC(t2), false))
                 else Atoi(t1) - Atoi(t2)
  {
    var r1, r2 := Tokens(NextC(t1), false), Tokens(NextC(t2), false);
    assert Tokens(t1, true) == [Num(Atoi(t1))] + r1;
    assert Tokens(t2, true) == [Num(Atoi(t2))] + r2;
  }

  /** Where one of two texts behind a dot has no number, the dot makes no difference. */
  lemma LexNoNumber(t1: string, t2: string)
    requires t1 == [] || !IsDigit(t1[0]) || t2 == [] || !IsDigit(t2[0])
    ensures Sign(Lex(Tokens(t1, true), Tokens(t2, true))) == Sign(Lex(Tokens(t1, false), Tokens(t2, false)))
  {
  }

  lemma {:induction false} Cmp0IsLex(s1: string, s2: string)
    ensures Sign(Cmp0(s1, s2)) == Sign(Lex(Tokens(s1, false), Tokens(s2, false)))
    decreases |s1|
  {
    var d1, d2 := Dot(s1), Dot(s2);
    if d1 < 0 || d2 < 0 || d1 != d2 || s1[..d1] != s2[..d2] {
      StrCmpIsLex(s1, s2);
    } else {
      LexSkipsPrefix(s1, s2);
      var t1, t2 := s1[d1 + 1..], s2[d2 + 1..];
      if t1 == [] || !IsDigit(t1[0]) || t2 == [] || !IsDigit(t2[0]) {
        LexNoNumber(t1, t2);
        Cmp0IsLex(t1, t2);
      } else {
        LexNumber(t1, t2);
        Cmp0IsLex(NextC(t1), NextC(t2));
      }
    }
  }

  /** cmp0 is a total preorder on all strings, and what it identifies are the keys that differ at
      most in leading zeros of dotted numbers. */
  lemma Cmp0TotalPreorder(a: string, b: string, c: string)
    ensures Cmp0(a, a) == 0
    ensures Sign(Cmp0(a, b)) == -Sign(Cmp0(b, a))
    ensures Cmp0(a, b) <= 0 && Cmp0(b, c) <= 0 ==> Cmp0(a, c) <= 0
    ensures Cmp0(a, b) == 0 <==> Tokens(a, false) == Tokens(b, false)
  {
    Cmp0IsLex(a, a);
    Cmp0IsLex(a, b);
    Cmp0IsLex(b, a);
    Cmp0IsLex(b, c);
    Cmp0IsLex(a, c);
    LexAntisymmetric(Tokens(a, false), Tokens(a, false));
    LexAntisymmetric(Tokens(a, false), Tokens(b, false));
    if Cmp0(a, b) <= 0 && Cmp0(b, c) <= 0 {
      LexTransitive(Tokens(a, false), Tokens(b, false), Tokens(c, false));
    }
  }
}
