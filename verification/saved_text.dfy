/** Binary strings that go into the store as text, out to the configuration file and back. */
module SavedText {
  import opened Prelude
  import opened Bstr16
  import opened CfgFile
  import opened CfgRoundTrip

  /** The same bytes as the characters of a C string. */
  function Chars(s: seq<byte>): (v: string)
    ensures |v| == |s| && forall i :: 0 <= i < |s| ==> v[i] as int == s[i]
  {
    seq(|s|, i requires 0 <= i < |s| => s[i] as char)
  }

  /** What is read back where the file holds the text of `d` and goes on with `t`. */
  function ReadBack(d: seq<byte>, t: string): Option<string> { Val(Tail(Chars(Bread(d))) + t).0 }

  lemma {:induction false} Utf8HasNoControls(d: seq<byte>, i: nat)
    requires IsUtf8(d) && i < |d|
    ensures d[i] >= 0x20
    decreases |d|
  {
    var n := Following(d[0]).value;
    if i > n {
      Utf8HasNoControls(d[n + 1..], i - n - 1);
    } else if i > 0 {
      assert Continues(d[i]);
    }
  }

  lemma {:induction false} HexHasNoBlanks(d: seq<byte>, i: nat)
    requires i < 2 * |d|
    ensures Hex(d)[i] >= 48
  {
    if i >= 2 {
      HexHasNoBlanks(d[1..], i - 2);
      assert Hex(d)[i] == Hex(d[1..])[i - 2];
    }
  }

  lemma NotSpace(c: char)
    requires c as int > 32
    ensures !IsSpace(c)
  {
  }

  /** Text of visible characters needs no quotes. */
  lemma VisibleText(b: seq<byte>)
    requires b != [] && b[0] != 34 && forall i :: 0 <= i < |b| ==> b[i] > 32
    ensures '\0' !in Chars(b) && (ValueOk(Chars(b)) <==> |b| <= CW_CFG_MAX_KEY_LEN)
  {
    var v := Chars(b);
    assert v[0] as int == b[0] && v[|v| - 1] as int == b[|b| - 1];
    NotSpace(v[0]);
    NotSpace(v[|v| - 1]);
    forall c | c in v ensures c as int > 32 {
      var i: nat :| i < |v| && v[i] == c;
      assert v[i] as int == b[i];
    }
  }

  lemma HexTextVisible(d: seq<byte>, b: seq<byte>)
    requires b == [DOT, X] + Hex(d)
    ensures forall i :: 0 <= i < |b| ==> b[i] > 32
  {
    forall i: nat | i < |b| ensures b[i] > 32 {
      if i >= 2 {
        HexHasNoBlanks(d, i - 2);
        assert b[i] == Hex(d)[i - 2];
      }
    }
  }

  /** Bytes that are not UTF-8 come back from the file exactly when there are at most 511 of them,
      and the text that comes back stands for those bytes. */
  lemma BinarySurvives(d: seq<byte>, t: string)
    requires !IsUtf8(d)
    ensures ReadBack(d, t) == Some(Chars(Bread(d))) <==> |d| <= 511
    ensures Xput(Bread(d)) == d
  {
    HexTextVisible(d, Bread(d));
    VisibleText(Bread(d));
    ValueRoundTrip(Chars(Bread(d)), t);
    TextRoundTrip(d);
  }

  /** UTF-8 comes back exactly when it is short enough and does not need the quotes it contains. */
  lemma Utf8Survives(d: seq<byte>, t: string)
    requires IsUtf8(d)
    ensures var v := Chars(d);
            ReadBack(d, t) == Some(v) <==>
            |d| <= CW_CFG_MAX_KEY_LEN && if Spaced(v) then Plain(v) else v == [] || v[0] != '"'
  {
    var v := Chars(d);
    forall i | 0 <= i < |v| ensures v[i] as int >= 32 {
      Utf8HasNoControls(d, i);
    }
    ValueRoundTrip(v, t);
  }
}
