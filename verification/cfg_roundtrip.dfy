/** What survives printing a configuration and reading it back. */
module CfgRoundTrip {
  import opened Prelude
  import opened CfgOrder
  import opened CfgStore
  import opened CfgFile
  import Mavl

  // ----- values -----

  predicate Escaped(c: char) { c == 'n' || c == '\\' || c == '"' }

  /** Quoted text that the reader does not take for an escape or an end. */
  predicate Plain(v: string)
  {
    v == [] || (v[0] != '"' && (v[0] == '\\' ==> |v| > 1 && !Escaped(v[1])) && Plain(v[1..]))
  }

  /** The exact condition on a value. */
  predicate ValueOk(v: string)
  {
    && |v| <= CW_CFG_MAX_KEY_LEN
    && '\n' !in v
    && if Spaced(v) then Plain(v) else v == [] || v[0] != '"'
  }

  /** An unquoted value is what stands before the end of the line. */
  lemma {:induction false} PlainText(v: string, t: string, max: nat)
    ensures var r := ValChars(v + "\n" + t, false, max);
            if |v| <= max && '\n' !in v then r == (v, t) else |r.0| < |v|
  {
    var s := v + "\n" + t;
    if v == [] {
      assert s[0] == '\n' && s[1..] == t;
    } else if max > 0 && v[0] != '\n' {
      assert s[1..] == v[1..] + "\n" + t;
      PlainText(v[1..], t, max - 1);
      assert v == [v[0]] + v[1..];
    }
  }

  /** Quoted reading yields at most the characters before the closing quote. */
  lemma {:induction false} QuotedShort(w: string, t: string, max: nat)
    ensures |ValChars(w + "\"\n" + t, true, max).0| <= |w|
    decreases |w|
  {
    var s := w + "\"\n" + t;
    if w == [] {
      assert s[0] == '"';
    } else if max > 0 && s[0] != '\n' && s[0] != '"' {
      assert s[1..] == w[1..] + "\"\n" + t;
      if s[0] == '\\' && |w| == 1 {
        assert s[1..][0] == '"' && s[1..][1..] == "\n" + t;
      } else if s[0] == '\\' && Escaped(w[1]) {
        assert s[1..][1..] == w[2..] + "\"\n" + t;
        QuotedShort(w[2..], t, max - 1);
      } else {
        QuotedShort(w[1..], t, max - 1);
      }
    }
  }

  /** And without a closing quote at most the characters of the line. */
  lemma {:induction false} UnclosedShort(w: string, t: string, max: nat)
    ensures |ValChars(w + "\n" + t, true, max).0| <= |w|
    decreases |w|
  {
    var s := w + "\n" + t;
    if w == [] {
      assert s[0] == '\n';
    } else if max > 0 && s[0] != '\n' && s[0] != '"' {
      assert s[1..] == w[1..] + "\n" + t;
      if s[0] == '\\' && |w| > 1 && Escaped(w[1]) {
        assert s[1..][0] == w[1] && s[1..][1..] == w[2..] + "\n" + t;
        UnclosedShort(w[2..], t, max - 1);
      } else {
        assert |w| > 1 ==> s[1..][0] == w[1];
        assert |w| == 1 ==> s[1..][0] == '\n';
        UnclosedShort(w[1..], t, max - 1);
      }
    }
  }

  /** A live escape yields one character for two, or a different one. */
  lemma EscapeLoses(v: string, t: string, max: nat)
    requires v != [] && max > 0 && v[0] == '\\' && (|v| == 1 || Escaped(v[1]))
    ensures ValChars(v + "\"\n" + t, true, max).0 != v
  {
    var s := v + "\"\n" + t;
    if |v| == 1 {
      assert s[1..][0] == '"';
    } else {
      assert s[1..][0] == v[1] && s[1..][1..] == v[2..] + "\"\n" + t;
      QuotedShort(v[2..], t, max - 1);
    }
  }

  /** The body of a quoted value, up to the closing quote. */
  lemma {:induction false} QuotedText(v: string, t: string, max: nat)
    ensures ValChars(v + "\"\n" + t, true, max).0 == v <==> |v| <= max && '\n' !in v && Plain(v)
    ensures |v| <= max && '\n' !in v && Plain(v) ==> ValChars(v + "\"\n" + t, true, max).1 == "\n" + t
    decreases |v|
  {
    var s := v + "\"\n" + t;
    if v == [] {
      assert s[0] == '"' && s[1..] == "\n" + t;
    } else if max > 0 && v[0] != '"' && v[0] != '\n' {
      assert s[1..] == v[1..] + "\"\n" + t;
      if v[0] == '\\' && (|v| == 1 || Escaped(v[1])) {
        EscapeLoses(v, t, max);
      } else {
        assert v[0] == '\\' ==> s[1..][0] == v[1];
        QuotedText(v[1..], t, max - 1);
        assert v == [v[0]] + v[1..];
      }
    }
  }

  lemma TrimNothing(v: string)
    requires !Spaced(v)
    ensures TrimRight(v) == v
  {
  }

  lemma {:induction false} TrimShort(v: string)
    ensures |TrimRight(v)| <= |v|
  {
    if v != [] { TrimShort(v[..|v| - 1]); }
  }

  /** What follows the key on a printed line. */
  function Tail(v: string): string { ": " + Printed(v) + "\n" }

  /** What the reader sees of a printed value: the blank after the colon is skipped. */
  lemma ValOfTail(v: string, t: string, body: string)
    requires body == Printed(v) + "\n" + t
    ensures var u := SkipIn(body, BLANKS);
            Val(Tail(v) + t) ==
            if u != [] && u[0] == '"' then
              var (w, rest) := ValChars(u[1..], true, CW_CFG_MAX_KEY_LEN); (Some(w), rest)
            else
              var (w, rest) := ValChars(u, false, CW_CFG_MAX_KEY_LEN); (Some(TrimRight(w)), rest)
  {
    var s := Tail(v) + t;
    assert s == [':', ' '] + body;
    assert SkipIn(s, BLANKS) == s;
    assert s[1..] == [' '] + body && s[1..][1..] == body;
    assert SkipIn(s[1..], BLANKS) == SkipIn(body, BLANKS);
  }

  lemma SpacedValue(v: string, t: string)
    requires Spaced(v)
    ensures Val(Tail(v) + t).0 == Some(v) <==> ValueOk(v)
    ensures ValueOk(v) ==> Val(Tail(v) + t).1 == "\n" + t
  {
    var text := v + "\"\n" + t;
    var body := ['"'] + text;
    assert Printed(v) + "\n" + t == body;
    ValOfTail(v, t, body);
    assert SkipIn(body, BLANKS) == body && body[1..] == text;
    QuotedText(v, t, CW_CFG_MAX_KEY_LEN);
  }

  lemma UnspacedValue(v: string, t: string)
    requires '\0' !in v && !Spaced(v)
    ensures Val(Tail(v) + t).0 == Some(v) <==> ValueOk(v)
    ensures ValueOk(v) ==> Val(Tail(v) + t).1 == t
  {
    var body := v + "\n" + t;
    ValOfTail(v, t, body);
    assert body[0] == if v == [] then '\n' else v[0];
    assert SkipIn(body, BLANKS) == body;
    if v != [] && v[0] == '"' {
      assert body[1..] == v[1..] + "\n" + t;
      UnclosedShort(v[1..], t, CW_CFG_MAX_KEY_LEN);
    } else {
      PlainText(v, t, CW_CFG_MAX_KEY_LEN);
      TrimNothing(v);
      TrimShort(ValChars(body, false, CW_CFG_MAX_KEY_LEN).0);
    }
  }

  /** A printed value comes back exactly when it is at most 1024 characters without a newline and,
      with a blank at either end, free of quotes and live escapes, or else not begun by a quote. */
  lemma ValueRoundTrip(v: string, t: string)
    requires '\0' !in v
    ensures Val(Tail(v) + t).0 == Some(v) <==> ValueOk(v)
    ensures ValueOk(v) ==> Val(Tail(v) + t).1 == t || Val(Tail(v) + t).1 == "\n" + t
  {
    if Spaced(v) { SpacedValue(v, t); } else { UnspacedValue(v, t); }
  }

  // ----- keys -----

  ghost predicate KeyOk(k: string)
  {
    && 0 < |k| < CW_CFG_MAX_KEY_LEN && k[0] != '#'
    && forall i :: 0 <= i < |k| ==> KeyChar(k[i]) && k[i] != '\0'
  }

  lemma {:induction false} KeyText(k: string, t: string, max: nat)
    requires |k| < max && forall i :: 0 <= i < |k| ==> KeyChar(k[i])
    ensures KeyChars(k + ":" + t, false, max) == (k, ":" + t, false)
  {
    var s := k + ":" + t;
    if k == [] {
      assert s == ":" + t && s == [':'] + s[1..];
      assert GetQ(s, false) == (Some(':'), s[1..], false) && !KeyChar(':');
    } else {
      assert s[0] == k[0] && KeyChar(k[0]) && s[1..] == k[1..] + ":" + t;
      assert GetQ(s, false) == (Some(s[0]), s[1..], false);
      KeyText(k[1..], t, max - 1);
      assert k == [k[0]] + k[1..];
    }
  }

  /** A key is found behind the newline that a quoted value leaves unread. */
  lemma KeyRoundTrip(k: string, t: string, nl: string)
    requires KeyOk(k) && (nl == "" || nl == "\n")
    ensures Key(nl + k + ":" + t, false) == (k, ":" + t, false)
  {
    var s := k + ":" + t;
    assert s[0] == k[0] && KeyChar(k[0]);
    assert KeyStart(s) == s;
    assert nl + k + ":" + t == nl + s;
    if nl == "\n" {
      assert (nl + s)[0] == '\n' && (nl + s)[1..] == s;
      assert SkipIn(nl + s, KEY_BLANKS) == SkipIn(s, KEY_BLANKS);
    } else {
      assert nl + s == s;
    }
    KeyText(k, t, CW_CFG_MAX_KEY_LEN);
  }

  // ----- the store -----

  ghost predicate EntryOk(e: Entry) { KeyOk(e.key) && '\0' !in e.val && ValueOk(e.val) }

  lemma {:induction false} CStrWhole(s: string)
    requires '\0' !in s
    ensures CStr(s) == s
  {
    if s != [] {
      CStrWhole(s[1..]);
      assert s == [s[0]] + s[1..];
    }
  }

  /** Entries set in their order line up at the end. */
  lemma SetAppends(es: seq<Entry>, i: nat)
    requires Sorted(es) && i < |es|
    ensures SetEntry(es[..i], es[i]) == es[..i + 1]
  {
    Mavl.ReplaceAppends(CmpEntry, es[..i], es[i]);
  }

  /** One printed line, read and set. */
  lemma LineRoundTrip(e: Entry, t: string, nl: string, cfg: seq<Entry>)
    requires EntryOk(e) && (nl == "" || nl == "\n")
    ensures ReadAll(nl + Line(e) + t, false, cfg) == ReadAll(t, false, SetEntry(cfg, e))
         || ReadAll(nl + Line(e) + t, false, cfg) == ReadAll("\n" + t, false, SetEntry(cfg, e))
  {
    var tail := " " + Printed(e.val) + "\n" + t;
    assert nl + Line(e) + t == nl + e.key + ":" + tail by {
      assert ": " == ":" + " ";
    }
    KeyRoundTrip(e.key, tail, nl);
    assert ":" + tail == Tail(e.val) + t;
    ValueRoundTrip(e.val, t);
    CStrWhole(e.key);
    CStrWhole(e.val);
    ReadAllStep(nl + Line(e) + t, false, cfg);
    assert e == Entry(e.key, e.val);
  }

  lemma {:induction false} LinesRoundTrip(es: seq<Entry>, i: nat, nl: string)
    requires Sorted(es) && i <= |es| && (forall e :: e in es ==> EntryOk(e)) && (nl == "" || nl == "\n")
    ensures ReadAll(nl + WriteAll(es[i..]), false, es[..i]) == (es, 0)
    decreases |es| - i
  {
    if i == |es| {
      assert nl + WriteAll(es[i..]) == nl && es[..i] == es;
      EndOfFile(nl, es);
    } else {
      var t := WriteAll(es[i + 1..]);
      FirstLine(es, i, nl);
      LineRoundTrip(es[i], t, nl, es[..i]);
      SetAppends(es, i);
      LinesRoundTrip(es, i + 1, "");
      LinesRoundTrip(es, i + 1, "\n");
      assert "" + t == t;
    }
  }

  lemma FirstLine(es: seq<Entry>, i: nat, nl: string)
    requires i < |es|
    ensures nl + WriteAll(es[i..]) == nl + Line(es[i]) + WriteAll(es[i + 1..])
  {
    WriteAllStep(es, i, nl);
  }

  lemma EndOfFile(nl: string, cfg: seq<Entry>)
    requires nl == "" || nl == "\n"
    ensures ReadAll(nl, false, cfg) == (cfg, 0)
  {
    ReadAllStep(nl, false, cfg);
    assert SkipIn("", KEY_BLANKS) == "";
    if nl == "\n" { assert nl[1..] == ""; }
    assert KeyStart(nl) == "";
  }

  /** Entries under good keys come back, without errors, when every value is one that survives on its own. */
  lemma GoodStoreSurvives(es: seq<Entry>)
    requires Sorted(es) && forall e :: e in es ==> EntryOk(e)
    ensures ReadAll(WriteAll(es), false, []) == (es, 0)
  {
    LinesRoundTrip(es, 0, "");
    assert es[0..] == es && "" + WriteAll(es) == WriteAll(es);
  }

  // ----- any text -----

  /** A value takes at least as much text as it is long, and some text in any case. */
  lemma {:induction false} ValCharsEats(s: string, quote: bool, max: nat)
    ensures var r := ValChars(s, quote, max); |r.0| + |r.1| <= |s| && (s != [] ==> |r.1| < |s|)
    ensures '\0' !in s ==> var r := ValChars(s, quote, max); '\0' !in r.0 && '\0' !in r.1
    decreases |s|
  {
    if s != [] && max > 0 && !(quote && s[0] == '"') && s[0] != '\n' {
      if quote && s[0] == '\\' {
        ValCharsEats(Escape(s[1..]).1, quote, max - 1);
      } else {
        ValCharsEats(s[1..], quote, max - 1);
      }
    }
  }

  lemma {:induction false} SkipInShort(s: string, chars: string)
    ensures |SkipIn(s, chars)| <= |s|
  {
    if s != [] { SkipInShort(s[1..], chars); }
  }

  lemma ValShort(s: string)
    ensures var r := Val(s); r.0.Some? ==> |r.0.value| + 1 + |r.1| <= |s|
  {
    var t := SkipIn(s, BLANKS);
    SkipInShort(s, BLANKS);
    if t != [] && t[0] == ':' {
      var u := SkipIn(t[1..], BLANKS);
      SkipInShort(t[1..], BLANKS);
      if u != [] && u[0] == '"' {
        ValCharsEats(u[1..], true, CW_CFG_MAX_KEY_LEN);
      } else {
        ValCharsEats(u, false, CW_CFG_MAX_KEY_LEN);
        TrimShort(ValChars(u, false, CW_CFG_MAX_KEY_LEN).0);
      }
    }
  }

  lemma {:induction false} CStrShort(s: string)
    ensures |CStr(s)| <= |s|
  {
    if s != [] { CStrShort(s[1..]); }
  }

  /** Every entry read from a text fits into it. */
  lemma {:induction false} EntryFitsText(s: string, q: bool, cfg: seq<Entry>, e: Entry)
    requires e in ReadAll(s, q, cfg).0
    ensures e in cfg || |e.key| + 1 + |e.val| <= |s|
    decreases |s|
  {
    var (key, s1, q1) := Key(s, q);
    var (val, s2) := Val(s1);
    if key != [] && val.Some? {
      ValShort(s1);
      var n := Entry(CStr(key), CStr(val.value));
      CStrShort(key);
      CStrShort(val.value);
      ReadAllStep(s, q, cfg);
      EntryFitsText(s2, q1, SetEntry(cfg, n), e);
      if e in SetEntry(cfg, n) {
        assert e in cfg || e == n;
      }
    }
  }

  /** A newline in a value does more than lose text: it forges an entry. A store with one entry can
      print the same text as one with two, and is read back as the latter. */
  lemma NewlineForges(a: Entry, b: Entry)
    requires Sorted([a, b]) && EntryOk(a) && EntryOk(b)
    requires a.val != [] && b.val != [] && !Spaced(a.val) && !Spaced(b.val)
    ensures var one := Entry(a.key, a.val + "\n" + b.key + ": " + b.val);
            ReadAll(WriteAll([one]), false, []) == ([a, b], 0)
  {
    var one := Entry(a.key, a.val + "\n" + b.key + ": " + b.val);
    assert [one][1..] == [] && [a, b][1..] == [b] && [b][1..] == [];
    calc {
      WriteAll([one]);
      Line(one) + [];
      a.key + ": " + (a.val + "\n" + b.key + ": " + b.val) + "\n";
      (a.key + ": " + a.val + "\n") + (b.key + ": " + b.val + "\n");
      Line(a) + WriteAll([b]);
      WriteAll([a, b]);
    }
    GoodStoreSurvives([a, b]);
  }
}
