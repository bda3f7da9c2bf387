/**
 The exact condition on a whole store. What a misread line leaves unread ends that line. It is read like
 any other text, and can set entries, open a quote or stop the reader, but it never becomes the entry of
 its line.
 */
module CfgMisread {
  import opened Prelude
  import opened CfgOrder
  import opened CfgStore
  import opened CfgFile
  import opened CfgRoundTrip
  import Mavl

  // ----- reading in front of `t` what ends a line -----

  predicate EndsLine(u: string) { u == [] || u[|u| - 1] == '\n' }

  /** What stands behind a line: nothing, or a good key. */
  predicate Begins(t: string) { t == [] || (KeyChar(t[0]) && t[0] != '#' && t[0] != '\0') }

  lemma Front(u: string, t: string)
    requires u != []
    ensures (u + t)[0] == u[0] && (u + t)[1..] == u[1..] + t
    ensures EndsLine(u) ==> EndsLine(u[1..]) && (u[1..] == [] ==> u[0] == '\n')
  {
  }

  lemma {:induction false} SkipInBoth(u: string, t: string, chars: string)
    requires EndsLine(u) && (t == [] || !In(t[0], chars) || (u != [] && !In('\n', chars)))
    ensures SkipIn(u + t, chars) == SkipIn(u, chars) + t && EndsLine(SkipIn(u, chars))
    ensures u != [] && !In('\n', chars) ==> SkipIn(u, chars) != []
  {
    if u == [] {
      assert u + t == t;
    } else {
      Front(u, t);
      if In(u[0], chars) { SkipInBoth(u[1..], t, chars); }
    }
  }

  lemma {:induction false} SkipToBoth(u: string, t: string, chars: string)
    requires u != [] && EndsLine(u) && In('\n', chars)
    ensures var r := SkipTo(u, chars); SkipTo(u + t, chars) == r + t && EndsLine(r) && r != []
  {
    Front(u, t);
    if !In(u[0], chars) { SkipToBoth(u[1..], t, chars); }
  }

  lemma {:induction false} KeyStartBoth(u: string, t: string)
    requires EndsLine(u) && Begins(t)
    ensures KeyStart(u + t) == KeyStart(u) + t && EndsLine(KeyStart(u))
    decreases |u|
  {
    var v := SkipIn(u, KEY_BLANKS);
    SkipInBoth(u, t, KEY_BLANKS);
    if v != [] && v[0] == '#' {
      Front(v, t);
      var w := SkipTo(v[1..], EOLS);
      SkipToBoth(v[1..], t, EOLS);
      Front(w, t);
      KeyStartBoth(w[1..], t);
    } else if v == [] {
      assert v + t == t;
    }
  }

  lemma StartsHere(t: string)
    requires Begins(t)
    ensures KeyStart(t) == t
  {
    assert SkipIn(t, KEY_BLANKS) == t;
  }

  lemma EscapeBoth(u: string, t: string)
    requires u != [] && EndsLine(u)
    ensures var (c, rest) := Escape(u);
            Escape(u + t) == (c, rest + t) && c.Some? && EndsLine(rest) && rest != []
  {
    Front(u, t);
  }

  lemma {:induction false} GetQBoth(u: string, t: string, quote: bool)
    requires u != [] && EndsLine(u)
    ensures var g := GetQ(u, quote);
            && g.0.Some? && GetQ(u + t, quote) == (g.0, g.1 + t, g.2)
            && EndsLine(g.1) && (g.1 == [] ==> g.0 == Some('\n'))
  {
    Front(u, t);
    if u[0] == '"' {
      GetQBoth(u[1..], t, !quote);
    } else if u[0] != '\n' && quote && u[0] == '\\' {
      EscapeBoth(u[1..], t);
    }
  }

  /** Where a key is read beyond the line, a newline is in it. */
  lemma {:induction false} KeyCharsBoth(u: string, t: string, quote: bool, max: nat)
    requires u != [] && EndsLine(u)
    ensures var k, all := KeyChars(u, quote, max), KeyChars(u + t, quote, max);
            '\n' in all.0 || (all == (k.0, k.1 + t, k.2) && EndsLine(k.1))
    decreases |u|
  {
    var (c, rest, q) := GetQ(u, quote);
    GetQBoth(u, t, quote);
    if max > 0 && (q || KeyChar(c.value)) {
      if rest == [] {
        assert c.value == '\n';
      } else {
        KeyCharsBoth(rest, t, q, max - 1);
      }
    } else if max > 0 {
      assert [c.value] + (rest + t) == [c.value] + rest + t;
    }
  }

  lemma {:induction false} ValCharsBoth(u: string, t: string, quote: bool, max: nat)
    requires u != [] && EndsLine(u)
    ensures var v := ValChars(u, quote, max);
            ValChars(u + t, quote, max) == (v.0, v.1 + t) && EndsLine(v.1)
    decreases |u|
  {
    Front(u, t);
    if max > 0 && !(quote && u[0] == '"') && u[0] != '\n' {
      if quote && u[0] == '\\' {
        EscapeBoth(u[1..], t);
        ValCharsBoth(Escape(u[1..]).1, t, quote, max - 1);
      } else {
        ValCharsBoth(u[1..], t, quote, max - 1);
      }
    }
  }

  lemma NoColon(t: string)
    requires Begins(t)
    ensures Val(t).0 == None
  {
    if t != [] {
      assert t[0] != ' ' && t[0] != '\t' && t[0] != ':' && !In(t[0], BLANKS);
    }
  }

  /** A value behind its colon. */
  function AfterColon(s: string): (string, string)
  {
    var u := SkipIn(s, BLANKS);
    if u != [] && u[0] == '"' then ValChars(u[1..], true, CW_CFG_MAX_KEY_LEN)
    else var (v, rest) := ValChars(u, false, CW_CFG_MAX_KEY_LEN); (TrimRight(v), rest)
  }

  lemma ValIsAfterColon(s: string)
    ensures var t := SkipIn(s, BLANKS);
            if t != [] && t[0] == ':' then Val(s) == (Some(AfterColon(t[1..]).0), AfterColon(t[1..]).1)
            else Val(s).0 == None
  {
  }

  lemma AfterColonBoth(u: string, t: string)
    requires u != [] && EndsLine(u)
    ensures var v := AfterColon(u); AfterColon(u + t) == (v.0, v.1 + t) && EndsLine(v.1)
  {
    var w := SkipIn(u, BLANKS);
    SkipInBoth(u, t, BLANKS);
    Front(w, t);
    if w[0] == '"' {
      ValCharsBoth(w[1..], t, true, CW_CFG_MAX_KEY_LEN);
    } else {
      ValCharsBoth(w, t, false, CW_CFG_MAX_KEY_LEN);
    }
  }

  lemma ValBoth(u: string, t: string)
    requires EndsLine(u) && Begins(t)
    ensures var v, all := Val(u), Val(u + t);
            all.0 == v.0 && (v.0.Some? ==> all.1 == v.1 + t && EndsLine(v.1))
  {
    if u == [] {
      assert u + t == t;
      NoColon(t);
    } else {
      var v := SkipIn(u, BLANKS);
      SkipInBoth(u, t, BLANKS);
      Front(v, t);
      ValIsAfterColon(u);
      ValIsAfterColon(u + t);
      if v[0] == ':' { AfterColonBoth(v[1..], t); }
    }
  }

  // ----- a key outside the alphabet stays -----

  predicate Foreign(k: string) { exists c :: c in k && !KeyChar(c) }

  lemma Outside(k: string, c: char)
    requires c in k && (c == ':' || c == '\n')
    ensures Foreign(k)
  {
    assert !KeyChar(c);
  }

  ghost predicate HasForeign(cfg: seq<Entry>) { exists e :: e in cfg && Foreign(e.key) }

  lemma {:induction false} NextCIn(s: string, c: char)
    requires !IsDigit(c)
    ensures c in s <==> c in NextC(s)
  {
    if s != [] && IsDigit(s[0]) {
      NextCIn(s[1..], c);
      assert s == [s[0]] + s[1..];
    }
  }

  /** What is no digit stands in the tokens. */
  lemma {:induction false} InTokens(s: string, dot: bool, c: char)
    requires !IsDigit(c)
    ensures c in s <==> Ch(c) in Tokens(s, dot)
    decreases |s|
  {
    if s != [] {
      assert s == [s[0]] + s[1..];
      if dot && IsDigit(s[0]) {
        NextCIn(s[1..], c);
        InTokens(NextC(s[1..]), false, c);
      } else {
        InTokens(s[1..], s[0] == '.', c);
      }
    }
  }

  lemma ForeignEqual(a: string, b: string)
    requires Foreign(a) && Cmp0(a, b) == 0
    ensures Foreign(b)
  {
    var c :| c in a && !KeyChar(c);
    Cmp0TotalPreorder(a, b, b);
    InTokens(a, false, c);
    InTokens(b, false, c);
  }

  lemma SetKeepsForeign(cfg: seq<Entry>, n: Entry)
    requires HasForeign(cfg) || Foreign(n.key)
    ensures HasForeign(SetEntry(cfg, n))
  {
    var r, i := SetEntry(cfg, n), Mavl.LowerBound(CmpEntry, cfg, n);
    assert r[i] == n && n in r;
    if !Foreign(n.key) {
      var e :| e in cfg && Foreign(e.key);
      if Cmp0(e.key, n.key) == 0 {
        ForeignEqual(e.key, n.key);
      } else {
        Mavl.ReplaceLeaves(CmpEntry, cfg, n, e);
      }
    }
  }

  lemma {:induction false} ForeignStays(s: string, q: bool, cfg: seq<Entry>)
    requires HasForeign(cfg)
    ensures HasForeign(ReadAll(s, q, cfg).0)
    decreases |s|
  {
    var (key, s1, q1) := Key(s, q);
    var (val, s2) := Val(s1);
    ReadAllStep(s, q, cfg);
    if key != [] && val.Some? {
      var n := Entry(CStr(key), CStr(val.value));
      SetKeepsForeign(cfg, n);
      ValShort(s1);
      ForeignStays(s2, q1, SetEntry(cfg, n));
    }
  }

  predicate NoNul(s: string) { '\0' !in s }

  lemma {:induction false} GetQNoNul(s: string, quote: bool)
    requires NoNul(s)
    ensures var g := GetQ(s, quote); (g.0.Some? ==> g.0.value != '\0') && NoNul(g.1)
  {
    if s != [] && s[0] == '"' { GetQNoNul(s[1..], !quote); }
  }

  lemma {:induction false} KeyCharsNoNul(s: string, quote: bool, max: nat)
    requires NoNul(s)
    ensures NoNul(KeyChars(s, quote, max).0) && NoNul(KeyChars(s, quote, max).1)
    decreases |s|
  {
    var (c, rest, q) := GetQ(s, quote);
    GetQNoNul(s, quote);
    if c.Some? && max > 0 { KeyCharsNoNul(rest, q, max - 1); }
  }

  lemma {:induction false} SkipInKeeps(s: string, chars: string)
    requires NoNul(s)
    ensures NoNul(SkipIn(s, chars))
  {
    if s != [] { SkipInKeeps(s[1..], chars); }
  }

  lemma {:induction false} SkipToKeeps(s: string, chars: string)
    requires NoNul(s)
    ensures NoNul(SkipTo(s, chars))
  {
    if s != [] { SkipToKeeps(s[1..], chars); }
  }

  lemma {:induction false} KeyStartNoNul(s: string)
    requires NoNul(s)
    ensures NoNul(KeyStart(s))
    decreases |s|
  {
    var t := SkipIn(s, KEY_BLANKS);
    SkipInKeeps(s, KEY_BLANKS);
    if t != [] && t[0] == '#' {
      var u := SkipTo(t[1..], EOLS);
      SkipToKeeps(t[1..], EOLS);
      if u != [] { KeyStartNoNul(u[1..]); }
    }
  }

  /** Once such a key was read, the store read in the end has one. */
  lemma ForeignRead(s: string, q: bool, cfg: seq<Entry>)
    requires NoNul(s) && Foreign(Key(s, q).0)
    ensures var r := ReadAll(s, q, cfg); r.1 != 0 || HasForeign(r.0)
  {
    var (key, s1, q1) := Key(s, q);
    var (val, s2) := Val(s1);
    KeyStartNoNul(s);
    KeyCharsNoNul(KeyStart(s), q, CW_CFG_MAX_KEY_LEN);
    CStrWhole(key);
    ReadAllStep(s, q, cfg);
    if val.Some? {
      var n := Entry(CStr(key), CStr(val.value));
      SetKeepsForeign(cfg, n);
      ForeignStays(s2, q1, SetEntry(cfg, n));
    }
  }

  // ----- what a misread line leaves unread -----

  /** Entries under good keys, whose values need not survive. */
  ghost predicate Storable(es: seq<Entry>) { forall e :: e in es ==> KeyOk(e.key) && NoNul(e.val) }

  lemma {:induction false} WrittenNoNul(es: seq<Entry>)
    requires Storable(es)
    ensures NoNul(WriteAll(es))
  {
    if es != [] {
      assert es[0] in es && NoNul(es[0].key) && NoNul(Printed(es[0].val));
      WrittenNoNul(es[1..]);
    }
  }

  /** What stands behind the first colon. */
  function Behind(v: string, rest: string): string { " " + Printed(v) + "\n" + rest }

  lemma Concat(a: string, b: string, c: string)
    ensures a + (b + c) == a + b + c && "" + a == a
  {
  }

  lemma ColonOf(e: Entry, rest: string)
    ensures Line(e) + rest == e.key + ":" + Behind(e.val, rest)
  {
    assert ": " == ":" + " ";
  }

  lemma FirstColon(es: seq<Entry>)
    requires es != []
    ensures WriteAll(es) == es[0].key + ":" + Behind(es[0].val, WriteAll(es[1..]))
  {
    ColonOf(es[0], WriteAll(es[1..]));
  }

  lemma WrittenBegins(es: seq<Entry>)
    requires Storable(es)
    ensures Begins(WriteAll(es))
  {
    if es != [] {
      FirstColon(es);
      assert es[0] in es;
    }
  }

  /** With a quote open, `k` in front of `b` gives one character for the first one or two. */
  lemma GetQOpen(k: string, b: string) returns (n: nat)
    requires k != [] && k[0] != '"' && k[0] != '\n' && b != [] && !Escaped(b[0])
    ensures 1 <= n <= |k| && var g := GetQ(k + b, true); g.0.Some? && g.1 == k[n..] + b && g.2
  {
    var s := k + b;
    assert s[0] == k[0] && s[1..] == k[1..] + b;
    n := 1;
    if k[0] == '\\' {
      assert s[1..][0] == if |k| > 1 then k[1] else b[0];
      if |k| > 1 && Escaped(k[1]) {
        n := 2;
        assert s[1..][1..] == k[2..] + b;
      }
    }
  }

  /** So the colon comes to belong to the key. */
  lemma {:induction false} OpenQuote(k: string, b: string, max: nat)
    requires |k| < max && (forall i :: 0 <= i < |k| ==> KeyChar(k[i])) && b != [] && b[0] == ':'
    ensures ':' in KeyChars(k + b, true, max).0
    decreases |k|
  {
    if k == [] {
      assert k + b == b && GetQ(b, true) == (Some(':'), b[1..], true);
    } else {
      assert KeyChar(k[0]);
      var n := GetQOpen(k, b);
      OpenQuote(k[n..], b, max - 1);
    }
  }

  /** What was added to a store fits into a text of this length. */
  ghost predicate Added(left: seq<Entry>, cfg: seq<Entry>, n: nat)
  {
    forall e :: e in left ==> e in cfg || |e.key| + 1 + |e.val| <= n
  }

  /** Reading something in front of the text `t` is an error, spoils the store, stops, or comes to `t`. */
  ghost predicate Outcome(r: (seq<Entry>, nat), left: seq<Entry>, t: string)
  {
    r.1 != 0 || HasForeign(r.0) || r == (left, 0) || r == ReadAll(t, false, left)
  }

  /** With a quote open a line spoils the store. */
  lemma OpenAtLine(es: seq<Entry>, cfg: seq<Entry>)
    requires Storable(es) && es != []
    ensures var r := ReadAll(WriteAll(es), true, cfg); r.1 != 0 || HasForeign(r.0)
  {
    var t := WriteAll(es);
    WrittenNoNul(es);
    WrittenBegins(es);
    FirstColon(es);
    assert es[0] in es;
    var k, b := es[0].key, ":" + Behind(es[0].val, WriteAll(es[1..]));
    Concat(k, ":", Behind(es[0].val, WriteAll(es[1..])));
    assert t == k + b;
    OpenQuote(k, b, CW_CFG_MAX_KEY_LEN);
    StartsHere(t);
    assert Key(t, true) == KeyChars(k + b, true, CW_CFG_MAX_KEY_LEN);
    Outside(Key(t, true).0, ':');
    ForeignRead(t, true, cfg);
  }

  /** Where only blanks and comments are left, reading goes on with the next line. */
  lemma NothingLeft(u: string, t: string, q: bool, cfg: seq<Entry>)
    requires EndsLine(u) && Begins(t) && KeyStart(u) == []
    ensures ReadAll(u + t, q, cfg) == ReadAll(t, q, cfg)
  {
    KeyStartBoth(u, t);
    StartsHere(t);
    assert [] + t == t;
    ReadAllStep(u + t, q, cfg);
    ReadAllStep(t, q, cfg);
  }

  lemma {:induction false} ValNoNul(s: string)
    requires NoNul(s)
    ensures NoNul(Val(s).1)
  {
    var t := SkipIn(s, BLANKS);
    SkipInKeeps(s, BLANKS);
    if t != [] && t[0] == ':' {
      var u := SkipIn(t[1..], BLANKS);
      SkipInKeeps(t[1..], BLANKS);
      if u != [] && u[0] == '"' {
        ValCharsEats(u[1..], true, CW_CFG_MAX_KEY_LEN);
      } else {
        ValCharsEats(u, false, CW_CFG_MAX_KEY_LEN);
      }
    }
  }

  lemma SetMembers(cfg: seq<Entry>, n: Entry)
    requires Sorted(cfg)
    ensures Sorted(SetEntry(cfg, n))
    ensures forall e :: e in SetEntry(cfg, n) <==> e == n || (e in cfg && Cmp0(e.key, n.key) != 0)
  {
    EntryOrder();
    Mavl.ReplaceKeeps(CmpEntry, AnyEntry, cfg, n);
  }

  lemma KeyBoth(u: string, t: string, q: bool)
    requires EndsLine(u) && Begins(t) && NoNul(u) && KeyStart(u) != []
    ensures var k, all := Key(u, q), Key(u + t, q);
            '\n' in all.0 || (all == (k.0, k.1 + t, k.2) && EndsLine(k.1) && NoNul(k.1))
  {
    KeyStartBoth(u, t);
    KeyStartNoNul(u);
    KeyCharsBoth(KeyStart(u), t, q, CW_CFG_MAX_KEY_LEN);
    KeyCharsNoNul(KeyStart(u), q, CW_CFG_MAX_KEY_LEN);
  }

  /** The entry that `u` begins with is set. */
  lemma OneMore(u: string, t: string, q: bool, cfg: seq<Entry>) returns (cfg1: seq<Entry>)
    requires Sorted(cfg) && EndsLine(u) && Begins(t) && NoNul(u) && KeyStart(u) != []
    requires '\n' !in Key(u + t, q).0 && Key(u, q).0 != [] && Val(Key(u, q).1).0.Some?
    ensures var rest := Val(Key(u, q).1).1;
            && ReadAll(u + t, q, cfg) == ReadAll(rest + t, Key(u, q).2, cfg1)
            && EndsLine(rest) && NoNul(rest) && |rest| < |u| && Sorted(cfg1) && Added(cfg1, cfg, |u|)
  {
    var (key, s, q1) := Key(u, q);
    KeyBoth(u, t, q);
    ValBoth(s, t);
    ValShort(s);
    ValNoNul(s);
    var n := Entry(CStr(key), CStr(Val(s).0.value));
    CStrShort(key);
    CStrShort(Val(s).0.value);
    cfg1 := SetEntry(cfg, n);
    SetMembers(cfg, n);
    ReadAllStep(u + t, q, cfg);
  }

  /** Or reading ends. */
  lemma NoMore(u: string, t: string, q: bool, cfg: seq<Entry>)
    requires EndsLine(u) && Begins(t) && NoNul(u) && NoNul(t) && KeyStart(u) != []
    requires '\n' in Key(u + t, q).0 || Key(u, q).0 == [] || Val(Key(u, q).1).0 == None
    ensures var r := ReadAll(u + t, q, cfg); r.1 != 0 || HasForeign(r.0) || r == (cfg, 0)
  {
    KeyBoth(u, t, q);
    if '\n' in Key(u + t, q).0 {
      Outside(Key(u + t, q).0, '\n');
      ForeignRead(u + t, q, cfg);
    } else {
      ValBoth(Key(u, q).1, t);
      ReadAllStep(u + t, q, cfg);
    }
  }

  /** What is left of a line, in front of the lines of `es`. */
  lemma {:induction false} Leftover(u: string, es: seq<Entry>, q: bool, cfg: seq<Entry>) returns (left: seq<Entry>)
    requires Sorted(cfg) && Storable(es) && EndsLine(u) && NoNul(u)
    ensures Sorted(left) && Outcome(ReadAll(u + WriteAll(es), q, cfg), left, WriteAll(es)) && Added(left, cfg, |u|)
    decreases |u|
  {
    var t := WriteAll(es);
    left := cfg;
    WrittenBegins(es);
    WrittenNoNul(es);
    if KeyStart(u) == [] {
      NothingLeft(u, t, q, cfg);
      if es == [] {
        ReadAllStep(t, q, cfg);
        StartsHere(t);
      } else if q {
        OpenAtLine(es, cfg);
      }
    } else if '\n' in Key(u + t, q).0 || Key(u, q).0 == [] || Val(Key(u, q).1).0 == None {
      NoMore(u, t, q, cfg);
    } else {
      var cfg1 := OneMore(u, t, q, cfg);
      left := Leftover(Val(Key(u, q).1).1, es, Key(u, q).2, cfg1);
    }
  }

  lemma NoNulTrimmed(v: string)
    requires NoNul(v)
    ensures NoNul(TrimRight(v))
  {
    if v != [] && IsSpace(v[|v| - 1]) { NoNulTrimmed(v[..|v| - 1]); }
  }

  /** What is left behind a misread value is too short to hold the entry. */
  lemma TailLeaves(v: string)
    requires NoNul(v)
    ensures var r := Val(Tail(v) + ""); r.0.Some? && NoNul(r.0.value) && |r.1| <= |v| + 1
  {
    var body := Printed(v) + "\n" + "";
    ValOfTail(v, "", body);
    var u := SkipIn(body, BLANKS);
    SkipInShort(body, BLANKS);
    PrintedNoNul(v);
    SkipInKeeps(body, BLANKS);
    if u != [] && u[0] == '"' {
      assert NoNul(u[1..]);
      ValCharsEats(u[1..], true, CW_CFG_MAX_KEY_LEN);
    } else {
      ValCharsEats(u, false, CW_CFG_MAX_KEY_LEN);
      NoNulTrimmed(ValChars(u, false, CW_CFG_MAX_KEY_LEN).0);
    }
  }

  lemma PrintedNoNul(v: string)
    requires NoNul(v)
    ensures NoNul(Printed(v) + "\n" + "")
  {
  }

  // ----- the store -----

  lemma ValOfLine(v: string, t: string)
    requires NoNul(v) && Begins(t)
    ensures var (val, rest) := Val(Tail(v));
            && val.Some? && NoNul(val.value) && EndsLine(rest) && NoNul(rest) && |rest| <= |v| + 1
            && Val(Tail(v) + t) == (val, rest + t) && (val.value == v <==> ValueOk(v))
  {
    assert Tail(v) + "" == Tail(v);
    ValueRoundTrip(v, "");
    TailLeaves(v);
    ValBoth(Tail(v), t);
    ValNoNul(Tail(v));
  }

  /** Reading a printed line sets the key to whatever its value was read as. */
  lemma LineRead(e: Entry, t: string, nl: string, cfg: seq<Entry>)
    requires KeyOk(e.key) && NoNul(e.val) && Begins(t) && (nl == "" || nl == "\n")
    ensures var (val, rest) := Val(Tail(e.val));
            val.Some? && ReadAll(nl + Line(e) + t, false, cfg) ==
                         ReadAll(rest + t, false, SetEntry(cfg, Entry(e.key, val.value)))
  {
    LineSplits(e, t, nl);
    KeyRoundTrip(e.key, Behind(e.val, t), nl);
    ValOfLine(e.val, t);
    CStrWhole(e.key);
    CStrWhole(Val(Tail(e.val)).0.value);
    ReadAllStep(nl + Line(e) + t, false, cfg);
  }

  lemma LineSplits(e: Entry, t: string, nl: string)
    ensures nl + Line(e) + t == nl + e.key + ":" + Behind(e.val, t)
    ensures ":" + Behind(e.val, t) == Tail(e.val) + t && EndsLine(Tail(e.val))
  {
    ColonOf(e, t);
    assert nl + (Line(e) + t) == nl + Line(e) + t;
    assert nl + (e.key + ":" + Behind(e.val, t)) == nl + e.key + ":" + Behind(e.val, t);
    assert ": " == ":" + " ";
    assert ":" + (" " + Printed(e.val) + "\n" + t) == Tail(e.val) + t;
  }

  /** Where its value does not survive, the entry is lost. */
  lemma BadLine(e: Entry, es: seq<Entry>, nl: string, cfg: seq<Entry>) returns (left: seq<Entry>)
    requires Sorted(cfg) && Storable([e]) && Storable(es) && !ValueOk(e.val) && (nl == "" || nl == "\n")
    ensures e !in left && Sorted(left)
    ensures Outcome(ReadAll(nl + Line(e) + WriteAll(es), false, cfg), left, WriteAll(es))
  {
    assert e in [e];
    WrittenBegins(es);
    ValOfLine(e.val, WriteAll(es));
    LineRead(e, WriteAll(es), nl, cfg);
    var (val, rest) := Val(Tail(e.val));
    var n := Entry(e.key, val.value);
    SetMembers(cfg, n);
    Cmp0TotalPreorder(e.key, e.key, e.key);
    left := Leftover(rest, es, false, SetEntry(cfg, n));
  }

  /** The text of all lines is that of the first one and of the others. */
  lemma LineFirst(es: seq<Entry>, nl: string)
    requires es != []
    ensures nl + WriteAll(es) == nl + Line(es[0]) + WriteAll(es[1..]) && "" + WriteAll(es[1..]) == WriteAll(es[1..])
  {
    var line, t := Line(es[0]), WriteAll(es[1..]);
    assert WriteAll(es) == line + t;
    Concat(nl, line, t);
    Concat(t, "", "");
  }

  lemma GoodFirst(es: seq<Entry>, nl: string, cfg: seq<Entry>) returns (nl1: string)
    requires es != [] && EntryOk(es[0]) && (nl == "" || nl == "\n")
    ensures nl1 == "" || nl1 == "\n"
    ensures ReadAll(nl + WriteAll(es), false, cfg) == ReadAll(nl1 + WriteAll(es[1..]), false, SetEntry(cfg, es[0]))
  {
    LineFirst(es, nl);
    LineRoundTrip(es[0], WriteAll(es[1..]), nl, cfg);
    nl1 := if ReadAll(nl + WriteAll(es), false, cfg) == ReadAll("" + WriteAll(es[1..]), false, SetEntry(cfg, es[0]))
           then "" else "\n";
  }

  /** Lines that survive set their own entries only. */
  lemma {:induction false} GoodLines(es: seq<Entry>, nl: string, cfg: seq<Entry>, e: Entry)
    requires (forall x :: x in es ==> EntryOk(x)) && (nl == "" || nl == "\n")
    requires e in ReadAll(nl + WriteAll(es), false, cfg).0
    ensures e in cfg || e in es
    decreases |es|
  {
    if es == [] {
      Concat(nl, "", "");
      EndOfFile(nl, cfg);
    } else {
      var x, later := es[0], es[1..];
      assert x in es && forall y :: y in later ==> y in es;
      SetAddsOne(cfg, x);
      var nl1 := GoodFirst(es, nl, cfg);
      GoodLines(later, nl1, SetEntry(cfg, x), e);
    }
  }

  lemma SetAddsOne(cfg: seq<Entry>, n: Entry)
    ensures forall e :: e in SetEntry(cfg, n) ==> e in cfg || e == n
  {
    forall e | e in SetEntry(cfg, n) ensures e in cfg || e == n {
      Mavl.ReplaceAddsOne(CmpEntry, cfg, n, e);
    }
  }

  /** Reading went wrong, or spoilt the store, or lost one of the entries. */
  ghost predicate Spoilt(r: (seq<Entry>, nat), es: seq<Entry>)
  {
    r.1 != 0 || HasForeign(r.0) || exists e :: e in es && e !in r.0
  }

  ghost predicate AllOk(es: seq<Entry>) { forall e :: e in es ==> ValueOk(e.val) }

  lemma Later(es: seq<Entry>)
    requires es != [] && Sorted(es) && Storable(es)
    ensures Sorted(es[1..]) && Storable(es[1..]) && KeyOk(es[0].key) && NoNul(es[0].val)
    ensures AllOk(es) <==> ValueOk(es[0].val) && AllOk(es[1..])
  {
    assert forall x :: x in es <==> x == es[0] || x in es[1..];
  }

  /** Lines that survive do not bring back an entry that was lost before them. */
  lemma LastLost(es: seq<Entry>, left: seq<Entry>)
    requires Sorted(es) && es != [] && Storable(es) && es[0] !in left && AllOk(es[1..])
    ensures Spoilt(ReadAll("" + WriteAll(es[1..]), false, left), es)
  {
    var later := es[1..];
    Later(es);
    if es[0] in ReadAll("" + WriteAll(later), false, left).0 {
      GoodLines(later, "", left, es[0]);
      OnceOnly(es);
    }
    assert es[0] in es;
  }

  lemma BadFirst(es: seq<Entry>, nl: string, cfg: seq<Entry>) returns (left: seq<Entry>)
    requires Sorted(cfg) && es != [] && Storable(es) && !ValueOk(es[0].val) && (nl == "" || nl == "\n")
    ensures es[0] !in left && Sorted(left)
    ensures var r := ReadAll(nl + WriteAll(es), false, cfg);
            Spoilt(r, es) || r == ReadAll("" + WriteAll(es[1..]), false, left)
  {
    assert es[0] in es && forall x :: x in es[1..] ==> x in es;
    LineFirst(es, nl);
    left := BadLine(es[0], es[1..], nl, cfg);
  }

  /** Of the entries whose values do not survive, the last one whose line is reached is lost. */
  lemma {:induction false} SomeLost(es: seq<Entry>, nl: string, cfg: seq<Entry>)
    requires Sorted(es) && Sorted(cfg) && Storable(es) && (nl == "" || nl == "\n") && !AllOk(es)
    ensures Spoilt(ReadAll(nl + WriteAll(es), false, cfg), es)
    decreases |es|
  {
    var later, r := es[1..], ReadAll(nl + WriteAll(es), false, cfg);
    Later(es);
    if ValueOk(es[0].val) {
      SetMembers(cfg, es[0]);
      var nl1 := GoodFirst(es, nl, cfg);
      SomeLost(later, nl1, SetEntry(cfg, es[0]));
      MoreSpoilt(r, es);
    } else {
      var left := BadFirst(es, nl, cfg);
      if !Spoilt(r, es) {
        if AllOk(later) {
          LastLost(es, left);
        } else {
          SomeLost(later, "", left);
          MoreSpoilt(r, es);
        }
      }
    }
  }

  lemma MoreSpoilt(r: (seq<Entry>, nat), es: seq<Entry>)
    requires es != [] && Spoilt(r, es[1..])
    ensures Spoilt(r, es)
  {
    if e :| e in es[1..] && e !in r.0 { assert e in es; }
  }

  lemma OnceOnly(es: seq<Entry>)
    requires Sorted(es) && es != []
    ensures es[0] !in es[1..]
  {
    if es[0] in es[1..] {
      var j :| 1 <= j < |es| && es[j] == es[0];
      assert CmpEntry(es[0], es[j]) < 0;
      Cmp0TotalPreorder(es[0].key, es[0].key, es[0].key);
    }
  }

  /** A store whose keys are non-empty, shorter than 1024, of the key alphabet and not begun by '#' comes
      back from its printed form exactly when every value is one that survives on its own: what one value
      forges never makes up for what it loses. */
  lemma StoreRoundTrip(es: seq<Entry>)
    requires Sorted(es) && Storable(es)
    ensures ReadAll(WriteAll(es), false, []) == (es, 0) <==> forall e :: e in es ==> ValueOk(e.val)
  {
    if AllOk(es) {
      GoodStoreSurvives(es);
    } else {
      SomeLost(es, "", []);
      assert "" + WriteAll(es) == WriteAll(es);
    }
  }
}
