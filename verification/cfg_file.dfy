/**
 The configuration file: the character-level parser, the printer, and what survives the trip.
 Functions on the text still to be read are the specification; Parser reads a stream in place.
 */
module CfgFile {
  import opened Prelude
  import opened CfgOrder
  import opened CfgStore

  const CW_CFG_MAX_KEY_LEN := 1024

  const BEL := '\U{7}'
  const VT := '\U{B}'
  const FF := '\U{C}'
  const KEY_BLANKS := [' ', '\t', '\n', BEL, VT]
  const BLANKS := [' ', '\t']
  const EOLS := ['\n', BEL]

  predicate IsSpace(c: char) { c in [' ', '\t', '\n', VT, FF, '\r'] }

  predicate IsAlnum(c: char) { 'a' <= c <= 'z' || 'A' <= c <= 'Z' || '0' <= c <= '9' }

  /** strchr(chars, c) != NULL: the terminating zero is found as well. */
  predicate In(c: char, chars: string) { c == '\0' || c in chars }

  predicate KeyMark(c: char)
  {
    c == '.' || c == '_' || c == '/' || c == '-' || c == '(' || c == ')' || c == '@' || c == '#' || c == '|'
    || c == '{' || c == '}' || c == '[' || c == ']' || c == '\\'
  }

  /** The characters read_key takes outside quotes. */
  predicate KeyChar(c: char) { IsAlnum(c) || KeyMark(c) || c == '\0' }

  // ----- what each reading function leaves unread -----

  /** The text from the first character outside `chars` on. */
  function SkipIn(s: string, chars: string): (r: string)
    ensures |r| <= |s| && (r != [] ==> !In(r[0], chars))
  {
    if s != [] && In(s[0], chars) then SkipIn(s[1..], chars) else s
  }

  /** The text from the first character of `chars` on. */
  function SkipTo(s: string, chars: string): (r: string)
    ensures |r| <= |s|
  {
    if s != [] && !In(s[0], chars) then SkipTo(s[1..], chars) else s
  }

  /** Where the next key begins: behind blanks, empty lines and comments. */
  function KeyStart(s: string): (r: string)
    ensures |r| <= |s|
    decreases |s|
  {
    var t := SkipIn(s, KEY_BLANKS);
    if t == [] || t[0] != '#' then t
    else
      var u := SkipTo(t[1..], EOLS);
      if u == [] then [] else KeyStart(u[1..])
  }

  /** get_char_q: the next character of a key, the unread text, and the quote flag. */
  function GetQ(s: string, quote: bool): (r: (Option<char>, string, bool))
    ensures |r.1| <= |s| && (r.0.Some? ==> |r.1| < |s|)
  {
    if s == [] then (None, [], quote)
    else if s[0] == '\n' then (Some('\n'), s[1..], quote)
    else if s[0] == '"' then GetQ(s[1..], !quote)
    else if !quote || s[0] != '\\' then (Some(s[0]), s[1..], quote)
    else var (c, rest) := Escape(s[1..]); (c, rest, quote)
  }

  /** What follows a backslash inside quotes. */
  function Escape(s: string): (Option<char>, string)
  {
    if s == [] then (None, [])
    else if s[0] == 'n' then (Some('\n'), s[1..])
    else if s[0] == '\\' || s[0] == '"' then (Some(s[0]), s[1..])
    else (Some('\\'), s)
  }

  /** The loop of read_key. */
  function KeyChars(s: string, quote: bool, max: nat): (r: (string, string, bool))
    ensures |r.0| + |r.1| <= |s|
    decreases |s|
  {
    var (c, rest, q) := GetQ(s, quote);
    if c == None || max == 0 then ([], rest, q)
    else if !q && !KeyChar(c.value) then ([], [c.value] + rest, q)
    else var t := KeyChars(rest, q, max - 1); ([c.value] + t.0, t.1, t.2)
  }

  function Key(s: string, quote: bool): (r: (string, string, bool))
    ensures |r.0| + |r.1| <= |s|
  {
    KeyChars(KeyStart(s), quote, CW_CFG_MAX_KEY_LEN)
  }

  /** The loop of read_val, begun on its first character. */
  function ValChars(s: string, quote: bool, max: nat): (r: (string, string))
    ensures |r.1| <= |s|
    decreases |s|
  {
    if s == [] then ([], [])
    else if max == 0 || (quote && s[0] == '"') || s[0] == '\n' then ([], s[1..])
    else if quote && s[0] == '\\' then
      var (c, rest) := Escape(s[1..]);
      var t := ValChars(rest, quote, max - 1);
      ([if c.Some? then c.value else '\\'] + t.0, t.1)
    else var t := ValChars(s[1..], quote, max - 1); ([s[0]] + t.0, t.1)
  }

  function TrimRight(v: string): string
  {
    if v != [] && IsSpace(v[|v| - 1]) then TrimRight(v[..|v| - 1]) else v
  }

  /** read_val: no value without a colon. */
  function Val(s: string): (r: (Option<string>, string))
    ensures |r.1| <= |s|
  {
    var t := SkipIn(s, BLANKS);
    if t == [] then (None, [])
    else if t[0] == '\n' then (None, t)
    else if t[0] != ':' then (None, t[1..])
    else
      var u := SkipIn(t[1..], BLANKS);
      if u != [] && u[0] == '"' then
        var (v, rest) := ValChars(u[1..], true, CW_CFG_MAX_KEY_LEN); (Some(v), rest)
      else
        var (v, rest) := ValChars(u, false, CW_CFG_MAX_KEY_LEN); (Some(TrimRight(v)), rest)
  }

  /** A buffer read as a C string. */
  function CStr(s: string): string
  {
    if s == [] || s[0] == '\0' then [] else [s[0]] + CStr(s[1..])
  }

  /** cw_cfg_read_from_file: the entries after reading, and the number of errors. */
  function ReadAll(s: string, quote: bool, cfg: seq<Entry>): (seq<Entry>, nat)
    decreases |s|
  {
    var (key, s1, q) := Key(s, quote);
    if key == [] then (cfg, 0)
    else
      var (val, s2) := Val(s1);
      if val == None then (cfg, 1)
      else ReadAll(s2, q, SetEntry(cfg, Entry(CStr(key), CStr(val.value))))
  }

  predicate Spaced(v: string) { v != [] && (IsSpace(v[0]) || IsSpace(v[|v| - 1])) }

  /** What cw_cfg_write_to_file prints for a value. */
  function Printed(v: string): string { if Spaced(v) then "\"" + v + "\"" else v }

  function Line(e: Entry): string { e.key + ": " + Printed(e.val) + "\n" }

  function WriteAll(es: seq<Entry>): string
  {
    if es == [] then [] else Line(es[0]) + WriteAll(es[1..])
  }

  // ----- the parser on a stream -----

  class Parser {
    var rest: string
    var quote: bool

    constructor (text: string)
      ensures rest == text && !quote
    {
      rest, quote := text, false;
    }

    method GetChar() returns (c: Option<char>)
      modifies this`rest
      ensures if old(rest) == [] then c == None && rest == []
              else c == Some(old(rest)[0]) && rest == old(rest)[1..]
      ensures Unread(c, rest) == old(rest)
    {
      if rest == [] {
        return None;
      }
      c := Some(rest[0]);
      rest := rest[1..];
    }

    /** Pushing back the end of the file does nothing. */
    method UngetChar(c: Option<char>)
      modifies this`rest
      ensures rest == if c == None then old(rest) else [c.value] + old(rest)
    {
      if c.Some? {
        rest := [c.value] + rest;
      }
    }

    method GetCharQ() returns (c: Option<char>)
      modifies this
      ensures var g := GetQ(old(rest), old(quote)); c == g.0 && rest == g.1 && quote == g.2
    {
      while true
        invariant GetQ(rest, quote) == GetQ(old(rest), old(quote))
        decreases |rest|
      {
        c := GetChar();
        if c == None || c == Some('\n') {
          return;
        }
        if c != Some('"') {
          break;
        }
        quote := !quote;
      }
      if !quote || c != Some('\\') {
        return;
      }
      ghost var after := rest;
      c := GetChar();
      if c == Some('n') {
        c := Some('\n');
      } else if c.Some? && c != Some('\\') && c != Some('"') {
        UngetChar(c);
        assert rest == after;
        c := Some('\\');
      }
    }

    method SkipChars(chars: string) returns (c: Option<char>)
      modifies this`rest
      ensures var t := SkipIn(old(rest), chars);
              if t == [] then c == None && rest == [] else c == Some(t[0]) && rest == t[1..]
    {
      c := GetChar();
      while c.Some? && In(c.value, chars)
        invariant SkipIn(old(rest), chars) == if c == None then [] else SkipIn([c.value] + rest, chars)
        invariant c == None ==> rest == []
        decreases |rest|, if c.Some? then 1 else 0
      {
        c := GetChar();
      }
    }

    method SkipToChars(chars: string) returns (c: Option<char>)
      modifies this`rest
      ensures var t := SkipTo(old(rest), chars);
              if t == [] then c == None && rest == [] else c == Some(t[0]) && rest == t[1..]
    {
      c := GetChar();
      while c.Some? && !In(c.value, chars)
        invariant SkipTo(old(rest), chars) == if c == None then [] else SkipTo([c.value] + rest, chars)
        invariant c == None ==> rest == []
        decreases |rest|, if c.Some? then 1 else 0
      {
        c := GetChar();
      }
    }

    /** The first half of read_key: skip blanks, empty lines and comments. */
    method FindKey()
      modifies this`rest
      ensures rest == KeyStart(old(rest))
    {
      var c: Option<char> := None;
      while true
        invariant KeyStart(rest) == KeyStart(old(rest))
        decreases |rest|
      {
        c := SkipChars(KEY_BLANKS);
        if c != Some('#') {
          break;
        }
        c := SkipToChars(EOLS);
        if c == None {
          break;
        }
      }
      UngetChar(c);
    }

    method ReadKey(max: nat) returns (key: string)
      modifies this
      ensures (key, rest, quote) == KeyChars(KeyStart(old(rest)), old(quote), max)
    {
      FindKey();
      key := ReadKeyChars(max);
    }

    /** The second half of read_key: its loop. */
    method ReadKeyChars(max: nat) returns (key: string)
      modifies this
      ensures (key, rest, quote) == KeyChars(old(rest), old(quote), max)
    {
      ghost var s, q, left := rest, quote, max;  // before the character in c was read
      ghost var all := KeyChars(s, q, left);
      var c := GetCharQ();
      key := "";
      assert KeyJoins(key, s, q, left, all) by { assert key + all.0 == all.0; }
      while c.Some? && |key| < max
        invariant |key| <= max && left == max - |key|
        invariant var g := GetQ(s, q); c == g.0 && rest == g.1 && quote == g.2
        invariant KeyJoins(key, s, q, left, all)
        decreases max - |key|
      {
        if !quote && !KeyChar(c.value) {
          KeyCharsEnd(key, s, q, left, all);
          UngetChar(c);
          return;
        }
        KeyCharsStep(key, s, q, left, all);
        key := key + [c.value];
        s, q, left := rest, quote, left - 1;
        c := GetCharQ();
      }
      KeyCharsEnd(key, s, q, left, all);
    }

    method SkipToColon() returns (ok: bool)
      modifies this`rest
      ensures var t := SkipIn(old(rest), BLANKS);
              && ok == (t != [] && t[0] == ':')
              && rest == if t == [] then [] else if t[0] == '\n' then t else t[1..]
    {
      var c := SkipChars(BLANKS);
      if c != Some(':') {
        if c == Some('\n') {
          UngetChar(c);
        }
        return false;
      }
      return true;
    }

    /** The character a value gets for `c`, which was just read; backslashes count in quotes only. */
    method Unescape(c: char, quoted: bool) returns (x: char)
      modifies this`rest
      ensures (x, rest) == ValChar([c] + old(rest), quoted)
    {
      x := c;
      assert ([c] + rest)[1..] == rest;
      ghost var after := rest;
      if quoted && c == '\\' {
        var d := GetChar();
        if d == Some('n') {
          x := '\n';
        } else if d == Some('\\') || d == Some('"') {
          x := d.value;
        } else {
          UngetChar(d);
          assert rest == after;
        }
      }
    }

    /** The loop of read_val, with its first character already read. */
    method ReadValChars(c0: Option<char>, quoted: bool, max: nat) returns (v: string)
      requires c0 == None ==> rest == []
      modifies this`rest
      ensures (v, rest) == ValChars(Unread(c0, old(rest)), quoted, max)
    {
      var c := c0;
      v := "";
      ghost var s, left := Unread(c, rest), max;
      ghost var all := ValChars(s, quoted, left);
      assert ValJoins(v, s, quoted, left, all) by { assert v + all.0 == all.0; }
      while c.Some? && |v| < max
        invariant |v| <= max && left == max - |v| && (c == None ==> rest == [])
        invariant s == Unread(c, rest)
        invariant ValJoins(v, s, quoted, left, all)
        decreases max - |v|
      {
        if (quoted && c == Some('"')) || c == Some('\n') {
          break;
        }
        ValCharsStep(v, s, quoted, left, all);
        var x := Unescape(c.value, quoted);
        v := v + [x];
        s, left := rest, left - 1;
        c := GetChar();
      }
      ValCharsEnd(v, s, quoted, left, all);
    }

    method ReadVal() returns (val: Option<string>)
      modifies this`rest
      ensures (val, rest) == Val(old(rest))
    {
      var ok := SkipToColon();
      if !ok {
        return None;
      }
      var c := SkipChars(BLANKS);
      var quoted := c == Some('"');
      if quoted {
        c := GetChar();
      }
      var v := ReadValChars(c, quoted, CW_CFG_MAX_KEY_LEN);
      if !quoted {
        v := Trimmed(v);
      }
      val := Some(v);
    }

    static method Trimmed(raw: string) returns (v: string)
      ensures v == TrimRight(raw)
    {
      v := raw;
      while v != [] && IsSpace(v[|v| - 1])
        invariant TrimRight(v) == TrimRight(raw)
      {
        v := v[..|v| - 1];
      }
    }

    /** cw_cfg_read_line: -1 on an error, 1 at the end, 0 with a key and a value. */
    method ReadLine() returns (rc: int, key: string, val: string)
      modifies this
      ensures var k := Key(old(rest), old(quote));
              var v := Val(k.1);
              && quote == k.2
              && rc == (if k.0 == [] then 1 else if v.0 == None then -1 else 0)
              && rest == (if k.0 == [] then k.1 else v.1)
              && (rc == 0 ==> key == k.0 && val == v.0.value)
    {
      key := ReadKey(CW_CFG_MAX_KEY_LEN);
      val := "";
      if |key| == 0 {
        return 1, key, val;
      }
      var r := ReadVal();
      if r == None {
        return -1, key, val;
      }
      return 0, key, r.value;
    }
  }

  /** The unread text when `c` was just read from it. */
  function Unread(c: Option<char>, rest: string): string { if c == None then [] else [c.value] + rest }

  /** What the loop of read_val makes of the text `s`, and what is left of it. */
  function ValChar(s: string, quoted: bool): (char, string)
    requires s != []
  {
    if quoted && s[0] == '\\' then
      var (c, rest) := Escape(s[1..]); (if c.Some? then c.value else '\\', rest)
    else (s[0], s[1..])
  }

  /** With `v` read so far, ValChars makes `all` in the end. */
  ghost predicate ValJoins(v: string, s: string, quoted: bool, max: nat, all: (string, string))
  {
    var t := ValChars(s, quoted, max);
    v + t.0 == all.0 && t.1 == all.1
  }

  lemma ValCharsEnd(v: string, s: string, quoted: bool, max: nat, all: (string, string))
    requires ValJoins(v, s, quoted, max, all)
    requires s == [] || max == 0 || (quoted && s[0] == '"') || s[0] == '\n'
    ensures all == (v, if s == [] then [] else s[1..])
  {
    assert v + [] == v;
  }

  lemma ValCharsStep(v: string, s: string, quoted: bool, max: nat, all: (string, string))
    requires s != [] && max > 0 && !(quoted && s[0] == '"') && s[0] != '\n'
    requires ValJoins(v, s, quoted, max, all)
    ensures var (x, rest) := ValChar(s, quoted); ValJoins(v + [x], rest, quoted, max - 1, all)
  {
    var (x, rest) := ValChar(s, quoted);
    var t := ValChars(rest, quoted, max - 1);
    assert v + ([x] + t.0) == v + [x] + t.0;
  }

  /** With `key` read so far, KeyChars makes `all` in the end. */
  ghost predicate KeyJoins(key: string, s: string, q: bool, max: nat, all: (string, string, bool))
  {
    var t := KeyChars(s, q, max);
    key + t.0 == all.0 && t.1 == all.1 && t.2 == all.2
  }

  lemma KeyCharsStep(key: string, s: string, q: bool, max: nat, all: (string, string, bool))
    requires max > 0 && KeyJoins(key, s, q, max, all)
    requires var g := GetQ(s, q); g.0.Some? && (g.2 || KeyChar(g.0.value))
    ensures var g := GetQ(s, q); KeyJoins(key + [g.0.value], g.1, g.2, max - 1, all)
  {
    var g := GetQ(s, q);
    var t := KeyChars(g.1, g.2, max - 1);
    assert key + ([g.0.value] + t.0) == key + [g.0.value] + t.0;
  }

  lemma KeyCharsEnd(key: string, s: string, q: bool, max: nat, all: (string, string, bool))
    requires KeyJoins(key, s, q, max, all)
    requires var g := GetQ(s, q); g.0 == None || max == 0 || (!g.2 && !KeyChar(g.0.value))
    ensures var g := GetQ(s, q);
            all == (key, if g.0 == None || max == 0 then g.1 else [g.0.value] + g.1, g.2)
  {
    assert key + [] == key;
  }

  // ----- the buffers -----

  /** The key as long as the text makes it, without a limit. */
  function LongKey(s: string, quote: bool): string { KeyChars(s, quote, |s|).0 }

  lemma {:induction false} KeyIsCut(s: string, quote: bool, max: nat, more: nat)
    requires more >= max && more >= |s|
    ensures var k := KeyChars(s, quote, more).0; KeyChars(s, quote, max).0 == k[..Min(max, |k|)]
    decreases |s|
  {
    var (c, rest, q) := GetQ(s, quote);
    if c.Some? && max > 0 && (q || KeyChar(c.value)) {
      KeyIsCut(rest, q, max - 1, more - 1);
    }
  }

  /** The buffer for a key has 1024 bytes, and the zero that ends the key goes behind its last character:
      it stays inside exactly when the text has a key of less than 1024 characters there, and is never
      more than one byte behind. */
  lemma KeyEndsInBuffer(s: string, quote: bool)
    ensures var k := Key(s, quote).0;
            && |k| <= CW_CFG_MAX_KEY_LEN
            && (|k| < CW_CFG_MAX_KEY_LEN <==> |LongKey(KeyStart(s), quote)| < CW_CFG_MAX_KEY_LEN)
  {
    var t := KeyStart(s);
    var more := if |t| < CW_CFG_MAX_KEY_LEN then CW_CFG_MAX_KEY_LEN else |t|;
    KeyIsCut(t, quote, |t|, more);
    KeyIsCut(t, quote, CW_CFG_MAX_KEY_LEN, more);
  }

  lemma {:induction false} ValCharsCut(s: string, quote: bool, max: nat)
    ensures |ValChars(s, quote, max).0| <= max
    decreases |s|
  {
    if s != [] && max > 0 && !(quote && s[0] == '"') && s[0] != '\n' {
      if quote && s[0] == '\\' {
        ValCharsCut(Escape(s[1..]).1, quote, max - 1);
      } else {
        ValCharsCut(s[1..], quote, max - 1);
      }
    }
  }

  /** The buffer for a value, of 2048 bytes, always has room for the loop that reads one. */
  lemma ValueEndsInBuffer(s: string, quote: bool)
    ensures |ValChars(s, quote, CW_CFG_MAX_KEY_LEN).0| < 2048
  {
    ValCharsCut(s, quote, CW_CFG_MAX_KEY_LEN);
  }

  method ReadFromFile(text: string, cfg: Cfg) returns (errs: nat)
    requires Sorted(cfg.entries)
    modifies cfg
    ensures Sorted(cfg.entries)
    ensures (cfg.entries, errs) == ReadAll(text, false, old(cfg.entries))
  {
    var p := new Parser(text);
    errs := 0;
    var rc := 0;
    ghost var all := ReadAll(text, false, cfg.entries);
    while rc == 0
      invariant Sorted(cfg.entries)
      invariant rc == 0 ==> errs == 0 && all == ReadAll(p.rest, p.quote, cfg.entries)
      invariant rc != 0 ==> all.0 == cfg.entries && all.1 == errs
      decreases rc == 0, |p.rest|
    {
      rc := ReadEntry(p, cfg);
      if rc == -1 {
        errs := errs + 1;
      }
    }
  }

  /** One round of the loop of cw_cfg_read_from_file. */
  method ReadEntry(p: Parser, cfg: Cfg) returns (rc: int)
    requires Sorted(cfg.entries)
    modifies cfg, p
    ensures Sorted(cfg.entries)
    ensures var all := ReadAll(old(p.rest), old(p.quote), old(cfg.entries));
            if rc == 0 then all == ReadAll(p.rest, p.quote, cfg.entries) && |p.rest| < |old(p.rest)|
            else (rc == 1 || rc == -1) && all.0 == cfg.entries && all.1 == (if rc == 1 then 0 else 1)
  {
    ReadAllStep(p.rest, p.quote, cfg.entries);
    var key, val;
    rc, key, val := p.ReadLine();
    if rc == 0 {
      var _ := cfg.Set(CStr(key), CStr(val));
    }
  }

  lemma ReadAllStep(s: string, q: bool, cfg: seq<Entry>)
    ensures var k := Key(s, q);
            var v := Val(k.1);
            ReadAll(s, q, cfg) ==
            if k.0 == [] then (cfg, 0)
            else if v.0 == None then (cfg, 1)
            else ReadAll(v.1, k.2, SetEntry(cfg, Entry(CStr(k.0), CStr(v.0.value))))
  {
  }

  method WriteToFile(cfg: Cfg) returns (text: string)
    ensures text == WriteAll(cfg.entries)
  {
    text := "";
    var i := 0;
    while i < |cfg.entries|
      invariant i <= |cfg.entries|
      invariant WriteAll(cfg.entries) == text + WriteAll(cfg.entries[i..])
    {
      var e := cfg.entries[i];
      var n := |e.val|;
      if n > 0 {
        n := n - 1;
      }
      var line;
      // the terminating zero of an empty value is no space
      if e.val != [] && (IsSpace(e.val[0]) || IsSpace(e.val[n])) {
        line := e.key + ": \"" + e.val + "\"\n";
      } else {
        line := e.key + ": " + e.val + "\n";
      }
      LineIs(e, line);
      WriteAllStep(cfg.entries, i, text);
      text := text + line;
      i := i + 1;
    }
  }

  lemma LineIs(e: Entry, line: string)
    requires line == if Spaced(e.val) then e.key + ": \"" + e.val + "\"\n" else e.key + ": " + e.val + "\n"
    ensures line == Line(e)
  {
    if Spaced(e.val) {
      assert ": \"" == ": " + "\"" && "\"\n" == "\"" + "\n";
      assert Line(e) == e.key + ": " + ("\"" + e.val + "\"") + "\n";
      assert line == Line(e);
    }
  }

  lemma WriteAllStep(es: seq<Entry>, i: nat, text: string)
    requires i < |es|
    ensures text + WriteAll(es[i..]) == text + Line(es[i]) + WriteAll(es[i + 1..])
  {
    assert es[i..][1..] == es[i + 1..];
    assert text + (Line(es[i]) + WriteAll(es[i + 1..])) == text + Line(es[i]) + WriteAll(es[i + 1..]);
  }
}
