/**
 Files written by hand: comments and empty lines, keys and values with quotes and escapes, blanks around
 the colon. The reader takes more than the printer prints; every store has a file that is read as it.
 */
module CfgText {
  import opened Prelude
  import opened CfgOrder
  import opened CfgStore
  import opened CfgFile
  import opened CfgRoundTrip
  import Mavl

  // ----- what stands between the lines -----

  /** A blank or the end of a line, or a comment up to the character that ends it. */
  datatype Filler = Blank(c: char) | Comment(text: string, end: char)

  predicate FillerOk(f: Filler)
  {
    match f
    case Blank(c) => c == ' ' || c == '\t' || c == '\n' || c == BEL || c == VT
    case Comment(text, end) =>
      (end == '\n' || end == BEL) && '\n' !in text && BEL !in text && '\0' !in text
  }

  function FillerText(f: Filler): string
  {
    match f
    case Blank(c) => [c]
    case Comment(text, end) => "#" + text + [end]
  }

  lemma {:induction false} SkipsTo(text: string, end: char, t: string)
    requires FillerOk(Comment(text, end))
    ensures SkipTo(text + [end] + t, EOLS) == [end] + t
  {
    var s := text + [end] + t;
    if text == [] {
      assert s == [end] + t;
    } else {
      assert s[0] == text[0] && s[1..] == text[1..] + [end] + t;
      assert text[0] in text && forall c :: c in text[1..] ==> c in text;
      SkipsTo(text[1..], end, t);
    }
  }

  lemma FillerSkipped(f: Filler, t: string)
    requires FillerOk(f)
    ensures KeyStart(FillerText(f) + t) == KeyStart(t)
  {
    var s := FillerText(f) + t;
    match f
    case Blank(c) =>
      assert s[0] == c && s[1..] == t && In(c, KEY_BLANKS);
      assert SkipIn(s, KEY_BLANKS) == SkipIn(t, KEY_BLANKS);
    case Comment(text, end) =>
      assert s[0] == '#' && s[1..] == text + [end] + t;
      assert SkipIn(s, KEY_BLANKS) == s;
      SkipsTo(text, end, t);
      assert ([end] + t)[1..] == t;
  }

  /** A blank, an empty line or a comment changes nothing, */
  lemma FillerChangesNothing(f: Filler, t: string, q: bool, cfg: seq<Entry>)
    requires FillerOk(f)
    ensures ReadAll(FillerText(f) + t, q, cfg) == ReadAll(t, q, cfg)
  {
    FillerSkipped(f, t);
    ReadAllStep(FillerText(f) + t, q, cfg);
    ReadAllStep(t, q, cfg);
  }

  /** and neither does a comment without an end at the end of the file. */
  lemma {:induction false} SkipsAll(text: string)
    requires '\n' !in text && BEL !in text && '\0' !in text
    ensures SkipTo(text, EOLS) == []
  {
    if text != [] {
      assert text[0] in text && forall c :: c in text[1..] ==> c in text;
      SkipsAll(text[1..]);
    }
  }

  lemma LastComment(text: string, q: bool, cfg: seq<Entry>)
    requires '\n' !in text && BEL !in text && '\0' !in text
    ensures ReadAll("#" + text, q, cfg) == (cfg, 0)
  {
    var s := "#" + text;
    assert s[0] == '#' && s[1..] == text && SkipIn(s, KEY_BLANKS) == s;
    SkipsAll(text);
    ReadAllStep(s, q, cfg);
  }

  // ----- keys -----

  /** A character as it is written inside quotes. */
  function Quoted1(c: char): string
  {
    if c == '\n' then "\\n" else if c == '\\' then "\\\\" else if c == '"' then "\\\"" else [c]
  }

  function Quoted(v: string): string { if v == [] then [] else Quoted1(v[0]) + Quoted(v[1..]) }

  /** The written text up to the closing quote, and `t` behind it. */
  function Closed(v: string, t: string): string { Quoted(v) + ("\"" + t) }

  lemma Join(a: string, b: string, t: string)
    ensures (a + b) + t == a + (b + t)
  {
  }

  lemma InQuoteMarks(v: string, t: string)
    ensures ("\"" + Quoted(v) + "\"") + t == "\"" + Closed(v, t)
  {
    var q, w := "\"", Quoted(v);
    Join(q + w, q, t);
    Join(q, w, q + t);
  }

  lemma ClosedFirst(v: string, t: string)
    requires v != []
    ensures Closed(v, t) == Quoted1(v[0]) + Closed(v[1..], t)
  {
    var a, b, c := Quoted1(v[0]), Quoted(v[1..]), "\"" + t;
    assert a + b + c == a + (b + c);
  }

  /** Inside quotes a character comes back from what is written for it. */
  lemma GetQuoted(c: char, t: string)
    ensures GetQ(Quoted1(c) + t, true) == (Some(c), t, true)
  {
    var s := Quoted1(c) + t;
    if c == '\n' || c == '\\' || c == '"' {
      var x := if c == '\n' then 'n' else c;
      assert s[0] == '\\' && s[1..] == [x] + t && ([x] + t)[1..] == t;
    } else {
      assert s[0] == c && s[1..] == t;
    }
  }

  /** What ends a key. */
  predicate EndsKey(r: string) { r == [] || (!KeyChar(r[0]) && r[0] != '"') }

  lemma KeyStops(r: string, max: nat)
    requires EndsKey(r) && max > 0
    ensures KeyChars(r, false, max) == ([], r, false) && KeyChars("\"" + r, true, max) == ([], r, false)
  {
    assert ("\"" + r)[0] == '"' && ("\"" + r)[1..] == r;
    assert GetQ("\"" + r, true) == GetQ(r, false);
    if r != [] {
      assert GetQ(r, false) == (Some(r[0]), r[1..], false) && [r[0]] + r[1..] == r;
    }
  }

  lemma {:induction false} QuotedKeyText(k: string, r: string, max: nat)
    requires EndsKey(r) && |k| < max
    ensures KeyChars(Closed(k, r), true, max) == (k, r, false)
    decreases |k|
  {
    if k == [] {
      assert Closed(k, r) == "\"" + r;
      KeyStops(r, max);
    } else {
      var rest := Closed(k[1..], r);
      ClosedFirst(k, r);
      GetQuoted(k[0], rest);
      QuotedKeyText(k[1..], r, max - 1);
      OneKeyChar(Closed(k, r), k[0], rest, max);
      assert k == [k[0]] + k[1..];
    }
  }

  lemma OneKeyChar(s: string, c: char, rest: string, max: nat)
    requires GetQ(s, true) == (Some(c), rest, true) && max > 0
    ensures var t := KeyChars(rest, true, max - 1); KeyChars(s, true, max) == ([c] + t.0, t.1, t.2)
  {
  }

  lemma {:induction false} PlainKeyText(k: string, r: string, max: nat)
    requires EndsKey(r) && |k| < max && forall i :: 0 <= i < |k| ==> KeyChar(k[i])
    ensures KeyChars(k + r, false, max) == (k, r, false)
    decreases |k|
  {
    if k == [] {
      assert k + r == r;
      KeyStops(r, max);
    } else {
      var s := k + r;
      assert s[0] == k[0] && KeyChar(k[0]) && s[1..] == k[1..] + r;
      assert GetQ(s, false) == (Some(k[0]), s[1..], false);
      PlainKeyText(k[1..], r, max - 1);
      assert k == [k[0]] + k[1..];
    }
  }

  /** A key as it may be written: as it is, or between quotes. */
  function KeyWritten(k: string, quoted: bool): string { if quoted then "\"" + Quoted(k) + "\"" else k }

  predicate KeyFits(k: string, quoted: bool)
  {
    && 0 < |k| < CW_CFG_MAX_KEY_LEN && '\0' !in k
    && (!quoted ==> k[0] != '#' && forall i :: 0 <= i < |k| ==> KeyChar(k[i]))
  }

  lemma QuotedKeyRead(k: string, r: string)
    requires EndsKey(r) && |k| < CW_CFG_MAX_KEY_LEN
    ensures Key("\"" + Closed(k, r), false) == (k, r, false)
  {
    var rest := Closed(k, r);
    var s := "\"" + rest;
    assert s[0] == '"' && s[1..] == rest;
    assert SkipIn(s, KEY_BLANKS) == s && KeyStart(s) == s;
    assert GetQ(s, false) == GetQ(rest, true);
    assert KeyChars(s, false, CW_CFG_MAX_KEY_LEN) == KeyChars(rest, true, CW_CFG_MAX_KEY_LEN);
    QuotedKeyText(k, r, CW_CFG_MAX_KEY_LEN);
  }

  lemma PlainKeyRead(k: string, r: string)
    requires EndsKey(r) && KeyFits(k, false)
    ensures Key(k + r, false) == (k, r, false)
  {
    var s := k + r;
    assert s[0] == k[0] && KeyChar(k[0]) && k[0] in k;
    assert SkipIn(s, KEY_BLANKS) == s && KeyStart(s) == s;
    PlainKeyText(k, r, CW_CFG_MAX_KEY_LEN);
  }

  lemma KeyRead(k: string, quoted: bool, r: string)
    requires KeyFits(k, quoted) && EndsKey(r)
    ensures Key(KeyWritten(k, quoted) + r, false) == (k, r, false)
  {
    if quoted {
      InQuoteMarks(k, r);
      QuotedKeyRead(k, r);
    } else {
      PlainKeyRead(k, r);
    }
  }

  // ----- values -----

  predicate AllBlanks(b: string) { forall c :: c in b ==> c == ' ' || c == '\t' }

  lemma {:induction false} BlanksSkipped(b: string, t: string)
    requires AllBlanks(b)
    ensures SkipIn(b + t, BLANKS) == SkipIn(t, BLANKS)
  {
    if b == [] {
      assert b + t == t;
    } else {
      var s := b + t;
      assert b[0] in b && forall c :: c in b[1..] ==> c in b;
      assert s[0] == b[0] && s[1..] == b[1..] + t;
      BlanksSkipped(b[1..], t);
    }
  }

  lemma {:induction false} QuotedValText(v: string, t: string, max: nat)
    requires |v| <= max
    ensures ValChars(Closed(v, t), true, max) == (v, t)
    decreases |v|
  {
    if v == [] {
      var s := "\"" + t;
      assert Closed(v, t) == s && s[0] == '"' && s[1..] == t;
    } else {
      ClosedFirst(v, t);
      ValOfQuoted(v[0], Closed(v[1..], t), max);
      QuotedValText(v[1..], t, max - 1);
      assert v == [v[0]] + v[1..];
    }
  }

  lemma ValOfQuoted(c: char, t: string, max: nat)
    requires max > 0
    ensures var r := ValChars(t, true, max - 1); ValChars(Quoted1(c) + t, true, max) == ([c] + r.0, r.1)
  {
    var s := Quoted1(c) + t;
    if c == '\n' || c == '\\' || c == '"' {
      var x := if c == '\n' then 'n' else c;
      assert s[0] == '\\' && s[1..] == [x] + t && ([x] + t)[1..] == t;
      assert Escape(s[1..]) == (Some(c), t);
    } else {
      assert s[0] == c && s[1..] == t;
    }
  }

  /** White space that can stand behind a value on its line. */
  predicate Trailing(b: string) { forall c :: c in b ==> IsSpace(c) && c != '\n' }

  lemma {:induction false} TrailingTrimmed(v: string, b: string)
    requires Trailing(b) && (v == [] || !IsSpace(v[|v| - 1]))
    ensures TrimRight(v + b) == v
    decreases |b|
  {
    if b == [] {
      assert v + b == v;
    } else {
      var s := v + b;
      assert b[|b| - 1] in b && forall c :: c in b[..|b| - 1] ==> c in b;
      assert s[|s| - 1] == b[|b| - 1] && s[..|s| - 1] == v + b[..|b| - 1];
      TrailingTrimmed(v, b[..|b| - 1]);
    }
  }

  /** A value as it may be written: between quotes, or as it is with white space behind it. */
  function ValWritten(v: string, quoted: bool, behind: string): string
  {
    if quoted then "\"" + Quoted(v) + "\"" else v + behind + "\n"
  }

  predicate ValFits(v: string, quoted: bool, behind: string)
  {
    && '\0' !in v
    && if quoted then |v| <= CW_CFG_MAX_KEY_LEN
       else
         && |v| + |behind| <= CW_CFG_MAX_KEY_LEN && '\n' !in v && Trailing(behind)
         && (v != [] ==> v[0] != ' ' && v[0] != '\t' && v[0] != '"' && !IsSpace(v[|v| - 1]))
         && (v == [] && behind != [] ==> behind[0] != ' ' && behind[0] != '\t')
  }

  lemma PlainValRead(v: string, behind: string, t: string)
    requires ValFits(v, false, behind)
    ensures var s := v + behind + "\n" + t;
            SkipIn(s, BLANKS) == s && s[0] != '"' && ValChars(s, false, CW_CFG_MAX_KEY_LEN) == (v + behind, t)
  {
    var s := v + behind + "\n" + t;
    assert '\n' !in v + behind;
    PlainText(v + behind, t, CW_CFG_MAX_KEY_LEN);
    if v != [] {
      assert s[0] == v[0] && v[0] in v;
    } else if behind != [] {
      assert s[0] == behind[0] && behind[0] in behind;
    } else {
      assert s[0] == '\n';
    }
  }

  lemma QuotedValRead(v: string, t: string)
    requires |v| <= CW_CFG_MAX_KEY_LEN
    ensures var s := "\"" + Closed(v, t);
            SkipIn(s, BLANKS) == s && s[0] == '"' && ValChars(s[1..], true, CW_CFG_MAX_KEY_LEN) == (v, t)
  {
    var s := "\"" + Closed(v, t);
    assert s[0] == '"' && s[1..] == Closed(v, t);
    QuotedValText(v, t, CW_CFG_MAX_KEY_LEN);
  }

  /** What the reader makes of a value behind its colon and the blanks there. */
  lemma WrittenRead(b2: string, v: string, quoted: bool, behind: string, t: string)
    requires AllBlanks(b2) && ValFits(v, quoted, behind)
    ensures var u := SkipIn(b2 + (ValWritten(v, quoted, behind) + t), BLANKS);
            if quoted then u != [] && u[0] == '"' && ValChars(u[1..], true, CW_CFG_MAX_KEY_LEN) == (v, t)
            else u != [] && u[0] != '"' && ValChars(u, false, CW_CFG_MAX_KEY_LEN) == (v + behind, t)
  {
    BlanksSkipped(b2, ValWritten(v, quoted, behind) + t);
    if quoted {
      InQuoteMarks(v, t);
      QuotedValRead(v, t);
    } else {
      PlainValRead(v, behind, t);
    }
  }

  lemma ValRead(b1: string, b2: string, v: string, quoted: bool, behind: string, t: string)
    requires AllBlanks(b1) && AllBlanks(b2) && ValFits(v, quoted, behind)
    ensures Val(b1 + (":" + (b2 + (ValWritten(v, quoted, behind) + t)))) == (Some(v), t)
  {
    var w := b2 + (ValWritten(v, quoted, behind) + t);
    var tail := ":" + w;
    BlanksSkipped(b1, tail);
    assert tail[0] == ':' && tail[1..] == w && SkipIn(tail, BLANKS) == tail;
    WrittenRead(b2, v, quoted, behind, t);
    if !quoted { TrailingTrimmed(v, behind); }
  }

  // ----- lines and files -----

  /** One entry as it may be written. */
  datatype Line = Line(key: string, quotedKey: bool, b1: string, b2: string, val: string, quotedVal: bool,
                       behind: string)

  predicate LineFits(l: Line)
  {
    KeyFits(l.key, l.quotedKey) && AllBlanks(l.b1) && AllBlanks(l.b2) && ValFits(l.val, l.quotedVal, l.behind)
  }

  function LineText(l: Line): string
  {
    KeyWritten(l.key, l.quotedKey) + (l.b1 + (":" + (l.b2 + ValWritten(l.val, l.quotedVal, l.behind))))
  }

  /** It sets exactly its entry. */
  lemma LineSets(l: Line, t: string, cfg: seq<Entry>)
    requires LineFits(l)
    ensures ReadAll(LineText(l) + t, false, cfg) == ReadAll(t, false, SetEntry(cfg, Entry(l.key, l.val)))
  {
    var r := l.b1 + (":" + (l.b2 + (ValWritten(l.val, l.quotedVal, l.behind) + t)));
    LineSplits(l, t);
    assert EndsKey(r) by {
      if l.b1 != [] { assert r[0] == l.b1[0] && l.b1[0] in l.b1; } else { assert r[0] == ':'; }
    }
    KeyRead(l.key, l.quotedKey, r);
    ValRead(l.b1, l.b2, l.val, l.quotedVal, l.behind, t);
    CStrWhole(l.key);
    CStrWhole(l.val);
    ReadAllStep(LineText(l) + t, false, cfg);
  }

  lemma LineSplits(l: Line, t: string)
    ensures LineText(l) + t == KeyWritten(l.key, l.quotedKey)
                               + (l.b1 + (":" + (l.b2 + (ValWritten(l.val, l.quotedVal, l.behind) + t))))
  {
    var k, w := KeyWritten(l.key, l.quotedKey), ValWritten(l.val, l.quotedVal, l.behind);
    Join(k, l.b1 + (":" + (l.b2 + w)), t);
    Join(l.b1, ":" + (l.b2 + w), t);
    Join(":", l.b2 + w, t);
    Join(l.b2, w, t);
  }

  /** What a file can consist of: filler, lines written by hand, and lines as they are printed. */
  datatype Part = Fill(f: Filler) | Given(l: Line) | Print(e: Entry)

  ghost predicate PartOk(p: Part)
  {
    match p
    case Fill(f) => FillerOk(f)
    case Given(l) => LineFits(l)
    case Print(e) => EntryOk(e)
  }

  function PartText(p: Part): string
  {
    match p
    case Fill(f) => FillerText(f)
    case Given(l) => LineText(l)
    case Print(e) => CfgFile.Line(e)
  }

  function FileText(ps: seq<Part>): string { if ps == [] then [] else PartText(ps[0]) + FileText(ps[1..]) }

  /** The entries of a file, in order. */
  function Entries(ps: seq<Part>): seq<Entry>
  {
    if ps == [] then []
    else
      (match ps[0]
       case Fill(_) => []
       case Given(l) => [Entry(l.key, l.val)]
       case Print(e) => [e])
      + Entries(ps[1..])
  }

  function SetAll(cfg: seq<Entry>, es: seq<Entry>): seq<Entry>
    decreases |es|
  {
    if es == [] then cfg else SetAll(SetEntry(cfg, es[0]), es[1..])
  }

  lemma PrintSets(e: Entry, t: string, cfg: seq<Entry>)
    requires EntryOk(e)
    ensures ReadAll(CfgFile.Line(e) + t, false, cfg) == ReadAll(t, false, SetEntry(cfg, e))
  {
    var line := CfgFile.Line(e);
    LineRoundTrip(e, t, "", cfg);
    EmptyFront(line);
    FillerChangesNothing(Blank('\n'), t, false, SetEntry(cfg, e));
  }

  lemma EmptyFront(s: string)
    ensures "" + s == s
  {
  }

  lemma PartRead(p: Part, t: string, cfg: seq<Entry>)
    requires PartOk(p)
    ensures ReadAll(PartText(p) + t, false, cfg) == ReadAll(t, false, SetAll(cfg, Entries([p])))
  {
    assert [p][1..] == [] && Entries([]) == [];
    match p
    case Fill(f) => FillerChangesNothing(f, t, false, cfg);
    case Given(l) =>
      LineSets(l, t, cfg);
      assert Entries([p]) == [Entry(l.key, l.val)];
      OneSet(cfg, Entry(l.key, l.val));
    case Print(e) =>
      PrintSets(e, t, cfg);
      assert Entries([p]) == [e];
      OneSet(cfg, e);
  }

  lemma OneSet(cfg: seq<Entry>, e: Entry)
    ensures SetAll(cfg, [e]) == SetEntry(cfg, e)
  {
    assert [e][1..] == [];
  }

  lemma {:induction false} SetAllJoins(cfg: seq<Entry>, a: seq<Entry>, b: seq<Entry>)
    ensures SetAll(cfg, a + b) == SetAll(SetAll(cfg, a), b)
    decreases |a|
  {
    if a == [] {
      assert a + b == b;
    } else {
      assert (a + b)[1..] == a[1..] + b;
      SetAllJoins(SetEntry(cfg, a[0]), a[1..], b);
    }
  }

  /** Reading a file sets its entries, in their order, and goes on behind it. */
  lemma {:induction false} FileRead(ps: seq<Part>, t: string, cfg: seq<Entry>)
    requires forall p :: p in ps ==> PartOk(p)
    ensures ReadAll(FileText(ps) + t, false, cfg) == ReadAll(t, false, SetAll(cfg, Entries(ps)))
    decreases |ps|
  {
    if ps == [] {
      assert FileText(ps) + t == t;
    } else {
      var p, rest := ps[0], ps[1..];
      assert p in ps && forall x :: x in rest ==> x in ps;
      FirstPart(ps, t);
      PartRead(p, FileText(rest) + t, cfg);
      FileRead(rest, t, SetAll(cfg, Entries([p])));
      SetAllJoins(cfg, Entries([p]), Entries(rest));
    }
  }

  lemma FirstPart(ps: seq<Part>, t: string)
    requires ps != []
    ensures FileText(ps) + t == PartText(ps[0]) + (FileText(ps[1..]) + t)
    ensures Entries(ps) == Entries([ps[0]]) + Entries(ps[1..])
  {
    Join(PartText(ps[0]), FileText(ps[1..]), t);
    EntriesFirst(ps);
  }

  lemma EntriesFirst(ps: seq<Part>)
    requires ps != []
    ensures Entries(ps) == Entries([ps[0]]) + Entries(ps[1..])
  {
    assert [ps[0]][1..] == [] && Entries([ps[0]][1..]) == [];
  }

  lemma NothingMore(cfg: seq<Entry>)
    ensures ReadAll("", false, cfg) == (cfg, 0)
  {
    EndOfFile("", cfg);
  }

  lemma WholeFile(ps: seq<Part>, cfg: seq<Entry>)
    requires forall p :: p in ps ==> PartOk(p)
    ensures ReadAll(FileText(ps), false, cfg) == (SetAll(cfg, Entries(ps)), 0)
  {
    FileRead(ps, "", cfg);
    assert FileText(ps) + "" == FileText(ps);
    NothingMore(SetAll(cfg, Entries(ps)));
  }

  lemma {:induction false} SortedAppends(es: seq<Entry>, i: nat)
    requires Sorted(es) && i <= |es|
    ensures SetAll(es[..i], es[i..]) == es
    decreases |es| - i
  {
    if i == |es| {
      assert es[..i] == es && es[i..] == [];
    } else {
      assert es[i..][1..] == es[i + 1..];
      SetAppends(es, i);
      SortedAppends(es, i + 1);
    }
  }

  /** A file whose entries are those of a store, in order, is read as that store, whatever comments, empty
      lines, blanks and quotes it has. */
  lemma StoreFromFile(ps: seq<Part>, es: seq<Entry>)
    requires (forall p :: p in ps ==> PartOk(p)) && Sorted(es) && Entries(ps) == es
    ensures ReadAll(FileText(ps), false, []) == (es, 0)
  {
    WholeFile(ps, []);
    SortedAppends(es, 0);
    assert es[..0] == [] && es[0..] == es;
  }

  /** The lines that the printer writes for a store. */
  function Prints(es: seq<Entry>): seq<Part> { if es == [] then [] else [Print(es[0])] + Prints(es[1..]) }

  lemma {:induction false} PrintedFile(es: seq<Entry>)
    ensures FileText(Prints(es)) == WriteAll(es) && Entries(Prints(es)) == es
  {
    if es != [] {
      var p, rest := Print(es[0]), Prints(es[1..]);
      PrintedFile(es[1..]);
      assert ([p] + rest)[1..] == rest && [es[0]] + es[1..] == es;
      EntriesBehind(p, rest);
      assert [p][1..] == [] && Entries([p]) == [es[0]] + [];
    }
  }

  /** An entry in quotes. */
  function InQuotes1(e: Entry): Part { Given(Line(e.key, true, "", "", e.val, true, "")) }

  /** Every entry in quotes on a line of its own. */
  function InQuotes(es: seq<Entry>): seq<Part>
  {
    if es == [] then [] else [InQuotes1(es[0])] + ([Fill(Blank('\n'))] + InQuotes(es[1..]))
  }

  lemma EntriesBehind(p: Part, rest: seq<Part>)
    ensures Entries([p] + rest) == Entries([p]) + Entries(rest)
  {
    assert ([p] + rest)[1..] == rest;
    EntriesFirst([p] + rest);
  }

  lemma {:induction false} EntriesInQuotes(es: seq<Entry>)
    ensures Entries(InQuotes(es)) == es
  {
    if es != [] {
      var a, b, rest := InQuotes1(es[0]), Fill(Blank('\n')), InQuotes(es[1..]);
      EntriesInQuotes(es[1..]);
      EntriesBehind(b, rest);
      EntriesBehind(a, [b] + rest);
      assert [b][1..] == [] && Entries([b]) == [] && [] + es[1..] == es[1..];
      assert [a][1..] == [] && Entries([a]) == [es[0]] && [es[0]] + es[1..] == es;
    }
  }

  lemma {:induction false} InQuotesOk(es: seq<Entry>)
    requires forall e :: e in es ==> KeyFits(e.key, true) && ValFits(e.val, true, "")
    ensures forall p :: p in InQuotes(es) ==> PartOk(p)
  {
    if es != [] {
      assert es[0] in es && forall e :: e in es[1..] ==> e in es;
      InQuotesOk(es[1..]);
    }
  }

  /** So every store with keys of 1 to 1023 and values of up to 1024 characters has a file: what the printer
      cannot print the reader can read. */
  lemma EveryStoreHasAFile(es: seq<Entry>)
    requires Sorted(es)
    requires forall e :: e in es ==>
             0 < |e.key| < CW_CFG_MAX_KEY_LEN && |e.val| <= CW_CFG_MAX_KEY_LEN && '\0' !in e.key && '\0' !in e.val
    ensures ReadAll(FileText(InQuotes(es)), false, []) == (es, 0)
  {
    InQuotesOk(es);
    EntriesInQuotes(es);
    StoreFromFile(InQuotes(es), es);
  }

  // ----- errors -----

  /** A key without its colon is an error, at which reading stops: what was read before stays. */
  lemma ColonMissing(ps: seq<Part>, k: string, quoted: bool, b: string, x: string, cfg: seq<Entry>)
    requires (forall p :: p in ps ==> PartOk(p)) && KeyFits(k, quoted) && AllBlanks(b) && EndsKey(b + x)
    requires x == [] || (x[0] != ':' && x[0] != ' ' && x[0] != '\t' && x[0] != '\0')
    ensures ReadAll(FileText(ps) + (KeyWritten(k, quoted) + (b + x)), false, cfg) == (SetAll(cfg, Entries(ps)), 1)
  {
    var r, s := b + x, KeyWritten(k, quoted) + (b + x);
    FileRead(ps, s, cfg);
    KeyRead(k, quoted, r);
    BlanksSkipped(b, x);
    assert SkipIn(x, BLANKS) == x;
    ReadAllStep(s, false, SetAll(cfg, Entries(ps)));
  }
}
