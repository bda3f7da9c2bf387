/**
 What the check for missing mandatory elements is worth: it counts keys, not elements, and a key counts
 as found before its element is taken.
 */
module ElementsMandatory {
  import opened Prelude
  import opened Elements
  import opened ElementsRoundTrip
  import opened ElementsSeen

  /** cw_check_missing_mand: the mandatory keys not found, in their order. */
  function Missing(mandKeys: seq<string>, found: set<string>): seq<string>
  {
    if mandKeys == [] then []
    else (if mandKeys[0] in found then [] else [mandKeys[0]]) + Missing(mandKeys[1..], found)
  }

  method CheckMissingMand(mandKeys: seq<string>, found: set<string>) returns (count: nat)
    ensures count == |Missing(mandKeys, found)|
    ensures count == 0 <==> forall k :: k in mandKeys ==> k in found
  {
    var missing: seq<string> := [];
    var i := 0;
    assert mandKeys[0..] == mandKeys;
    while i < |mandKeys|
      invariant i <= |mandKeys| && |missing| + |Missing(mandKeys[i..], found)| == |Missing(mandKeys, found)|
    {
      assert mandKeys[i..][1..] == mandKeys[i + 1..];
      if mandKeys[i] !in found {
        missing := missing + [mandKeys[i]];
      }
      i := i + 1;
    }
    count := |missing|;
    NoneMissing(mandKeys, found);
  }

  lemma {:induction false} InMissing(mandKeys: seq<string>, found: set<string>, k: string)
    ensures k in Missing(mandKeys, found) <==> k in mandKeys && k !in found
  {
    if mandKeys != [] {
      InMissing(mandKeys[1..], found, k);
      assert k in mandKeys <==> k == mandKeys[0] || k in mandKeys[1..];
    }
  }

  lemma NoneMissing(mandKeys: seq<string>, found: set<string>)
    ensures |Missing(mandKeys, found)| == 0 <==> forall k :: k in mandKeys ==> k in found
  {
    var missing := Missing(mandKeys, found);
    forall k ensures k in missing <==> k in mandKeys && k !in found {
      InMissing(mandKeys, found, k);
    }
    if missing != [] {
      assert missing[0] in missing;
    }
  }

  // ----- after a round trip -----

  /** A mandatory element of the message, with a handler to give it a key. */
  predicate Mandatory(s: Sender, list: seq<Item>, it: Item) { it in list && it.mand && it.at in s.t }

  /** The keys that the message definition keeps for its mandatory elements. */
  ghost predicate KeysOf(s: Sender, list: seq<Item>, mandKeys: seq<string>)
  {
    forall k :: k in mandKeys <==> exists it :: Mandatory(s, list, it) && KeyOf(s, it) == k
  }

  /** Some mandatory element with the key of this one was sent. */
  ghost predicate KeySent(s: Sender, list: seq<Item>, it: Item)
    requires it.at in s.t
  {
    exists o :: Mandatory(s, list, o) && Goes(s, o) && KeyOf(s, o) == KeyOf(s, it)
  }

  /** The mandatory keys that a receiver has seen who takes all of an encoded message. */
  function SeenMand(s: Sender, allowed: map<Id, bool>, mem: Memory, at: nat, list: seq<Item>): set<string>
  {
    DecodeAll(s.t, allowed, mem, at, at + |Encoded(s, list)|, NOTHING).mand
  }

  lemma SeenMandIsSent(s: Sender, allowed: map<Id, bool>, mem: Memory, at: nat, list: seq<Item>, it: Item)
    requires AllFit(s, list) && AllAccepted(s, allowed, list) && Holds(mem, at, Encoded(s, list)) && it.at in s.t
    ensures KeyOf(s, it) in SeenMand(s, allowed, mem, at, list) <==> KeySent(s, list, it)
  {
    RoundTrip(s, allowed, mem, at, list);
    if KeyOf(s, it) in MandSent(s, list) {
      var o :| o in list && o.mand && Goes(s, o) && KeyOf(s, o) == KeyOf(s, it);
      assert Mandatory(s, list, o);
    }
  }

  /** After a round trip nothing is reported missing exactly when for every mandatory element one with
      the same key was sent, be it itself or another. */
  lemma NoneMissingExactly(s: Sender, allowed: map<Id, bool>, mem: Memory, at: nat, list: seq<Item>,
                           mandKeys: seq<string>)
    requires AllFit(s, list) && AllAccepted(s, allowed, list) && Holds(mem, at, Encoded(s, list))
    requires KeysOf(s, list, mandKeys)
    ensures |Missing(mandKeys, SeenMand(s, allowed, mem, at, list))| == 0 <==>
            forall it :: Mandatory(s, list, it) ==> KeySent(s, list, it)
  {
    var found := SeenMand(s, allowed, mem, at, list);
    NoneMissing(mandKeys, found);
    forall it | Mandatory(s, list, it) ensures KeyOf(s, it) in found <==> KeySent(s, list, it) {
      SeenMandIsSent(s, allowed, mem, at, list, it);
    }
    forall it | Mandatory(s, list, it) ensures KeyOf(s, it) in mandKeys {
    }
  }

  /** A mandatory element that was not sent goes unreported exactly when it shares its key with one
      that was. */
  lemma UnsentUnreported(s: Sender, allowed: map<Id, bool>, mem: Memory, at: nat, list: seq<Item>,
                         mandKeys: seq<string>, it: Item)
    requires AllFit(s, list) && AllAccepted(s, allowed, list) && Holds(mem, at, Encoded(s, list))
    requires KeysOf(s, list, mandKeys) && Mandatory(s, list, it) && !Goes(s, it)
    ensures KeyOf(s, it) !in Missing(mandKeys, SeenMand(s, allowed, mem, at, list)) <==>
            exists o :: Mandatory(s, list, o) && o != it && Goes(s, o) && KeyOf(s, o) == KeyOf(s, it)
  {
    SeenMandIsSent(s, allowed, mem, at, list, it);
    InMissing(mandKeys, SeenMand(s, allowed, mem, at, list), KeyOf(s, it));
    assert KeyOf(s, it) in mandKeys;
  }

  // ----- over any bytes -----

  /** An element that decoding comes to, on its own or in a vendor specific payload. */
  datatype Visit = Visit(at: Id, data: seq<byte>)

  function Visits(t: Table, allowed: map<Id, bool>, at: Id, data: seq<byte>): seq<Visit>
    decreases |data|
  {
    [Visit(at, data)] +
    if Known(t, allowed, at) && LengthOk(t[at], |data|) && t[at].get == VendorPayload && |data| >= 6 && Inner(data) in t
    then Visits(t, allowed, Inner(data), data[6..])
    else []
  }

  function AllVisits(t: Table, allowed: map<Id, bool>, es: seq<Elem>): seq<Visit>
  {
    if es == [] then [] else Visits(t, allowed, Id(0, es[0].id), es[0].data) + AllVisits(t, allowed, es[1..])
  }

  /** A mandatory element with this key that is not too short. */
  predicate Marks(t: Table, allowed: map<Id, bool>, v: Visit, key: string)
  {
    Known(t, allowed, v.at) && allowed[v.at] && t[v.at].key == key && t[v.at].minLen <= |v.data|
  }

  /** An element with this key whose value is taken. */
  predicate Takes(t: Table, allowed: map<Id, bool>, v: Visit, key: string)
  {
    Known(t, allowed, v.at) && t[v.at].key == key && t[v.at].get == Generic && LengthOk(t[v.at], |v.data|)
  }

  ghost predicate SomeMarks(t: Table, allowed: map<Id, bool>, vs: seq<Visit>, key: string)
  {
    exists v :: v in vs && Marks(t, allowed, v, key)
  }

  ghost predicate SomeTakes(t: Table, allowed: map<Id, bool>, vs: seq<Visit>, key: string)
  {
    exists v :: v in vs && Takes(t, allowed, v, key)
  }

  /** What the visits add for one key, and that a value is one that was taken. */
  ghost predicate Adds(t: Table, allowed: map<Id, bool>, vs: seq<Visit>, key: string, d: Found, r: Found)
  {
    && (key in r.mand <==> key in d.mand || SomeMarks(t, allowed, vs, key))
    && (key in r.cfg <==> key in d.cfg || SomeTakes(t, allowed, vs, key))
    && (SomeTakes(t, allowed, vs, key) ==>
        exists v :: v in vs && Takes(t, allowed, v, key) && key in r.cfg && r.cfg[key] == v.data)
  }

  lemma AddsJoin(t: Table, allowed: map<Id, bool>, a: seq<Visit>, b: seq<Visit>, key: string, d: Found, m: Found,
                 r: Found)
    requires Adds(t, allowed, a, key, d, m) && Adds(t, allowed, b, key, m, r)
    requires !SomeTakes(t, allowed, b, key) && key in m.cfg ==> key in r.cfg && r.cfg[key] == m.cfg[key]
    ensures Adds(t, allowed, a + b, key, d, r)
  {
    assert forall v :: v in a + b <==> v in a || v in b;
    assert SomeMarks(t, allowed, a + b, key) <==> SomeMarks(t, allowed, a, key) || SomeMarks(t, allowed, b, key);
    assert SomeTakes(t, allowed, a + b, key) <==> SomeTakes(t, allowed, a, key) || SomeTakes(t, allowed, b, key);
  }

  lemma {:induction false} TreatAdds(t: Table, allowed: map<Id, bool>, at: Id, data: seq<byte>, key: string, d: Found)
    ensures var vs, r := Visits(t, allowed, at, data), Treat(t, allowed, at, data, d).0;
            && Adds(t, allowed, vs, key, d, r)
            && (!SomeTakes(t, allowed, vs, key) && key in d.cfg ==> key in r.cfg && r.cfg[key] == d.cfg[key])
    decreases |data|
  {
    var v := Visit(at, data);
    var inside := Visits(t, allowed, at, data)[1..];
    var m := if inside == [] then Treat(t, allowed, at, data, d).0 else Marked(t, allowed, at, d);
    OneAdds(t, allowed, at, data, key, d, m);
    if inside != [] {
      TreatAdds(t, allowed, Inner(data), data[6..], key, m);
      AddsJoin(t, allowed, [v], inside, key, d, m, Treat(t, allowed, at, data, d).0);
    }
    assert Visits(t, allowed, at, data) == [v] + inside;
  }

  lemma OneAdds(t: Table, allowed: map<Id, bool>, at: Id, data: seq<byte>, key: string, d: Found, m: Found)
    requires m == if |Visits(t, allowed, at, data)| == 1 then Treat(t, allowed, at, data, d).0
                  else Marked(t, allowed, at, d)
    ensures Adds(t, allowed, [Visit(at, data)], key, d, m)
    ensures !SomeTakes(t, allowed, [Visit(at, data)], key) && key in d.cfg ==>
            key in m.cfg && m.cfg[key] == d.cfg[key]
  {
    var v := Visit(at, data);
    assert v in [v];
    assert SomeMarks(t, allowed, [v], key) <==> Marks(t, allowed, v, key);
    assert SomeTakes(t, allowed, [v], key) <==> Takes(t, allowed, v, key);
  }

  lemma {:induction false} TreatAllAdds(t: Table, allowed: map<Id, bool>, es: seq<Elem>, i: nat, key: string, d: Found)
    ensures var vs, r := AllVisits(t, allowed, es), TreatAll(t, allowed, es, i, d);
            && Adds(t, allowed, vs, key, d, r)
            && (!SomeTakes(t, allowed, vs, key) && key in d.cfg ==> key in r.cfg && r.cfg[key] == d.cfg[key])
    decreases |es|
  {
    if es != [] {
      var e, rest := es[0], AllVisits(t, allowed, es[1..]);
      var vs, m := Visits(t, allowed, Id(0, e.id), e.data), TreatAt(t, allowed, e, i, d);
      TreatAdds(t, allowed, Id(0, e.id), e.data, key, d);
      TreatAllAdds(t, allowed, es[1..], i + 4 + |e.data|, key, m);
      AddsJoin(t, allowed, vs, rest, key, d, m, TreatAll(t, allowed, es, i, d));
      assert SomeTakes(t, allowed, vs + rest, key) <==>
             SomeTakes(t, allowed, vs, key) || SomeTakes(t, allowed, rest, key);
    }
  }

  /** What decoding any bytes whatever comes to, and finds. */
  function VisitsIn(t: Table, allowed: map<Id, bool>, mem: Memory, at: nat, end: int): seq<Visit>
  {
    AllVisits(t, allowed, Seen(mem, at, end))
  }

  lemma DecodeAdds(t: Table, allowed: map<Id, bool>, mem: Memory, at: nat, end: int, key: string)
    ensures Adds(t, allowed, VisitsIn(t, allowed, mem, at, end), key, NOTHING,
                 DecodeAll(t, allowed, mem, at, end, NOTHING))
  {
    DecodeTreatsSeen(t, allowed, mem, at, end, NOTHING);
    TreatAllAdds(t, allowed, Seen(mem, at, end), at, key, NOTHING);
  }

  /** A mandatory key counts as found without a value exactly when a mandatory element with this key is
      not too short, and none with this key is taken. */
  lemma FoundWithoutValue(t: Table, allowed: map<Id, bool>, mem: Memory, at: nat, end: int, key: string)
    ensures var r, vs := DecodeAll(t, allowed, mem, at, end, NOTHING), VisitsIn(t, allowed, mem, at, end);
            key in r.mand && key !in r.cfg <==>
            SomeMarks(t, allowed, vs, key) && !SomeTakes(t, allowed, vs, key)
  {
    DecodeAdds(t, allowed, mem, at, end, key);
  }

  /** So nothing is reported missing although a mandatory key has no value exactly when each mandatory
      key has such an element, and one of the keys has none that is taken. */
  lemma NoneMissingWithoutValue(t: Table, allowed: map<Id, bool>, mem: Memory, at: nat, end: int,
                                mandKeys: seq<string>)
    ensures var r, vs := DecodeAll(t, allowed, mem, at, end, NOTHING), VisitsIn(t, allowed, mem, at, end);
            |Missing(mandKeys, r.mand)| == 0 && (exists k :: k in mandKeys && k !in r.cfg) <==>
            && (forall k :: k in mandKeys ==> SomeMarks(t, allowed, vs, k))
            && exists k :: k in mandKeys && !SomeTakes(t, allowed, vs, k)
  {
    var r, vs := DecodeAll(t, allowed, mem, at, end, NOTHING), VisitsIn(t, allowed, mem, at, end);
    NoneMissing(mandKeys, r.mand);
    forall k ensures (k in r.mand <==> SomeMarks(t, allowed, vs, k)) && (k in r.cfg <==> SomeTakes(t, allowed, vs, k)) {
      DecodeAdds(t, allowed, mem, at, end, k);
    }
  }

  /** An AC name of more than 512 bytes: nothing is reported missing, and there is no name. */
  lemma LongNameIsFound(mem: Memory, at: nat, name: seq<byte>)
    requires 512 < |name| < 0x1_0000 && Holds(mem, at, Put(Elem(4, name)))
    ensures var acName := Id(0, 4);
            var t := map[acName := Handler("capwap/ac-name", 1, 512, Generic, true)];
            var r := DecodeAll(t, map[acName := true], mem, at, at + 4 + |name|, NOTHING);
            |Missing(["capwap/ac-name"], r.mand)| == 0 && r.cfg == map[]
  {
    var es := [Elem(4, name)];
    assert Bytes(es) == Put(es[0]) + Bytes(es[1..]) == Put(es[0]);
    WalkInvertsPut(mem, at, es);
    var t := map[Id(0, 4) := Handler("capwap/ac-name", 1, 512, Generic, true)];
    DecodeTreatsSeen(t, map[Id(0, 4) := true], mem, at, at + 4 + |name|, NOTHING);
    assert TreatAll(t, map[Id(0, 4) := true], es, at, NOTHING) == Found(map[], {"capwap/ac-name"}, []);
    NoneMissing(["capwap/ac-name"], {"capwap/ac-name"});
  }
}
