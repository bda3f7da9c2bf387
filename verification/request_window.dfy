/**
 Control messages of one connection: the sequence number window, the cached response and the gate
 that says which message is accepted in which state (section 4.5.3 of RFC 5415).
 */
module RequestWindow {
  import opened Prelude

  const MSG_INVALID_IN_CURRENT_STATE := 18
  const MSG_UNRECOGNIZED := 19

  datatype Role = AC | WTP

  /** A state in which a message is allowed, and the state it leads to; 0 leads nowhere. */
  datatype Row = Row(state: nat, next: nat)

  datatype MsgData = MsgData(receiver: set<Role>, states: seq<Row>)

  datatype Config = Config(role: Role, strict: bool, table: map<uint32, MsgData>)

  /** What cw_get_msg_elems_len makes of the 16-bit length in the control header, which counts 3 bytes
      more. */
  type ElemsLen = x: int | -3 <= x < 0x1_0000 - 3

  /** A control message: `size` bytes from the control header on, `elemsLen` as the header claims. */
  datatype Msg = Msg(kind: uint32, seqnum: byte, elemsLen: ElemsLen, size: nat)

  /** What is decided elsewhere: module detection, the message's callback, composing the response. */
  datatype Env = Env(found: bool, callback: int, composed: bool)

  datatype Reply = Reply(kind: uint32, seqnum: byte, result: int)

  /** The fields of the connection that messages change. */
  datatype State = State(last: int, state: nat, prev: nat, detected: bool, resp: Reply)

  /** What the caller and the peer see: the return code, what is sent, whether the message got to
      process_elements, and how many bytes of elements were decoded. */
  datatype Outcome = Outcome(rc: int, sent: Option<Reply>, passed: bool, decoded: Option<int>)

  predicate Request(m: Msg) { m.kind % 2 == 1 }

  function ReplyTo(m: Msg, result: int): Reply { Reply((m.kind + 1) % 0x1_0000_0000, m.seqnum, result) }

  // ----- process_elements -----

  /** The first row for a state; the list ends at a row for state 0. */
  function FindRow(rows: seq<Row>, state: nat): Option<Row>
  {
    if rows == [] || rows[0].state == 0 then None
    else if rows[0].state == state then Some(rows[0])
    else FindRow(rows[1..], state)
  }

  datatype Verdict = Discard | Refuse(code: nat) | Take(next: nat)

  /** The gate: who may send which message in which state. */
  function Judge(cfg: Config, state: nat, m: Msg): Verdict
  {
    if m.kind !in cfg.table then if Request(m) then Refuse(MSG_UNRECOGNIZED) else Discard
    else if cfg.role !in cfg.table[m.kind].receiver then Discard
    else
      match FindRow(cfg.table[m.kind].states, state)
      case None => Refuse(MSG_INVALID_IN_CURRENT_STATE)
      case Some(row) => Take(row.next)
  }

  predicate LengthOk(cfg: Config, m: Msg) { cfg.strict ==> m.elemsLen == m.size - 8 }

  function Elements(cfg: Config, c: State, m: Msg, e: Env): (State, Outcome)
  {
    if !LengthOk(cfg, m) || (!c.detected && !e.found) then (c, Outcome(-1, None, true, None))
    else
      var d := c.(detected := true);
      match Judge(cfg, c.state, m)
      case Discard => (d, Outcome(-1, None, true, None))
      case Refuse(code) => (d.(resp := ReplyTo(m, code)), Outcome(-1, Some(ReplyTo(m, code)), true, None))
      case Take(next) =>
        var decoded := Some(Min(m.elemsLen, m.size - 8));
        if !Request(m) || e.callback < 0 then (d, Outcome(e.callback, None, true, decoded))
        else
          var r := ReplyTo(m, e.callback);
          if e.callback > 0 then (d.(resp := r), Outcome(e.callback, Some(r), true, decoded))
          else
            var moved := if next != 0 then d.(state := next, prev := d.state) else d;
            (moved.(resp := r), Outcome(0, if e.composed then Some(r) else None, true, decoded))
  }

  // ----- process_message -----

  /** The test on the 8-bit numbers as process_message makes it. */
  predicate Fresh(last: int, seqnum: byte)
  {
    var sd := seqnum - last;
    0 < sd < 128 || (sd < 0 && sd < -128) || last < 0
  }

  function Process(cfg: Config, c: State, m: Msg, e: Env): (State, Outcome)
  {
    if !Request(m) then Elements(cfg, c, m, e)
    else if Fresh(c.last, m.seqnum) then Elements(cfg, c.(last := m.seqnum), m, e)
    else if m.seqnum != c.last || (c.resp.kind - 1) % 0x1_0000_0000 != m.kind
    then (c, Outcome(-1, None, false, None))
    else (c, Outcome(-1, Some(c.resp), false, None))
  }

  /** The loop over the states of a message. */
  method FindState(rows: seq<Row>, state: nat) returns (ui: Option<Row>)
    ensures ui == FindRow(rows, state)
  {
    var i := 0;
    assert rows[0..] == rows;
    while i < |rows| && rows[i].state != 0
      invariant i <= |rows| && FindRow(rows[i..], state) == FindRow(rows, state)
    {
      if rows[i].state == state {
        return Some(rows[i]);
      }
      i := i + 1;
    }
    return None;
  }

  class Conn {
    const cfg: Config
    var lastSeqnumReceived: int
    var capwapState: nat
    var capwapPrevstate: nat
    var detected: bool
    var respBuffer: Reply
    /** Everything handed to conn_send_msg. */
    var sent: seq<Reply>

    ghost function Now(): State
      reads this
    {
      State(lastSeqnumReceived, capwapState, capwapPrevstate, detected, respBuffer)
    }

    constructor (cfg: Config, state: nat)
      ensures this.cfg == cfg && Now() == State(-1, state, 0, false, Reply(0, 0, 0)) && sent == []
    {
      this.cfg := cfg;
      lastSeqnumReceived, capwapState, capwapPrevstate := -1, state, 0;
      detected, respBuffer, sent := false, Reply(0, 0, 0), [];
    }

    method SendReply(m: Msg, result: int, composed: bool)
      modifies this
      ensures Now() == old(Now()).(resp := ReplyTo(m, result))
      ensures sent == if composed then old(sent) + [ReplyTo(m, result)] else old(sent)
    {
      respBuffer := ReplyTo(m, result);
      if composed {
        sent := sent + [respBuffer];
      }
    }

    method ProcessElements(m: Msg, e: Env) returns (rc: int, decoded: Option<int>)
      modifies this
      ensures var (now, out) := Elements(cfg, old(Now()), m, e);
              && Now() == now && rc == out.rc && decoded == out.decoded
              && sent == if out.sent.Some? then old(sent) + [out.sent.value] else old(sent)
    {
      var elemsLen: int := m.elemsLen;
      if m.size - 8 != elemsLen {
        if cfg.strict {
          return -1, None;
        }
        if elemsLen > m.size - 8 {
          elemsLen := m.size - 8;
        }
      }
      if !detected {
        if !e.found {
          return -1, None;
        }
        detected := true;
      }
      if m.kind !in cfg.table {
        if m.kind % 2 == 1 {
          SendReply(m, MSG_UNRECOGNIZED, true);
        }
        return -1, None;
      }
      var message := cfg.table[m.kind];
      if cfg.role !in message.receiver {
        return -1, None;
      }
      var row := FindState(message.states, capwapState);
      if row == None {
        SendReply(m, MSG_INVALID_IN_CURRENT_STATE, true);
        return -1, None;
      }
      decoded := Some(elemsLen);
      rc := e.callback;
      if m.kind % 2 == 1 {
        if rc > 0 {
          SendReply(m, rc, true);
        } else if rc == 0 {
          if row.value.next != 0 {
            capwapPrevstate := capwapState;
            capwapState := row.value.next;
          }
          SendReply(m, 0, e.composed);
        }
      }
    }

    method ProcessMessage(m: Msg, e: Env) returns (rc: int, passed: bool, decoded: Option<int>)
      modifies this
      ensures var (now, out) := Process(cfg, old(Now()), m, e);
              && Now() == now && rc == out.rc && passed == out.passed && decoded == out.decoded
              && sent == if out.sent.Some? then old(sent) + [out.sent.value] else old(sent)
    {
      if m.kind % 2 == 0 {
        rc, decoded := ProcessElements(m, e);
        return rc, true, decoded;
      }
      var s1 := lastSeqnumReceived;
      var sd := m.seqnum - s1;
      if (0 < sd && sd < 128) || (sd < 0 && sd < -128) || s1 < 0 {
        lastSeqnumReceived := m.seqnum;
        rc, decoded := ProcessElements(m, e);
        return rc, true, decoded;
      }
      if sd != 0 || (respBuffer.kind - 1) % 0x1_0000_0000 != m.kind {
        return -1, false, None;
      }
      sent := sent + [respBuffer];
      return -1, false, None;
    }
  }

  // ----- the window -----

  lemma DifferenceOf8Bits(n: nat, last: nat)
    ensures (n % 256 - last % 256) % 256 == (n - last) % 256
  {
    var q := n / 256 - last / 256;
    var d := n % 256 - last % 256;
    assert n - last == d + 256 * q;
    SameModulo(n - last, d, q);
  }

  lemma SameModulo(x: int, y: int, q: int)
    requires x == y + 256 * q
    ensures x % 256 == y % 256
  {
  }

  /** For a peer that numbers its requests 0, 1, 2, ... and cuts the numbers to 8 bits: accepted is
      what is 1 to 127 ahead of the last one accepted, modulo 256. */
  lemma FreshIsWindow(last: nat, n: nat)
    ensures Fresh(last % 256, n % 256) <==> 1 <= (n - last) % 256 <= 127
  {
    var d := n % 256 - last % 256;
    assert d % 256 == if d < 0 then d + 256 else d;
    DifferenceOf8Bits(n, last);
  }

  /** So within one cycle the test tells new from old exactly from 128 behind to 127 ahead. */
  lemma WindowWidth(last: nat, n: nat)
    requires -256 < n - last < 256
    ensures (Fresh(last % 256, n % 256) <==> n > last) <==> -128 <= n - last <= 127
  {
    FreshIsWindow(last, n);
    var d := n - last;
    assert d % 256 == if d < 0 then d + 256 else d;
  }

  /** A request with the number its sender gave it, before that was cut to 8 bits. */
  datatype Event = Event(n: nat, m: Msg, e: Env)

  ghost predicate Numbered(evs: seq<Event>)
  {
    forall ev :: ev in evs ==> Request(ev.m) && ev.m.seqnum == ev.n % 256
  }

  /** No request strays further from the newest one delivered before it than the window allows. */
  ghost predicate Near(evs: seq<Event>, newest: int)
  {
    evs != [] ==>
      && (newest < 0 || -128 <= evs[0].n - newest <= 127)
      && Near(evs[1..], if evs[0].n > newest then evs[0].n else newest)
  }

  /** What a receiver with unbounded numbers would process: every request newer than all before. */
  function Newer(evs: seq<Event>, newest: int): seq<nat>
  {
    if evs == [] then []
    else if evs[0].n > newest then [evs[0].n] + Newer(evs[1..], evs[0].n)
    else Newer(evs[1..], newest)
  }

  /** The connection after a run, and the requests that reached process_elements. */
  function Run(cfg: Config, c: State, evs: seq<Event>): (State, seq<nat>)
    decreases evs
  {
    if evs == [] then (c, [])
    else
      var (d, out) := Process(cfg, c, evs[0].m, evs[0].e);
      var (final, ns) := Run(cfg, d, evs[1..]);
      (final, if out.passed then [evs[0].n] + ns else ns)
  }

  ghost predicate Follows(c: State, newest: int)
  {
    if newest < 0 then c.last == -1 else c.last == newest % 256
  }

  lemma StepFollows(cfg: Config, c: State, ev: Event, newest: int)
    requires Request(ev.m) && ev.m.seqnum == ev.n % 256 && newest >= -1 && Follows(c, newest)
    requires newest < 0 || -128 <= ev.n - newest <= 127
    ensures var (d, out) := Process(cfg, c, ev.m, ev.e);
            && (out.passed <==> ev.n > newest)
            && Follows(d, if ev.n > newest then ev.n else newest)
  {
    if newest >= 0 {
      WindowWidth(newest, ev.n);
    }
  }

  /** Over a duplicating, reordering and losing channel within the window, exactly the requests newer
      than all before reach process_elements. */
  lemma {:induction false} RunIsNewer(cfg: Config, c: State, evs: seq<Event>, newest: int)
    requires Numbered(evs) && newest >= -1 && Follows(c, newest) && Near(evs, newest)
    ensures Run(cfg, c, evs).1 == Newer(evs, newest)
    decreases evs
  {
    if evs != [] {
      StepFollows(cfg, c, evs[0], newest);
      RunIsNewer(cfg, Process(cfg, c, evs[0].m, evs[0].e).0, evs[1..], if evs[0].n > newest then evs[0].n else newest);
    }
  }

  lemma {:induction false} NewerIncreases(evs: seq<Event>, newest: int, i: nat, j: nat)
    requires i < j < |Newer(evs, newest)|
    ensures newest < Newer(evs, newest)[i] < Newer(evs, newest)[j]
  {
    if evs[0].n > newest {
      var rest := Newer(evs[1..], evs[0].n);
      if i > 0 {
        NewerIncreases(evs[1..], evs[0].n, i - 1, j - 1);
      } else {
        NewerAbove(evs[1..], evs[0].n, j - 1);
      }
    } else {
      NewerIncreases(evs[1..], newest, i, j);
    }
  }

  lemma {:induction false} NewerAbove(evs: seq<Event>, newest: int, i: nat)
    requires i < |Newer(evs, newest)|
    ensures Newer(evs, newest)[i] > newest
  {
    if evs[0].n > newest {
      if i > 0 {
        NewerAbove(evs[1..], evs[0].n, i - 1);
      }
    } else {
      NewerAbove(evs[1..], newest, i);
    }
  }

  /** Every request is processed at most once, and in the order of the numbers. */
  lemma OnceAndInOrder(cfg: Config, c: State, evs: seq<Event>)
    requires Numbered(evs) && c.last == -1 && Near(evs, -1)
    ensures var ns := Run(cfg, c, evs).1; forall i, j :: 0 <= i < j < |ns| ==> ns[i] < ns[j]
  {
    RunIsNewer(cfg, c, evs, -1);
    var ns := Run(cfg, c, evs).1;
    forall i, j | 0 <= i < j < |ns| ensures ns[i] < ns[j] {
      NewerIncreases(evs, -1, i, j);
    }
  }

  // ----- the cached response -----

  /** Whether a message that reaches process_elements is answered. */
  predicate Answered(cfg: Config, c: State, m: Msg, e: Env)
  {
    && LengthOk(cfg, m) && (c.detected || e.found)
    && match Judge(cfg, c.state, m)
       case Discard => false
       case Refuse(_) => true
       case Take(_) => Request(m) && e.callback >= 0
  }

  /** A message that is answered leaves its own response in the cache, and no other message changes
      the cache. */
  lemma CacheHoldsTheAnswer(cfg: Config, c: State, m: Msg, e: Env)
    ensures var (d, out) := Process(cfg, c, m, e);
            && (out.passed && Answered(cfg, c, m, e) ==>
                d.resp == ReplyTo(m, d.resp.result) && (out.sent == None || out.sent == Some(d.resp)))
            && (!(out.passed && Answered(cfg, c, m, e)) ==> d.resp == c.resp)
  {
  }

  /** A request that comes twice in a row is not processed again. The response goes out once more if
      the request was answered. If it was not, then a response all the same goes out exactly when the
      cache holds one to an older request of the same type: only the type is compared. */
  lemma Retransmitted(cfg: Config, c: State, m: Msg, e: Env, again: Env)
    requires Request(m) && Fresh(c.last, m.seqnum)
    ensures var (d, first) := Process(cfg, c, m, e);
            var (d2, second) := Process(cfg, d, m, again);
            && d2 == d && !second.passed && second.rc == -1
            && (Answered(cfg, c, m, e) ==> second.sent == Some(ReplyTo(m, d.resp.result)))
            && (!Answered(cfg, c, m, e) ==>
                second.sent == if c.resp.kind == (m.kind + 1) % 0x1_0000_0000 then Some(c.resp) else None)
  {
    var d := Process(cfg, c, m, e).0;
    assert d.last == m.seqnum;
    CacheHoldsTheAnswer(cfg, c, m, e);
    SameKind(d.resp.kind, m.kind);
  }

  lemma SameKind(reply: uint32, kind: uint32)
    ensures (reply - 1) % 0x1_0000_0000 == kind <==> reply == (kind + 1) % 0x1_0000_0000
  {
  }

  /** A response message refused in the current state is answered too. That answer takes the place of
      the cached one, and the last request's retransmissions then stay unanswered. */
  lemma RefusedResponseClobbers(cfg: Config, c: State, m: Msg, r: Msg, e: Env, again: Env)
    requires Request(m) && c.last == m.seqnum && !Request(r) && r.kind in cfg.table
    requires Answered(cfg, c, r, e)
    ensures Process(cfg, Process(cfg, c, r, e).0, m, again).1.sent == None
  {
    CacheHoldsTheAnswer(cfg, c, r, e);
    var d := Process(cfg, c, r, e).0;
    SameKind(d.resp.kind, m.kind);
  }

  // ----- the cached response over a run -----

  /** The connection before the k-th message of a run. */
  function StateAt(cfg: Config, c: State, evs: seq<Event>, k: nat): State
    requires k <= |evs|
  {
    if k == 0 then c else Process(cfg, StateAt(cfg, c, evs, k - 1), evs[k - 1].m, evs[k - 1].e).0
  }

  function OutAt(cfg: Config, c: State, evs: seq<Event>, k: nat): Outcome
    requires k < |evs|
  {
    Process(cfg, StateAt(cfg, c, evs, k), evs[k].m, evs[k].e).1
  }

  /** The k-th request is processed, and answered. */
  predicate AnsweredAt(cfg: Config, c: State, evs: seq<Event>, k: nat)
    requires k < |evs|
  {
    OutAt(cfg, c, evs, k).passed && Answered(cfg, StateAt(cfg, c, evs, k), evs[k].m, evs[k].e)
  }

  /** The newest number before the k-th request. */
  function NewestAt(evs: seq<Event>, k: nat): int
    requires k <= |evs|
  {
    if k == 0 then -1
    else var newest := NewestAt(evs, k - 1); if evs[k - 1].n > newest then evs[k - 1].n else newest
  }

  lemma {:induction false} NearAt(evs: seq<Event>, k: nat)
    requires k <= |evs| && Near(evs, -1)
    ensures Near(evs[k..], NewestAt(evs, k)) && NewestAt(evs, k) >= -1
  {
    if k == 0 {
      assert evs[0..] == evs;
    } else {
      NearAt(evs, k - 1);
      assert evs[k - 1..][1..] == evs[k..];
    }
  }

  /** The number expected next, at any point of a run inside the window. */
  lemma {:induction false} FollowsAt(cfg: Config, c: State, evs: seq<Event>, k: nat)
    requires k <= |evs| && Numbered(evs) && Near(evs, -1) && c.last == -1
    ensures Follows(StateAt(cfg, c, evs, k), NewestAt(evs, k)) && NewestAt(evs, k) >= -1
    ensures k < |evs| ==> (OutAt(cfg, c, evs, k).passed <==> evs[k].n > NewestAt(evs, k))
    ensures k < |evs| && NewestAt(evs, k) >= 0 ==> -128 <= evs[k].n - NewestAt(evs, k) <= 127
  {
    NearAt(evs, k);
    if k > 0 {
      FollowsAt(cfg, c, evs, k - 1);
      assert evs[k - 1] in evs;
      StepFollows(cfg, StateAt(cfg, c, evs, k - 1), evs[k - 1], NewestAt(evs, k - 1));
    }
    if k < |evs| {
      assert evs[k] in evs && evs[k..][0] == evs[k];
      StepFollows(cfg, StateAt(cfg, c, evs, k), evs[k], NewestAt(evs, k));
    }
  }

  /** The cache belongs to the j-th request, the last one before the k-th that was answered. */
  ghost predicate Owns(cfg: Config, c: State, evs: seq<Event>, k: nat, j: nat)
    requires k <= |evs|
  {
    && j < k && AnsweredAt(cfg, c, evs, j) && (forall i :: j < i < k ==> !AnsweredAt(cfg, c, evs, i))
    && var d := StateAt(cfg, c, evs, k); d.resp == ReplyTo(evs[j].m, d.resp.result)
  }

  ghost predicate NoneAnswered(cfg: Config, c: State, evs: seq<Event>, k: nat)
    requires k <= |evs|
  {
    (forall i :: 0 <= i < k ==> !AnsweredAt(cfg, c, evs, i)) && StateAt(cfg, c, evs, k).resp == c.resp
  }

  lemma {:induction false} OwnerAt(cfg: Config, c: State, evs: seq<Event>, k: nat)
    requires k <= |evs|
    ensures NoneAnswered(cfg, c, evs, k) || exists j :: Owns(cfg, c, evs, k, j)
  {
    if k > 0 {
      var before := k - 1;
      OwnerAt(cfg, c, evs, before);
      CacheHoldsTheAnswer(cfg, StateAt(cfg, c, evs, before), evs[before].m, evs[before].e);
      if AnsweredAt(cfg, c, evs, before) {
        assert Owns(cfg, c, evs, k, before);
      } else if j :| Owns(cfg, c, evs, before, j) {
        assert Owns(cfg, c, evs, k, j);
      }
    }
  }

  /** No request that was processed has a number above the newest one, and of two the later one has the
      greater number. */
  lemma {:induction false} NewestBounds(cfg: Config, c: State, evs: seq<Event>, k: nat, i: nat)
    requires i < k <= |evs| && Numbered(evs) && Near(evs, -1) && c.last == -1
    ensures NewestAt(evs, k) >= evs[i].n && NewestAt(evs, k) >= NewestAt(evs, i)
    ensures k < |evs| && OutAt(cfg, c, evs, k).passed ==> evs[k].n > evs[i].n
    decreases k
  {
    if i < k - 1 { NewestBounds(cfg, c, evs, k - 1, i); }
    FollowsAt(cfg, c, evs, k);
  }

  /** Over a run inside the window, a request is answered out of the cache only if it repeats the newest
      one, and what it gets is the response to the last request that was answered before: its own exactly
      when it was itself answered. Where none was, it gets what the cache began with. */
  lemma RepeatsTheLastAnswer(cfg: Config, c: State, evs: seq<Event>, k: nat) returns (j: nat)
    requires k < |evs| && Numbered(evs) && Near(evs, -1) && c.last == -1
    requires !OutAt(cfg, c, evs, k).passed && OutAt(cfg, c, evs, k).sent.Some?
    ensures evs[k].n == NewestAt(evs, k)
    ensures var r := OutAt(cfg, c, evs, k).sent.value;
            if NoneAnswered(cfg, c, evs, k) then r == c.resp
            else
              && Owns(cfg, c, evs, k, j) && r == ReplyTo(evs[j].m, r.result)
              && (evs[j].n == evs[k].n <==>
                  exists i :: 0 <= i < k && AnsweredAt(cfg, c, evs, i) && evs[i].n == evs[k].n)
  {
    var d := StateAt(cfg, c, evs, k);
    FollowsAt(cfg, c, evs, k);
    OwnerAt(cfg, c, evs, k);
    assert evs[k] in evs && d.last == evs[k].m.seqnum && OutAt(cfg, c, evs, k).sent == Some(d.resp);
    SameNumber(evs[k].n, NewestAt(evs, k));
    j := 0;
    if !NoneAnswered(cfg, c, evs, k) {
      j :| Owns(cfg, c, evs, k, j);
      NewestBounds(cfg, c, evs, k, j);
      if i :| 0 <= i < k && AnsweredAt(cfg, c, evs, i) && evs[i].n == evs[k].n && i < j {
        NewestBounds(cfg, c, evs, j, i);
      }
    }
  }

  lemma SameNumber(n: int, newest: int)
    requires -128 <= n - newest <= 0 && n >= 0 && newest >= 0 && n % 256 == newest % 256
    ensures n == newest
  {
  }

  // ----- the gate -----

  /** A transition that the message table has for this role. */
  ghost predicate Edge(cfg: Config, a: nat, b: nat)
  {
    exists kind :: kind in cfg.table && HasEdge(cfg, kind, a, b)
  }

  ghost predicate HasEdge(cfg: Config, kind: uint32, a: nat, b: nat)
    requires kind in cfg.table
  {
    kind % 2 == 1 && cfg.role in cfg.table[kind].receiver && b != 0 && Row(a, b) in cfg.table[kind].states
  }

  lemma {:induction false} FoundRow(rows: seq<Row>, state: nat)
    ensures var r := FindRow(rows, state); r.Some? ==> r.value in rows && r.value.state == state != 0
  {
    if rows != [] && rows[0].state != 0 && rows[0].state != state {
      FoundRow(rows[1..], state);
    }
  }

  /** The state moves only along the table, to what an accepted and successful request leads to, and
      the state it leaves is remembered. */
  lemma MovesAlongTable(cfg: Config, c: State, m: Msg, e: Env)
    ensures var d := Process(cfg, c, m, e).0;
            && (d.state != c.state ==>
                Request(m) && e.callback == 0 && m.kind in cfg.table && HasEdge(cfg, m.kind, c.state, d.state))
            && (d.state != c.state ==> d.prev == c.state)
            && (d.prev != c.prev ==> d.prev == c.state)
  {
    if m.kind in cfg.table {
      FoundRow(cfg.table[m.kind].states, c.state);
    }
  }

  /** The first row for a state, before the one for state 0 that ends the list. */
  predicate FirstRow(rows: seq<Row>, state: nat, i: nat)
  {
    && i < |rows| && rows[i].state == state != 0
    && forall j :: 0 <= j < i ==> rows[j].state != 0 && rows[j].state != state
  }

  lemma {:induction false} FindRowExact(rows: seq<Row>, state: nat)
    ensures forall i: nat :: FirstRow(rows, state, i) ==> FindRow(rows, state) == Some(rows[i])
    ensures FindRow(rows, state).Some? ==> exists i: nat :: FirstRow(rows, state, i)
  {
    if rows != [] && rows[0].state != 0 && rows[0].state != state {
      var rest := rows[1..];
      FindRowExact(rest, state);
      forall i: nat | FirstRow(rows, state, i) ensures FindRow(rows, state) == Some(rows[i]) {
        assert FirstRow(rest, state, i - 1);
      }
      if FindRow(rows, state).Some? {
        var i: nat :| FirstRow(rest, state, i);
        assert FirstRow(rows, state, i + 1);
      }
    } else if rows != [] && rows[0].state != 0 {
      assert FirstRow(rows, state, 0);
    }
  }

  /** The header fits, in strict mode, and the module is known. */
  predicate Heard(cfg: Config, c: State, m: Msg, e: Env)
  {
    (cfg.strict ==> m.elemsLen == m.size - 8) && (c.detected || e.found)
  }

  /** A request that is accepted, by the i-th row of its message. */
  predicate Accepted(cfg: Config, c: State, m: Msg, e: Env, i: nat)
  {
    && m.kind % 2 == 1 && Fresh(c.last, m.seqnum) && Heard(cfg, c, m, e)
    && m.kind in cfg.table && cfg.role in cfg.table[m.kind].receiver
    && FirstRow(cfg.table[m.kind].states, c.state, i)
  }

  /** An accepted request whose callback succeeds moves the connection to the state that its row names,
      if it names one, and leaves the old state as the previous one. Nothing else moves it. */
  lemma StateAfter(cfg: Config, c: State, m: Msg, e: Env)
    ensures var d := Process(cfg, c, m, e).0;
            && (forall i: nat :: Accepted(cfg, c, m, e, i) && e.callback == 0
                                 && cfg.table[m.kind].states[i].next != 0 ==>
                  d.state == cfg.table[m.kind].states[i].next && d.prev == c.state)
            && ((forall i: nat :: !(Accepted(cfg, c, m, e, i) && e.callback == 0
                                    && cfg.table[m.kind].states[i].next != 0)) ==>
                d.state == c.state && d.prev == c.prev)
  {
    if m.kind in cfg.table {
      FindRowExact(cfg.table[m.kind].states, c.state);
    }
  }

  /** What a message that reaches process_elements is answered with, and whether its elements are decoded:
      case by case. */
  lemma AnswerOf(cfg: Config, c: State, m: Msg, e: Env)
    requires m.kind % 2 == 0 || Fresh(c.last, m.seqnum)
    ensures var (d, out) := Process(cfg, c, m, e);
            var reply := (code: int) => Reply((m.kind + 1) % 0x1_0000_0000, m.seqnum, code);
            && out.passed && d.last == (if m.kind % 2 == 1 then m.seqnum else c.last)
            && if !Heard(cfg, c, m, e) then
                 d.resp == c.resp && d.detected == c.detected && (out.rc, out.sent, out.decoded) == (-1, None, None)
               else
                 && d.detected
                 && if m.kind !in cfg.table then
                      (out.rc, out.sent, out.decoded) == (-1, if m.kind % 2 == 1 then Some(reply(19)) else None, None)
                    else if cfg.role !in cfg.table[m.kind].receiver then
                      (out.rc, out.sent, out.decoded) == (-1, None, None)
                    else if forall i: nat :: !FirstRow(cfg.table[m.kind].states, c.state, i) then
                      (out.rc, out.sent, out.decoded) == (-1, Some(reply(18)), None)
                    else
                      && out.decoded == Some(if m.elemsLen < m.size - 8 then m.elemsLen else m.size - 8)
                      && out.rc == e.callback
                      && out.sent == if m.kind % 2 == 1 && (e.callback > 0 || (e.callback == 0 && e.composed))
                                     then Some(reply(e.callback)) else None
  {
    if m.kind in cfg.table {
      FindRowExact(cfg.table[m.kind].states, c.state);
    }
  }

  /** A request that is meant for this role, has its first row for `state` at `i`, which names `next`, and
      succeeds. */
  predicate GoesOn(cfg: Config, ev: Event, state: nat, next: nat, i: nat)
  {
    && ev.m.kind in cfg.table && cfg.role in cfg.table[ev.m.kind].receiver
    && FirstRow(cfg.table[ev.m.kind].states, state, i)
    && cfg.table[ev.m.kind].states[i].next == next != 0
    && (cfg.strict ==> ev.m.elemsLen == ev.m.size - 8) && ev.e.callback == 0 && ev.e.found
  }

  /** The requests of a peer that goes along the table, from each of these states to the next. */
  ghost predicate Orderly(cfg: Config, evs: seq<Event>, states: seq<nat>, i: seq<nat>)
  {
    && |states| == |evs| + 1 && |i| == |evs|
    && forall k :: 0 <= k < |evs| ==> GoesOn(cfg, evs[k], states[k], states[k + 1], i[k])
  }

  /** Each number is ahead of the one before, and by less than the window. */
  ghost predicate Ahead(evs: seq<Event>, newest: int)
  {
    evs != [] ==>
      evs[0].n > newest && (newest >= 0 ==> evs[0].n - newest <= 127) && Ahead(evs[1..], evs[0].n)
  }

  /** Such a peer takes the connection through exactly the states that the rows name. */
  lemma {:induction false} OrderlyRunArrives(cfg: Config, c: State, evs: seq<Event>, states: seq<nat>, i: seq<nat>,
                                             newest: int)
    requires Numbered(evs) && Ahead(evs, newest) && newest >= -1 && Follows(c, newest)
    requires Orderly(cfg, evs, states, i) && states[0] == c.state
    ensures Trace(cfg, c, evs) == states
    decreases |evs|
  {
    if evs == [] {
      assert states == [c.state];
    } else {
      var ev := evs[0];
      var d := Process(cfg, c, ev.m, ev.e).0;
      assert ev in evs && forall x :: x in evs[1..] ==> x in evs;
      StepFollows(cfg, c, ev, newest);
      assert GoesOn(cfg, ev, states[0], states[1], i[0]);
      assert Accepted(cfg, c, ev.m, ev.e, i[0]);
      StateAfter(cfg, c, ev.m, ev.e);
      OrderlyLater(cfg, evs, states, i);
      OrderlyRunArrives(cfg, d, evs[1..], states[1..], i[1..], ev.n);
      assert states == [states[0]] + states[1..];
    }
  }

  lemma OrderlyLater(cfg: Config, evs: seq<Event>, states: seq<nat>, i: seq<nat>)
    requires Orderly(cfg, evs, states, i) && evs != []
    ensures Orderly(cfg, evs[1..], states[1..], i[1..])
  {
    forall k | 0 <= k < |evs| - 1 ensures GoesOn(cfg, evs[1..][k], states[1..][k], states[1..][k + 1], i[1..][k]) {
      assert GoesOn(cfg, evs[k + 1], states[k + 1], states[k + 2], i[k + 1]);
    }
  }

  /** The states a run goes through. */
  function Trace(cfg: Config, c: State, evs: seq<Event>): (states: seq<nat>)
    ensures |states| == |evs| + 1
    decreases evs
  {
    if evs == [] then [c.state] else [c.state] + Trace(cfg, Process(cfg, c, evs[0].m, evs[0].e).0, evs[1..])
  }

  lemma {:induction false} RunStaysInTable(cfg: Config, c: State, evs: seq<Event>, i: nat)
    requires i < |evs|
    ensures var t := Trace(cfg, c, evs); t[i] == t[i + 1] || Edge(cfg, t[i], t[i + 1])
    decreases evs
  {
    var d := Process(cfg, c, evs[0].m, evs[0].e).0;
    if i > 0 {
      RunStaysInTable(cfg, d, evs[1..], i - 1);
    } else {
      MovesAlongTable(cfg, c, evs[0].m, evs[0].e);
      assert Trace(cfg, d, evs[1..])[0] == d.state;
    }
  }

  /** The length handed to the walk over the elements is never more than the packet has, and the walk is
      never begun in a message that the gate keeps out. How far the walk then reads is its own matter. */
  lemma WalkGetsThePacketLength(cfg: Config, c: State, m: Msg, e: Env)
    ensures var out := Process(cfg, c, m, e).1;
            && (out.decoded.Some? ==>
                && out.decoded.value <= m.size - 8 && out.decoded.value <= m.elemsLen
                && (cfg.strict ==> out.decoded.value == m.elemsLen)
                && m.kind in cfg.table && cfg.role in cfg.table[m.kind].receiver
                && exists row :: row in cfg.table[m.kind].states && row.state == c.state)
  {
    if m.kind in cfg.table {
      FoundRow(cfg.table[m.kind].states, c.state);
    }
  }
}
