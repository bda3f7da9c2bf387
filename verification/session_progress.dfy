/** How a session goes on: what a round of waiting comes to, when a started timer runs out, and the way of an
    orderly WTP through the access controller's table. */
module SessionProgress {
  import opened Prelude
  import opened StateTable
  import opened AcStates
  import opened Session
  import opened SessionRuns

  // ----- one round of waiting -----

  /** Reading is tried in time and fails for now. */
  predicate TriesAgain(k: Tick, timer: int) { k.clock <= timer && k.rc < 0 && k.again }

  /** The first `n` ticks are such, and the one behind them, if there is one, is too late or decides. */
  ghost predicate WaitsFor(ticks: seq<Tick>, timer: int, n: nat)
  {
    && n <= |ticks| && (forall j :: 0 <= j < n ==> TriesAgain(ticks[j], timer))
    && (n < |ticks| ==> !TriesAgain(ticks[n], timer))
  }

  /** Waiting ends with the first tick that decides, and only a message that succeeds moves the session;
      or it ends when the timer has run out, and then the last failure is what is left. */
  lemma {:induction false} WaitExact(c: Conn, ticks: seq<Tick>, n: nat)
    requires WaitsFor(ticks, c.timer, n)
    ensures Wait(c, ticks) ==
            if n < |ticks| && ticks[n].clock <= c.timer then
              var k := ticks[n];
              Conn(if k.rc == 0 && k.next != 0 then Pair(c.at.state, k.next) else c.at, c.timer, k.rc)
            else Conn(c.at, c.timer, if n == 0 then c.rc else ticks[n - 1].rc)
    decreases n
  {
    if n > 0 {
      assert TriesAgain(ticks[0], c.timer);
      var rest := ticks[1..];
      forall j | 0 <= j < n - 1 ensures TriesAgain(rest[j], c.timer) {
        assert TriesAgain(ticks[j + 1], c.timer);
      }
      WaitExact(Conn(c.at, c.timer, ticks[0].rc), rest, n - 1);
    }
  }

  /** A round that ends in an error, be it "try again" or not, times out, and so does one that reads nothing
      behind such a round; any other leaves the session where its message put it. */
  lemma RoundEnds(c: Conn, ticks: seq<Tick>, n: nat)
    requires WaitsFor(ticks, c.timer, n)
    ensures var d := AfterWait(Wait(c, ticks));
            && d.timer == c.timer
            && if n < |ticks| && ticks[n].clock <= c.timer then
                 var k := ticks[n];
                 && d.rc == k.rc
                 && d.at == if k.rc < 0 then Pair(c.at.state, TIMEOUT)
                            else if k.rc == 0 && k.next != 0 then Pair(c.at.state, k.next)
                            else c.at
               else d.at == if n > 0 || c.rc < 0 then Pair(c.at.state, TIMEOUT) else c.at
  {
    WaitExact(c, ticks, n);
    if n > 0 {
      assert TriesAgain(ticks[n - 1], c.timer);
    }
  }

  // ----- timers -----

  /** What the configuration says, or else the row. */
  function Seconds(cfg: map<string, nat>, key: string, default: nat): nat
  {
    if key in cfg then cfg[key] else default
  }

  /** Reading is tried within the seconds of a timer that is started with the round. */
  predicate InSeconds(cfg: map<string, nat>, key: string, default: nat, r: Round)
  {
    r.ticks != [] && r.ticks[0].clock <= r.clock + Seconds(cfg, key, default)
  }

  /** Behind a row with a timer that lets the session go on, the session of a silent peer ends exactly when in
      some round but the last one reading was tried before the seconds of that timer were over, or had failed
      before. */
  lemma TimedEndsExactly(t: seq<Row>, rank: Pair -> nat, cfg: map<string, nat>, c: Conn, rounds: seq<Round>,
                         key: string, default: nat)
    requires Ranked(t, rank) && TimeoutsEnd(t) && Live(t, c.at) && !Jumps(t, c.at) && Silent(rounds)
    requires Find(t, c.at).value.timerKey == Some(key) && Find(t, c.at).value.timerDefault == default
    ensures Run(t, rank, cfg, c, rounds).1 <==>
            exists i :: 0 <= i < |rounds| - 1 && (c.rc < 0 || InSeconds(cfg, key, default, rounds[i]))
  {
    SilentRunExact(t, rank, cfg, c, rounds);
    forall i | 0 <= i < |rounds| - 1
      ensures Noticed(t, cfg, c, c.at, rounds[i]) <==> c.rc < 0 || InSeconds(cfg, key, default, rounds[i])
    {
    }
  }

  lemma RowOfRun(discovery: bool, vendor: bool)
    ensures var t, p := AcTable(discovery, vendor), Pair(RUN, RUN);
            && Ranked(t, Rank) && TimeoutsEnd(t) && Live(t, p) && !Jumps(t, p)
            && Find(t, p).value.timerKey == Some("capwap-timers/echo-interval") && Find(t, p).value.timerDefault == 30
  {
    AcRanked(discovery, vendor);
    AcTableOnlyListed(discovery, vendor);
    AcTableIs(discovery, vendor, RUN, RUN);
  }

  /** So a WTP in RUN that falls silent is given up after the echo interval, 30 seconds where nothing else is
      configured, unless the access controller never gets to read in that time. */
  lemma RunEndsExactly(discovery: bool, vendor: bool, cfg: map<string, nat>, timer: int, rounds: seq<Round>)
    requires Silent(rounds)
    ensures AcRun(discovery, vendor, cfg, Conn(Pair(RUN, RUN), timer, 0), rounds).1 <==>
            exists i :: 0 <= i < |rounds| - 1 && InSeconds(cfg, "capwap-timers/echo-interval", 30, rounds[i])
  {
    RowOfRun(discovery, vendor);
    TimedEndsExactly(AcTable(discovery, vendor), Rank, cfg, Conn(Pair(RUN, RUN), timer, 0), rounds,
                     "capwap-timers/echo-interval", 30);
  }

  // ----- an orderly WTP -----

  /** A message that succeeds and leads to `next` is read before `limit`. */
  ghost predicate Brings(r: Round, limit: int, next: nat)
  {
    exists n: nat :: WaitsFor(r.ticks, limit, n) && n < |r.ticks| && r.ticks[n].clock <= limit
                     && r.ticks[n].rc == 0 && r.ticks[n].next == next != 0
  }

  /** Such a round moves the session on. */
  lemma OneStep(t: seq<Row>, rank: Pair -> nat, cfg: map<string, nat>, c: Conn, rounds: seq<Round>, limit: int,
                next: nat)
    requires Ranked(t, rank) && rounds != []
    requires var p := Last(Machine(t, rank, c.at));
             && Retval(t, p) != 0 && limit == Started(t, cfg, c, p, rounds[0].clock).timer
             && Brings(rounds[0], limit, next)
    ensures var m := Machine(t, rank, c.at);
            var (v, ended) := Run(t, rank, cfg, Conn(Pair(Last(m).state, next), limit, 0), rounds[1..]);
            Run(t, rank, cfg, c, rounds) == (m + v, ended)
  {
    var p := Last(Machine(t, rank, c.at));
    var n: nat :| WaitsFor(rounds[0].ticks, limit, n) && n < |rounds[0].ticks| && rounds[0].ticks[n].clock <= limit
                  && rounds[0].ticks[n].rc == 0 && rounds[0].ticks[n].next == next != 0;
    RoundEnds(Started(t, cfg, c, p, rounds[0].clock), rounds[0].ticks, n);
  }

  lemma OneRound(t: seq<Row>, rank: Pair -> nat, cfg: map<string, nat>, c: Conn, rounds: seq<Round>)
    requires Ranked(t, rank) && |rounds| == 1 && Retval(t, Last(Machine(t, rank, c.at))) != 0
    ensures Run(t, rank, cfg, c, rounds) == (Machine(t, rank, c.at), false)
  {
    var m := Machine(t, rank, c.at);
    assert m + [] == m;
  }

  lemma AcRow(discovery: bool, vendor: bool, p: Pair)
    requires Listed(p)
    ensures Find(AcTable(discovery, vendor), p) == RowFor(vendor, p.prev, p.state)
  {
    AcTableIs(discovery, vendor, p.prev, p.state);
  }

  lemma AcJumps(discovery: bool, vendor: bool, p: Pair)
    requires Listed(p)
    ensures var t := AcTable(discovery, vendor);
            && (Jumps(t, p) <==> vendor && p == Pair(CONFIGURE, DATA_CHECK)) && Retval(t, p) == 1
            && (Jumps(t, p) ==> Target(Find(t, p).value) == Pair(DATA_CHECK, RUN))
  {
    AcRow(discovery, vendor, p);
  }

  /** Where the machine stops. */
  function Stops(vendor: bool, p: Pair): Pair
  {
    if vendor && p == Pair(CONFIGURE, DATA_CHECK) then Pair(DATA_CHECK, RUN) else p
  }

  lemma AcMachine(discovery: bool, vendor: bool, p: Pair)
    requires Listed(p)
    ensures var t := AcTable(discovery, vendor);
            && Ranked(t, Rank) && Last(Machine(t, Rank, p)) == Stops(vendor, p)
            && Machine(t, Rank, p) == (if Stops(vendor, p) == p then [p] else [p, Stops(vendor, p)])
            && Retval(t, Stops(vendor, p)) == 1
  {
    var t, q := AcTable(discovery, vendor), Stops(vendor, p);
    AcRanked(discovery, vendor);
    AcJumps(discovery, vendor, p);
    AcJumps(discovery, vendor, q);
    MachineUnfolds(t, Rank, p);
    MachineUnfolds(t, Rank, q);
  }

  /** When the timer runs out that is running behind this transition, `timer` being the one from before. */
  function Limit(cfg: map<string, nat>, vendor: bool, p: Pair, timer: int, clock: int): int
  {
    if p == Pair(DTLS_SETUP, JOIN) then clock + Seconds(cfg, "wait-join", 60)
    else if p == Pair(JOIN, CONFIGURE) then clock + Seconds(cfg, "capwap-timers/change-state-pending-timer", 25)
    else if p == Pair(CONFIGURE, DATA_CHECK) && !vendor then clock + Seconds(cfg, "capwap-timers/data-check-timer", 30)
    else if p.state == RUN || (p == Pair(CONFIGURE, DATA_CHECK) && vendor)
    then clock + Seconds(cfg, "capwap-timers/echo-interval", 30)
    else timer
  }

  /** Each round but the last brings, in time, the message that leads from each of the states to the next;
      behind the vendor's jump the session is in RUN already. */
  ghost predicate InOrder(cfg: map<string, nat>, vendor: bool, at: Pair, timer: int, rounds: seq<Round>,
                          states: seq<nat>)
    decreases |rounds|
  {
    && |rounds| == |states| + 1 && Listed(at)
    && (states != [] ==>
        var limit := Limit(cfg, vendor, at, timer, rounds[0].clock);
        && Brings(rounds[0], limit, states[0])
        && InOrder(cfg, vendor, Pair(Stops(vendor, at).state, states[0]), limit, rounds[1..], states[1..]))
  }

  /** The transitions on the way through these states. */
  function Way(vendor: bool, at: Pair, states: seq<nat>): seq<Pair>
    decreases |states|
  {
    (if Stops(vendor, at) == at then [at] else [at, Stops(vendor, at)])
    + if states == [] then [] else Way(vendor, Pair(Stops(vendor, at).state, states[0]), states[1..])
  }

  function RowLimit(cfg: map<string, nat>, r: Row, timer: int, clock: int): int
  {
    if r.timerKey.Some? then clock + Seconds(cfg, r.timerKey.value, r.timerDefault) else timer
  }

  lemma StartedTo(t: seq<Row>, cfg: map<string, nat>, c: Conn, p: Pair, clock: int, r: Row)
    requires Find(t, p) == Some(r)
    ensures Started(t, cfg, c, p, clock).timer == RowLimit(cfg, r, c.timer, clock)
  {
  }

  lemma LimitOfRow(vendor: bool, cfg: map<string, nat>, p: Pair, timer: int, clock: int)
    requires Listed(p)
    ensures var q := Stops(vendor, p);
            var r := RowFor(vendor, q.prev, q.state);
            r.Some? && RowLimit(cfg, r.value, timer, clock) == Limit(cfg, vendor, p, timer, clock)
  {
  }

  lemma LimitIsTimer(discovery: bool, vendor: bool, cfg: map<string, nat>, c: Conn, clock: int)
    requires Listed(c.at)
    ensures Started(AcTable(discovery, vendor), cfg, c, Stops(vendor, c.at), clock).timer ==
            Limit(cfg, vendor, c.at, c.timer, clock)
  {
    var q := Stops(vendor, c.at);
    AcRow(discovery, vendor, q);
    LimitOfRow(vendor, cfg, c.at, c.timer, clock);
    StartedTo(AcTable(discovery, vendor), cfg, c, q, clock, RowFor(vendor, q.prev, q.state).value);
  }

  /** One step of it. */
  lemma OrderlyStep(discovery: bool, vendor: bool, cfg: map<string, nat>, c: Conn, rounds: seq<Round>, next: nat,
                    limit: int)
    requires Listed(c.at) && rounds != [] && limit == Limit(cfg, vendor, c.at, c.timer, rounds[0].clock)
    requires Brings(rounds[0], limit, next)
    ensures var p := Stops(vendor, c.at);
            var (v, ended) := AcRun(discovery, vendor, cfg, Conn(Pair(p.state, next), limit, 0), rounds[1..]);
            AcRun(discovery, vendor, cfg, c, rounds) == ((if p == c.at then [c.at] else [c.at, p]) + v, ended)
  {
    AcMachine(discovery, vendor, c.at);
    LimitIsTimer(discovery, vendor, cfg, c, rounds[0].clock);
    OneStep(AcTable(discovery, vendor), Rank, cfg, c, rounds, limit, next);
  }

  lemma LastRound(discovery: bool, vendor: bool, cfg: map<string, nat>, c: Conn, rounds: seq<Round>)
    requires Listed(c.at) && |rounds| == 1
    ensures var p := Stops(vendor, c.at);
            AcRun(discovery, vendor, cfg, c, rounds) == (if p == c.at then [c.at] else [c.at, p], false)
  {
    AcMachine(discovery, vendor, c.at);
    OneRound(AcTable(discovery, vendor), Rank, cfg, c, rounds);
  }

  /** The session of such a WTP looks up exactly the transitions on its way, and does not end. */
  lemma {:induction false} OrderlySession(discovery: bool, vendor: bool, cfg: map<string, nat>, c: Conn,
                                          rounds: seq<Round>, states: seq<nat>)
    requires InOrder(cfg, vendor, c.at, c.timer, rounds, states)
    ensures AcRun(discovery, vendor, cfg, c, rounds) == (Way(vendor, c.at, states), false)
    decreases |rounds|
  {
    if states == [] {
      LastRound(discovery, vendor, cfg, c, rounds);
      assert Way(vendor, c.at, []) == if Stops(vendor, c.at) == c.at then [c.at] else [c.at, Stops(vendor, c.at)];
    } else {
      var limit := Limit(cfg, vendor, c.at, c.timer, rounds[0].clock);
      var d := Conn(Pair(Stops(vendor, c.at).state, states[0]), limit, 0);
      OrderlyStep(discovery, vendor, cfg, c, rounds, states[0], limit);
      OrderlySession(discovery, vendor, cfg, d, rounds[1..], states[1..]);
    }
  }

  /** So a WTP that joins, configures and passes the data check in time, one message a round, is in RUN. */
  lemma JoinToRun(discovery: bool, cfg: map<string, nat>, timer: int, rounds: seq<Round>)
    requires InOrder(cfg, false, Pair(DTLS_SETUP, JOIN), timer, rounds, [JOIN, CONFIGURE, DATA_CHECK, RUN, RUN])
    ensures AcRun(discovery, false, cfg, Begun(timer), rounds) ==
            ([Pair(DTLS_SETUP, JOIN), Pair(JOIN, JOIN), Pair(JOIN, CONFIGURE), Pair(CONFIGURE, DATA_CHECK),
              Pair(DATA_CHECK, RUN), Pair(RUN, RUN)], false)
  {
    OrderlySession(discovery, false, cfg, Begun(timer), rounds, [JOIN, CONFIGURE, DATA_CHECK, RUN, RUN]);
    WayToRun();
  }

  lemma WayToRun()
    ensures Way(false, Pair(DTLS_SETUP, JOIN), [JOIN, CONFIGURE, DATA_CHECK, RUN, RUN]) ==
            [Pair(DTLS_SETUP, JOIN), Pair(JOIN, JOIN), Pair(JOIN, CONFIGURE), Pair(CONFIGURE, DATA_CHECK),
             Pair(DATA_CHECK, RUN), Pair(RUN, RUN)]
  {
    var s := [JOIN, CONFIGURE, DATA_CHECK, RUN, RUN];
    assert s[1..] == [CONFIGURE, DATA_CHECK, RUN, RUN] && s[1..][1..] == [DATA_CHECK, RUN, RUN];
    assert [DATA_CHECK, RUN, RUN][1..] == [RUN, RUN] && [RUN, RUN][1..] == [RUN] && [RUN][1..] == [];
    assert Way(false, Pair(RUN, RUN), []) == [Pair(RUN, RUN)];
    assert Way(false, Pair(DATA_CHECK, RUN), [RUN]) == [Pair(DATA_CHECK, RUN), Pair(RUN, RUN)];
    assert Way(false, Pair(CONFIGURE, DATA_CHECK), [RUN, RUN]) ==
           [Pair(CONFIGURE, DATA_CHECK), Pair(DATA_CHECK, RUN), Pair(RUN, RUN)];
    assert Way(false, Pair(JOIN, CONFIGURE), [DATA_CHECK, RUN, RUN]) ==
           [Pair(JOIN, CONFIGURE)] + Way(false, Pair(CONFIGURE, DATA_CHECK), [RUN, RUN]);
    assert Way(false, Pair(JOIN, JOIN), [CONFIGURE, DATA_CHECK, RUN, RUN]) ==
           [Pair(JOIN, JOIN)] + Way(false, Pair(JOIN, CONFIGURE), [DATA_CHECK, RUN, RUN]);
  }
}
