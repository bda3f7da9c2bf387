/** What holds over all runs of the session loop with the access controller's table. */
module SessionRuns {
  import opened Prelude
  import opened StateTable
  import opened AcStates
  import opened Session

  // ----- every run is a path of rows -----

  /** A jump, or what a message or a timeout may do behind a row that lets the session go on. */
  ghost predicate Edge(t: seq<Row>, p: Pair, q: Pair)
  {
    if Jumps(t, p) then q == Target(Find(t, p).value) else q == p || q.prev == p.state
  }

  ghost predicate Path(t: seq<Row>, v: seq<Pair>)
  {
    forall i :: 0 <= i < |v| - 1 ==> Live(t, v[i]) && Edge(t, v[i], v[i + 1])
  }

  lemma {:induction false} MachinePath(t: seq<Row>, rank: Pair -> nat, p: Pair)
    requires Ranked(t, rank)
    ensures Path(t, Machine(t, rank, p))
    decreases rank(p)
  {
    if Jumps(t, p) {
      var q := Target(Find(t, p).value);
      MachinePath(t, rank, q);
      PathJoin(t, [p], Machine(t, rank, q));
    }
  }

  lemma PathJoin(t: seq<Row>, a: seq<Pair>, b: seq<Pair>)
    requires a != [] && Path(t, a) && Path(t, b)
    requires b != [] ==> Live(t, Last(a)) && Edge(t, Last(a), b[0])
    ensures Path(t, a + b)
  {
    var v := a + b;
    forall i | 0 <= i < |v| - 1 ensures Live(t, v[i]) && Edge(t, v[i], v[i + 1]) {
      if i >= |a| {
        assert v[i] == b[i - |a|] && v[i + 1] == b[i - |a| + 1];
      }
    }
  }

  lemma {:induction false} WaitMoves(c: Conn, ticks: seq<Tick>)
    ensures var d := Wait(c, ticks); d.at == c.at || (d.at.prev == c.at.state && d.rc == 0)
    decreases |ticks|
  {
    if ticks != [] && ticks[0].clock <= c.timer && ticks[0].rc < 0 && ticks[0].again {
      WaitMoves(Conn(c.at, c.timer, ticks[0].rc), ticks[1..]);
    }
  }

  lemma TurnMoves(t: seq<Row>, cfg: map<string, nat>, c: Conn, at: Pair, r: Round)
    ensures var q := Turn(t, cfg, c, at, r).at; q == at || q.prev == at.state
  {
    WaitMoves(Started(t, cfg, c, at, r.clock), r.ticks);
  }

  /** Each transition looked up lets the session go on, but the last one of a session that has ended,
      and leads to the next by a jump, by a message, by a timeout or not at all. */
  lemma {:induction false} RunPath(t: seq<Row>, rank: Pair -> nat, cfg: map<string, nat>, c: Conn, rounds: seq<Round>)
    requires Ranked(t, rank)
    ensures var (v, ended) := Run(t, rank, cfg, c, rounds);
            && Path(t, v) && (v == [] <==> rounds == []) && (rounds != [] ==> v[0] == c.at)
            && (v != [] ==> (Live(t, Last(v)) <==> !ended))
    decreases |rounds|
  {
    if rounds != [] {
      var m := Machine(t, rank, c.at);
      MachinePath(t, rank, c.at);
      if Retval(t, Last(m)) != 0 {
        var d := Turn(t, cfg, c, Last(m), rounds[0]);
        TurnMoves(t, cfg, c, Last(m), rounds[0]);
        RunPath(t, rank, cfg, d, rounds[1..]);
        PathJoin(t, m, Run(t, rank, cfg, d, rounds[1..]).0);
      }
    }
  }

  // ----- the access controller's table -----

  /** The transitions that let a session go on. */
  predicate Listed(p: Pair)
  {
    || p == Pair(DTLS_SETUP, JOIN) || p == Pair(JOIN, JOIN) || p == Pair(JOIN, CONFIGURE)
    || p == Pair(CONFIGURE, DATA_CHECK) || p == Pair(DATA_CHECK, RUN) || p == Pair(RUN, RUN)
  }

  /** A table whose rows let the session go on only along the listed transitions, and whose only jump,
      if there is one, skips the data check. */
  ghost predicate OnlyListed(t: seq<Row>)
  {
    forall p: Pair :: (Live(t, p) ==> Listed(p))
      && (Jumps(t, p) ==> p == Pair(CONFIGURE, DATA_CHECK) && Target(Find(t, p).value) == Pair(DATA_CHECK, RUN))
  }

  /** The access controller's table is one, alone and with the vendor's layer on top, and all the listed
      transitions let the session go on. */
  lemma AcTableOnlyListed(discovery: bool, vendor: bool)
    ensures OnlyListed(AcTable(discovery, vendor))
    ensures forall p: Pair :: Live(AcTable(discovery, vendor), p) <==> Listed(p)
  {
    var t := AcTable(discovery, vendor);
    forall p: Pair
      ensures Live(t, p) <==> Listed(p)
      ensures Jumps(t, p) ==> p == Pair(CONFIGURE, DATA_CHECK) && Target(Find(t, p).value) == Pair(DATA_CHECK, RUN)
    {
      AcTableIs(discovery, vendor, p.prev, p.state);
    }
  }

  function Rank(p: Pair): nat { if p == Pair(CONFIGURE, DATA_CHECK) then 1 else 0 }

  /** With such a table the state machine cannot jump for ever. */
  lemma ListedIsRanked(t: seq<Row>)
    requires OnlyListed(t)
    ensures Ranked(t, Rank)
  {
  }

  function Stage(state: nat): nat
  {
    if state == JOIN then 1
    else if state == CONFIGURE then 2
    else if state == DATA_CHECK then 3
    else if state == RUN then 4
    else 0
  }

  lemma StepsUp(t: seq<Row>, p: Pair, q: Pair)
    requires OnlyListed(t) && Live(t, p) && Live(t, q) && Edge(t, p, q)
    ensures Stage(q.state) == Stage(p.state) || Stage(q.state) == Stage(p.state) + 1
  {
    assert Listed(p) && Listed(q);
  }

  /** A stage is reached only from the one before. */
  lemma {:induction false} Before(t: seq<Row>, v: seq<Pair>, i: nat) returns (j: nat)
    requires OnlyListed(t) && i < |v| && Path(t, v) && v[0] == Pair(DTLS_SETUP, JOIN)
    requires Live(t, v[i]) && Stage(v[i].state) > 1
    ensures j < i && Live(t, v[j]) && Stage(v[j].state) == Stage(v[i].state) - 1
  {
    StepsUp(t, v[i - 1], v[i]);
    j := i - 1;
    if Stage(v[i - 1].state) == Stage(v[i].state) {
      j := Before(t, v, i - 1);
    }
  }

  lemma AllBefore(t: seq<Row>, v: seq<Pair>, i: nat) returns (join: nat, configure: nat, check: nat)
    requires OnlyListed(t) && i < |v| && Path(t, v) && v[0] == Pair(DTLS_SETUP, JOIN)
    requires Live(t, v[i]) && v[i].state == RUN
    ensures join < configure < check < i
    ensures v[join].state == JOIN && v[configure].state == CONFIGURE && v[check].state == DATA_CHECK
  {
    check := Before(t, v, i);
    configure := Before(t, v, check);
    join := Before(t, v, configure);
  }

  lemma AcRanked(discovery: bool, vendor: bool)
    ensures Ranked(AcTable(discovery, vendor), Rank)
  {
    AcTableOnlyListed(discovery, vendor);
    ListedIsRanked(AcTable(discovery, vendor));
  }

  /** A run of the access controller's own table from the end of the DTLS handshake. */
  ghost function AcRun(discovery: bool, vendor: bool, cfg: map<string, nat>, c: Conn, rounds: seq<Round>)
    : (seq<Pair>, bool)
  {
    AcRanked(discovery, vendor);
    Run(AcTable(discovery, vendor), Rank, cfg, c, rounds)
  }

  function Begun(timer: int): Conn { Conn(Pair(DTLS_SETUP, JOIN), timer, 0) }

  /** Over all runs from the end of the DTLS handshake, a session is in RUN, at a row that lets it go
      on, only after JOIN, CONFIGURE and DATA_CHECK, in this order. */
  lemma RunNeedsAllBefore(discovery: bool, vendor: bool, cfg: map<string, nat>, timer: int, rounds: seq<Round>, i: nat)
    returns (join: nat, configure: nat, check: nat)
    requires var v := AcRun(discovery, vendor, cfg, Begun(timer), rounds).0;
             i < |v| && v[i].state == RUN && Live(AcTable(discovery, vendor), v[i])
    ensures var v := AcRun(discovery, vendor, cfg, Begun(timer), rounds).0;
            && join < configure < check < i
            && v[join].state == JOIN && v[configure].state == CONFIGURE && v[check].state == DATA_CHECK
  {
    var t := AcTable(discovery, vendor);
    AcTableOnlyListed(discovery, vendor);
    AcRanked(discovery, vendor);
    RunPath(t, Rank, cfg, Begun(timer), rounds);
    join, configure, check := AllBefore(t, Run(t, Rank, cfg, Begun(timer), rounds).0, i);
  }

  // ----- timeouts -----

  /** The lookup behind a timeout ends the session, whatever the state was. */
  lemma TimeoutEnds(discovery: bool, vendor: bool, cfg: map<string, nat>, c: Conn, rounds: seq<Round>)
    requires c.at.state == TIMEOUT && rounds != []
    ensures AcRun(discovery, vendor, cfg, c, rounds) == ([c.at], true)
  {
    AcTableOnlyListed(discovery, vendor);
    assert !Live(AcTable(discovery, vendor), c.at);
  }

  /** Where nothing arrives the round ends in a timeout exactly when reading was tried at least once
      before the timer ran out, or failed the last time it was tried. */
  lemma {:induction false} QuietRound(c: Conn, ticks: seq<Tick>)
    requires forall k :: k in ticks ==> k.rc < 0 && k.again
    ensures AfterWait(Wait(c, ticks)).at ==
            if c.rc < 0 || (ticks != [] && ticks[0].clock <= c.timer) then Pair(c.at.state, TIMEOUT) else c.at
    decreases |ticks|
  {
    if ticks != [] && ticks[0].clock <= c.timer {
      QuietRound(Conn(c.at, c.timer, ticks[0].rc), ticks[1..]);
    }
  }

  /** A row without a timer leaves the old one in place. Once that has run out, and the last message
      had been read well, a row that lets the session go on is looked up for ever, without reading and
      without a timeout. */
  lemma {:induction false} StuckWithoutTimer(t: seq<Row>, rank: Pair -> nat, cfg: map<string, nat>, c: Conn,
                                             rounds: seq<Round>)
    requires Ranked(t, rank) && Live(t, c.at) && !Jumps(t, c.at) && Find(t, c.at).value.timerKey == None && c.rc >= 0
    requires forall r :: r in rounds ==> r.ticks != [] ==> r.ticks[0].clock > c.timer
    ensures var (v, ended) := Run(t, rank, cfg, c, rounds);
            !ended && |v| == |rounds| && forall i :: 0 <= i < |v| ==> v[i] == c.at
    decreases |rounds|
  {
    if rounds != [] {
      assert rounds[0] in rounds;
      assert Turn(t, cfg, c, c.at, rounds[0]) == c;
      StuckWithoutTimer(t, rank, cfg, c, rounds[1..]);
    }
  }

  /** A peer that never sends anything. */
  ghost predicate Silent(rounds: seq<Round>)
  {
    forall r, k :: r in rounds && k in r.ticks ==> k.rc < 0 && k.again
  }

  /** Nothing goes on behind a timeout. */
  ghost predicate TimeoutsEnd(t: seq<Row>) { forall p: Pair :: p.state == TIMEOUT ==> !Live(t, p) }

  /** Reading was tried in this round, begun at `at`, before the timer ran out, or the last one that was
      tried before it had failed. */
  predicate Noticed(t: seq<Row>, cfg: map<string, nat>, c: Conn, at: Pair, r: Round)
  {
    c.rc < 0 || (r.ticks != [] && r.ticks[0].clock <= Started(t, cfg, c, at, r.clock).timer)
  }

  ghost predicate SomeNoticed(t: seq<Row>, cfg: map<string, nat>, c: Conn, rounds: seq<Round>)
  {
    exists i :: 0 <= i < |rounds| - 1 && Noticed(t, cfg, c, c.at, rounds[i])
  }

  /** A round in which nothing is noticed at most starts the timer again. */
  lemma Unnoticed(t: seq<Row>, cfg: map<string, nat>, c: Conn, r: Round, later: Round)
    requires !Noticed(t, cfg, c, c.at, r)
    ensures var d := Turn(t, cfg, c, c.at, r);
            d.at == c.at && (Noticed(t, cfg, d, d.at, later) <==> Noticed(t, cfg, c, c.at, later))
  {
  }

  lemma NoticedTimesOut(t: seq<Row>, cfg: map<string, nat>, c: Conn, rounds: seq<Round>)
    requires rounds != [] && Silent(rounds) && Noticed(t, cfg, c, c.at, rounds[0])
    ensures Turn(t, cfg, c, c.at, rounds[0]).at.state == TIMEOUT
  {
    assert rounds[0] in rounds;
    QuietRound(Started(t, cfg, c, c.at, rounds[0].clock), rounds[0].ticks);
  }

  lemma TimedOut(t: seq<Row>, rank: Pair -> nat, cfg: map<string, nat>, c: Conn, rounds: seq<Round>)
    requires Ranked(t, rank) && TimeoutsEnd(t) && c.at.state == TIMEOUT
    ensures Run(t, rank, cfg, c, rounds).1 <==> rounds != []
  {
    assert !Live(t, c.at);
  }

  lemma RunGoesOn(t: seq<Row>, rank: Pair -> nat, cfg: map<string, nat>, c: Conn, rounds: seq<Round>)
    requires Ranked(t, rank) && Live(t, c.at) && !Jumps(t, c.at) && rounds != []
    ensures Run(t, rank, cfg, c, rounds).1 == Run(t, rank, cfg, Turn(t, cfg, c, c.at, rounds[0]), rounds[1..]).1
  {
    assert Machine(t, rank, c.at) == [c.at];
  }

  lemma LaterNoticed(t: seq<Row>, cfg: map<string, nat>, c: Conn, rounds: seq<Round>)
    requires rounds != [] && !Noticed(t, cfg, c, c.at, rounds[0])
    ensures SomeNoticed(t, cfg, c, rounds) <==> SomeNoticed(t, cfg, Turn(t, cfg, c, c.at, rounds[0]), rounds[1..])
  {
    var d, rest := Turn(t, cfg, c, c.at, rounds[0]), rounds[1..];
    forall i | 0 <= i < |rest|
      ensures Noticed(t, cfg, d, d.at, rest[i]) <==> Noticed(t, cfg, c, c.at, rounds[i + 1])
    {
      Unnoticed(t, cfg, c, rounds[0], rest[i]);
    }
    if SomeNoticed(t, cfg, c, rounds) {
      var i :| 0 <= i < |rounds| - 1 && Noticed(t, cfg, c, c.at, rounds[i]);
      assert Noticed(t, cfg, d, d.at, rest[i - 1]);
    }
    if SomeNoticed(t, cfg, d, rest) {
      var i :| 0 <= i < |rest| - 1 && Noticed(t, cfg, d, d.at, rest[i]);
      assert Noticed(t, cfg, c, c.at, rounds[i + 1]);
    }
  }

  lemma NoticedFirst(t: seq<Row>, rank: Pair -> nat, cfg: map<string, nat>, c: Conn, rounds: seq<Round>)
    requires Ranked(t, rank) && TimeoutsEnd(t) && Live(t, c.at) && !Jumps(t, c.at) && Silent(rounds)
    requires rounds != [] && Noticed(t, cfg, c, c.at, rounds[0])
    ensures Run(t, rank, cfg, c, rounds).1 <==> |rounds| > 1
  {
    RunGoesOn(t, rank, cfg, c, rounds);
    NoticedTimesOut(t, cfg, c, rounds);
    TimedOut(t, rank, cfg, Turn(t, cfg, c, c.at, rounds[0]), rounds[1..]);
  }

  lemma NoticedAtOnce(t: seq<Row>, cfg: map<string, nat>, c: Conn, rounds: seq<Round>)
    requires rounds != [] && Noticed(t, cfg, c, c.at, rounds[0])
    ensures SomeNoticed(t, cfg, c, rounds) <==> |rounds| > 1
  {
  }

  lemma SilentLater(rounds: seq<Round>)
    requires Silent(rounds) && rounds != []
    ensures Silent(rounds[1..])
  {
    assert forall x :: x in rounds[1..] ==> x in rounds;
  }

  /** Behind a row that lets the session go on, the session of a silent peer ends exactly when in some
      round but the last one reading was tried before the timer ran out, or had failed before. */
  lemma {:induction false} SilentRunExact(t: seq<Row>, rank: Pair -> nat, cfg: map<string, nat>, c: Conn,
                                          rounds: seq<Round>)
    requires Ranked(t, rank) && TimeoutsEnd(t) && Live(t, c.at) && !Jumps(t, c.at) && Silent(rounds)
    ensures Run(t, rank, cfg, c, rounds).1 <==> SomeNoticed(t, cfg, c, rounds)
    decreases |rounds|
  {
    if rounds != [] {
      if Noticed(t, cfg, c, c.at, rounds[0]) {
        NoticedFirst(t, rank, cfg, c, rounds);
        NoticedAtOnce(t, cfg, c, rounds);
      } else {
        RunGoesOn(t, rank, cfg, c, rounds);
        Unnoticed(t, cfg, c, rounds[0], rounds[0]);
        SilentLater(rounds);
        SilentRunExact(t, rank, cfg, Turn(t, cfg, c, c.at, rounds[0]), rounds[1..]);
        LaterNoticed(t, cfg, c, rounds);
      }
    }
  }

  /** So in the access controller's own table, behind every row but the vendor's jump. */
  lemma AcSilentExact(discovery: bool, vendor: bool, cfg: map<string, nat>, c: Conn, rounds: seq<Round>)
    requires var t := AcTable(discovery, vendor); Live(t, c.at) && !Jumps(t, c.at)
    requires Silent(rounds)
    ensures AcRun(discovery, vendor, cfg, c, rounds).1 <==> SomeNoticed(AcTable(discovery, vendor), cfg, c, rounds)
  {
    AcRanked(discovery, vendor);
    AcTableOnlyListed(discovery, vendor);
    SilentRunExact(AcTable(discovery, vendor), Rank, cfg, c, rounds);
  }

  /** The row of a WTP that has joined is such a row. */
  lemma JoinedHasNoTimer(discovery: bool, vendor: bool)
    ensures Find(AcTable(discovery, vendor), Pair(JOIN, JOIN)) == Some(Plain(JOIN, JOIN, 1))
  {
    AcTableIs(discovery, vendor, JOIN, JOIN);
  }

  /** So a session that has joined when the timer of the handshake has run out does not end, however
      many rounds there are. */
  lemma JoinedIsStuck(discovery: bool, vendor: bool, cfg: map<string, nat>, timer: int, rounds: seq<Round>)
    requires forall r :: r in rounds ==> r.ticks != [] ==> r.ticks[0].clock > timer
    ensures !AcRun(discovery, vendor, cfg, Conn(Pair(JOIN, JOIN), timer, 0), rounds).1
  {
    AcRanked(discovery, vendor);
    JoinedHasNoTimer(discovery, vendor);
    StuckWithoutTimer(AcTable(discovery, vendor), Rank, cfg, Conn(Pair(JOIN, JOIN), timer, 0), rounds);
  }

  /** And the session of a WTP that falls silent once it has joined ends exactly when in some round but
      the last one reading was tried before that timer ran out, or had failed before. */
  lemma JoinedEndsExactly(discovery: bool, vendor: bool, cfg: map<string, nat>, timer: int, rc: int,
                          rounds: seq<Round>)
    requires Silent(rounds)
    ensures AcRun(discovery, vendor, cfg, Conn(Pair(JOIN, JOIN), timer, rc), rounds).1 <==>
            exists i :: 0 <= i < |rounds| - 1
                        && (rc < 0 || (rounds[i].ticks != [] && rounds[i].ticks[0].clock <= timer))
  {
    var t, c := AcTable(discovery, vendor), Conn(Pair(JOIN, JOIN), timer, rc);
    JoinedHasNoTimer(discovery, vendor);
    AcSilentExact(discovery, vendor, cfg, c, rounds);
    assert forall r: Round :: Started(t, cfg, c, c.at, r.clock).timer == timer;
    assert forall i :: 0 <= i < |rounds| - 1 ==> (Noticed(t, cfg, c, c.at, rounds[i]) <==>
             rc < 0 || (rounds[i].ticks != [] && rounds[i].ticks[0].clock <= timer));
  }
}
