/** The session of one WTP at the access controller (section 2.3 of RFC 5415): a loop that looks up the
    current transition, starts its timer and waits for a message. */
module Session {
  import opened Prelude
  import opened StateTable

  datatype Pair = Pair(prev: nat, state: nat)

  /** One turn of the waiting loop: the clock when the timer is checked, and then what reading brings:
      a return code, whether an error means "try again", and the state that a successful request
      leads to, or 0. */
  datatype Tick = Tick(clock: int, rc: int, again: bool, next: nat)

  /** The clock when a timer is started, and the waiting after that. Where the ticks end, the timer has
      run out. */
  datatype Round = Round(clock: int, ticks: seq<Tick>)

  datatype Conn = Conn(at: Pair, timer: int, rc: int)

  // ----- cw_run_state_machine -----

  function Find(t: seq<Row>, p: Pair): Option<Row> { Lookup(t, p.prev, p.state) }

  function Target(r: Row): Pair { Pair(r.jumpPrev, r.jumpState) }

  /** Jumps cannot go on for ever. */
  ghost predicate Ranked(t: seq<Row>, rank: Pair -> nat)
  {
    forall p: Pair :: Jumps(t, p) ==> rank(Target(Find(t, p).value)) < rank(p)
  }

  predicate Jumps(t: seq<Row>, p: Pair) { Find(t, p).Some? && Find(t, p).value.jumpState != 0 }

  /** A transition that lets the session go on. */
  predicate Live(t: seq<Row>, p: Pair)
  {
    Find(t, p).Some? && (Find(t, p).value.jumpState != 0 || Find(t, p).value.retval != 0)
  }

  /** The transitions looked up, the last one being where the machine stops. */
  function Machine(t: seq<Row>, rank: Pair -> nat, p: Pair): (visited: seq<Pair>)
    requires Ranked(t, rank)
    ensures visited != [] && visited[0] == p && !Jumps(t, visited[|visited| - 1])
    decreases rank(p)
  {
    if Jumps(t, p) then [p] + Machine(t, rank, Target(Find(t, p).value)) else [p]
  }

  function Last(visited: seq<Pair>): Pair
    requires visited != []
  {
    visited[|visited| - 1]
  }

  function Retval(t: seq<Row>, p: Pair): int { match Find(t, p) case None => 0 case Some(r) => r.retval }

  function TimerValue(cfg: map<string, nat>, r: Row): nat
    requires r.timerKey.Some?
  {
    if r.timerKey.value in cfg then cfg[r.timerKey.value] else r.timerDefault
  }

  function Started(t: seq<Row>, cfg: map<string, nat>, c: Conn, at: Pair, clock: int): Conn
  {
    match Find(t, at)
    case Some(r) => if r.timerKey.Some? then Conn(at, clock + TimerValue(cfg, r), c.rc) else c.(at := at)
    case None => c.(at := at)
  }

  // ----- wtpman_main -----

  function Moved(p: Pair, k: Tick): Pair { if k.rc == 0 && k.next != 0 then Pair(p.state, k.next) else p }

  function Wait(c: Conn, ticks: seq<Tick>): Conn
    decreases |ticks|
  {
    if ticks == [] || ticks[0].clock > c.timer then c
    else
      var k := ticks[0];
      var c1 := Conn(Moved(c.at, k), c.timer, k.rc);
      if k.rc < 0 && k.again then Wait(c1, ticks[1..]) else c1
  }

  function AfterWait(c: Conn): Conn { if c.rc < 0 then c.(at := Pair(c.at.state, TIMEOUT)) else c }

  /** One round of a session that the state machine lets go on. */
  function Turn(t: seq<Row>, cfg: map<string, nat>, c: Conn, at: Pair, r: Round): Conn
  {
    AfterWait(Wait(Started(t, cfg, c, at, r.clock), r.ticks))
  }

  /** All transitions looked up over a run, and whether the session has ended. */
  function Run(t: seq<Row>, rank: Pair -> nat, cfg: map<string, nat>, c: Conn, rounds: seq<Round>): (seq<Pair>, bool)
    requires Ranked(t, rank)
    decreases |rounds|
  {
    if rounds == [] then ([], false)
    else
      var m := Machine(t, rank, c.at);
      if Retval(t, Last(m)) == 0 then (m, true)
      else
        var (rest, ended) := Run(t, rank, cfg, Turn(t, cfg, c, Last(m), rounds[0]), rounds[1..]);
        (m + rest, ended)
  }

  class WtpMan {
    const t: seq<Row>
    const cfg: map<string, nat>
    var capwapPrevstate: nat
    var capwapState: nat
    var timer: int
    var rc: int
    ghost var visited: seq<Pair>

    ghost function Now(): Conn
      reads this
    {
      Conn(Pair(capwapPrevstate, capwapState), timer, rc)
    }

    constructor (t: seq<Row>, cfg: map<string, nat>, timer: int)
      ensures this.t == t && this.cfg == cfg && visited == [] && Now() == Conn(Pair(DTLS_SETUP, JOIN), timer, 0)
    {
      this.t, this.cfg, this.timer, rc, visited := t, cfg, timer, 0, [];
      capwapPrevstate, capwapState := DTLS_SETUP, JOIN;
    }

    method RunStateMachine(clock: int, ghost rank: Pair -> nat) returns (retval: int)
      requires Ranked(t, rank)
      modifies this
      ensures var m := Machine(t, rank, old(Now()).at);
              && visited == old(visited) + m && retval == Retval(t, Last(m))
              && Now() == Started(t, cfg, old(Now()), Last(m), clock)
    {
      ghost var c, before := Now(), visited;
      while true
        invariant timer == c.timer && rc == c.rc
        invariant Chased(t, rank, c.at, before, visited, Now().at)
        decreases rank(Now().at)
      {
        ChasedStep(t, rank, c.at, before, visited, Now().at);
        var result := Look();
        if result == None {
          return 0;
        }
        if result.value.jumpState != 0 {
          capwapState := result.value.jumpState;
          capwapPrevstate := result.value.jumpPrev;
          continue;
        }
        StartTimer(result.value, clock);
        return result.value.retval;
      }
    }

    method Look() returns (result: Option<Row>)
      modifies this`visited
      ensures result == Find(t, Now().at) && visited == old(visited) + [Now().at]
    {
      result := Lookup(t, capwapPrevstate, capwapState);
      visited := visited + [Now().at];
    }

    method StartTimer(result: Row, clock: int)
      requires Find(t, Now().at) == Some(result)
      modifies this`timer
      ensures Now() == Started(t, cfg, old(Now()), Now().at, clock)
    {
      if result.timerKey.Some? {
        timer := clock + TimerValue(cfg, result);
      }
    }

    /** The waiting loop. */
    method WaitForMessage(ticks: seq<Tick>)
      modifies this`capwapPrevstate, this`capwapState, this`rc
      ensures Now() == Wait(old(Now()), ticks)
    {
      var i := 0;
      assert ticks[0..] == ticks;
      while i < |ticks| && ticks[i].clock <= timer
        invariant i <= |ticks| && Wait(Now(), ticks[i..]) == Wait(old(Now()), ticks)
      {
        ghost var c := Now();
        var k := ticks[i];
        assert ticks[i..][0] == k && ticks[i..][1..] == ticks[i + 1..];
        rc := k.rc;
        if k.rc == 0 && k.next != 0 {
          capwapPrevstate, capwapState := capwapState, k.next;
        }
        assert Now() == Conn(Moved(c.at, k), c.timer, k.rc);
        if !(rc < 0 && k.again) {
          return;
        }
        i := i + 1;
      }
    }

    method WtpmanMain(rounds: seq<Round>, ghost rank: Pair -> nat) returns (ended: bool)
      requires Ranked(t, rank) && visited == []
      modifies this
      ensures (visited, ended) == Run(t, rank, cfg, old(Now()), rounds)
    {
      var i := 0;
      assert rounds[0..] == rounds;
      ghost var start := Now();
      assert visited + Run(t, rank, cfg, start, rounds).0 == Run(t, rank, cfg, start, rounds).0;
      while i < |rounds|
        invariant i <= |rounds|
        invariant RunFrom(t, rank, cfg, Now(), rounds[i..], visited) == Run(t, rank, cfg, start, rounds)
      {
        assert rounds[i..][0] == rounds[i] && rounds[i..][1..] == rounds[i + 1..];
        RunFromStep(t, rank, cfg, Now(), rounds[i..], visited);
        var retval := RunStateMachine(rounds[i].clock, rank);
        if retval == 0 {
          return true;
        }
        WaitForMessage(rounds[i].ticks);
        if rc < 0 {
          capwapPrevstate, capwapState := capwapState, TIMEOUT;
        }
        i := i + 1;
      }
      assert visited + [] == visited;
      return false;
    }
  }

  /** The machine started at `start` has looked up what `visited` has beyond `before`, and is now at
      `p`. */
  ghost predicate Chased(t: seq<Row>, rank: Pair -> nat, start: Pair, before: seq<Pair>, visited: seq<Pair>, p: Pair)
    requires Ranked(t, rank)
  {
    && visited + Machine(t, rank, p) == before + Machine(t, rank, start)
    && Last(Machine(t, rank, p)) == Last(Machine(t, rank, start))
  }

  lemma ChasedStep(t: seq<Row>, rank: Pair -> nat, start: Pair, before: seq<Pair>, visited: seq<Pair>, p: Pair)
    requires Ranked(t, rank) && Chased(t, rank, start, before, visited, p)
    ensures if Jumps(t, p) then
              rank(Target(Find(t, p).value)) < rank(p)
              && Chased(t, rank, start, before, visited + [p], Target(Find(t, p).value))
            else visited + [p] == before + Machine(t, rank, start) && Last(Machine(t, rank, start)) == p
  {
    MachineUnfolds(t, rank, p);
    if Jumps(t, p) {
      var m := Machine(t, rank, Target(Find(t, p).value));
      assert visited + ([p] + m) == visited + [p] + m;
    }
  }

  lemma MachineUnfolds(t: seq<Row>, rank: Pair -> nat, p: Pair)
    requires Ranked(t, rank)
    ensures if Jumps(t, p) then
              var q := Target(Find(t, p).value);
              && rank(q) < rank(p) && Machine(t, rank, p) == [p] + Machine(t, rank, q)
              && Last(Machine(t, rank, p)) == Last(Machine(t, rank, q))
            else Machine(t, rank, p) == [p]
  {
  }

  ghost function RunFrom(t: seq<Row>, rank: Pair -> nat, cfg: map<string, nat>, c: Conn, rounds: seq<Round>,
                         before: seq<Pair>): (seq<Pair>, bool)
    requires Ranked(t, rank)
  {
    var (rest, ended) := Run(t, rank, cfg, c, rounds);
    (before + rest, ended)
  }

  lemma RunFromStep(t: seq<Row>, rank: Pair -> nat, cfg: map<string, nat>, c: Conn, rounds: seq<Round>,
                    before: seq<Pair>)
    requires Ranked(t, rank) && rounds != []
    ensures var m := Machine(t, rank, c.at);
            RunFrom(t, rank, cfg, c, rounds, before) ==
            if Retval(t, Last(m)) == 0 then (before + m, true)
            else RunFrom(t, rank, cfg, Turn(t, cfg, c, Last(m), rounds[0]), rounds[1..], before + m)
  {
    var m := Machine(t, rank, c.at);
    if Retval(t, Last(m)) != 0 {
      var rest := Run(t, rank, cfg, Turn(t, cfg, c, Last(m), rounds[0]), rounds[1..]).0;
      assert before + (m + rest) == before + m + rest;
    }
  }
}
