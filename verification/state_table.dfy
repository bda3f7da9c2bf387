/** The table of session states and the loop that loads layers of it, later rows replacing earlier ones. */
module StateTable {
  import opened Prelude
  import Mavl

  const STATE_NONE := 0
  const DISCOVERY := 1
  const JOIN := 2
  const CONFIGURE := 4
  const DTLS_SETUP := 5
  const RUN := 8
  const DATA_CHECK := 9
  const TIMEOUT := 10

  /** What to do in `state` when coming from `prev`. A return value of 0 ends the session, and a jump
      state other than 0 goes on with another row. */
  datatype Row = Row(prev: nat, state: nat, timerKey: Option<string>, timerDefault: nat, retval: int,
                     jumpPrev: nat, jumpState: nat)

  function Plain(prev: nat, state: nat, retval: int): Row { Row(prev, state, None, 0, retval, 0, 0) }

  function Timed(prev: nat, state: nat, key: string, default: nat): Row
  {
    Row(prev, state, Some(key), default, 1, 0, 0)
  }

  /** statemachine_states of the CAPWAP module */
  const STATES: seq<Row> := [
    Timed(DTLS_SETUP, JOIN, "wait-join", 60),
    Plain(JOIN, TIMEOUT, 0),
    Plain(JOIN, JOIN, 1),
    Timed(JOIN, CONFIGURE, "capwap-timers/change-state-pending-timer", 25),
    Plain(CONFIGURE, TIMEOUT, 0),
    Timed(CONFIGURE, DATA_CHECK, "capwap-timers/data-check-timer", 30),
    Plain(DATA_CHECK, TIMEOUT, 0),
    Timed(DATA_CHECK, RUN, "capwap-timers/echo-interval", 30),
    Timed(RUN, RUN, "capwap-timers/echo-interval", 30),
    Plain(RUN, TIMEOUT, 0),
    Plain(0, 0, 0)
  ]

  /** The layer for a vendor whose devices do not do the data check. */
  const VENDOR_STATES: seq<Row> := [Row(CONFIGURE, DATA_CHECK, None, 0, 1, DATA_CHECK, RUN), Plain(0, 0, 0)]

  /** cmp_statemachine_state */
  function CmpRow(a: Row, b: Row): int { if a.state != b.state then a.state - b.state else a.prev - b.prev }

  predicate AnyRow(r: Row) { true }

  ghost predicate Sorted(t: seq<Row>) { Mavl.Sorted(CmpRow, t) }

  lemma RowOrder()
    ensures Mavl.OrderOn(CmpRow, AnyRow)
  {
  }

  function Lookup(t: seq<Row>, prev: nat, state: nat): Option<Row> { Mavl.Get(CmpRow, t, Plain(prev, state, 0)) }

  /** The table after the rows before the first one for state 0 were put into it. */
  function LoadAll(t: seq<Row>, rows: seq<Row>): seq<Row>
    decreases |rows|
  {
    if rows == [] || rows[0].state == 0 then t else LoadAll(Mavl.Replace(CmpRow, t, rows[0]), rows[1..])
  }

  class Table {
    var states: seq<Row>

    constructor ()
      ensures states == []
    {
      states := [];
    }

    /** cw_statemachine_load_states, cw_msgset_add_states */
    method LoadStates(rows: seq<Row>)
      modifies this
      ensures states == LoadAll(old(states), rows)
    {
      var s := 0;
      assert rows[0..] == rows;
      while s < |rows| && rows[s].state != 0
        invariant s <= |rows| && LoadAll(states, rows[s..]) == LoadAll(old(states), rows)
      {
        assert rows[s..][1..] == rows[s + 1..];
        states := Mavl.Replace(CmpRow, states, rows[s]);
        s := s + 1;
      }
    }
  }

  /** The last row for a transition, before the end of the list. */
  function Latest(rows: seq<Row>, prev: nat, state: nat): (r: Option<Row>)
    ensures r.Some? ==> r.value in rows && r.value.prev == prev && r.value.state == state
  {
    if rows == [] || rows[0].state == 0 then None
    else
      var later := Latest(rows[1..], prev, state);
      if later.Some? then later
      else if rows[0].prev == prev && rows[0].state == state then Some(rows[0]) else None
  }

  lemma ReplaceThenLookup(t: seq<Row>, r: Row, prev: nat, state: nat)
    requires Sorted(t)
    ensures var u := Mavl.Replace(CmpRow, t, r);
            Sorted(u) && Lookup(u, prev, state) ==
            if r.prev == prev && r.state == state then Some(r) else Lookup(t, prev, state)
  {
    var u, x := Mavl.Replace(CmpRow, t, r), Plain(prev, state, 0);
    RowOrder();
    Mavl.ReplaceKeeps(CmpRow, AnyRow, t, r);
    Mavl.GetFinds(CmpRow, AnyRow, u, x);
    Mavl.GetFinds(CmpRow, AnyRow, t, x);
  }

  /** Whatever is loaded on top of a table, the last row for a transition is the one that is found. */
  lemma {:induction false} LatestWins(t: seq<Row>, rows: seq<Row>, prev: nat, state: nat)
    requires Sorted(t)
    ensures Sorted(LoadAll(t, rows))
    ensures Lookup(LoadAll(t, rows), prev, state) ==
            match Latest(rows, prev, state) case Some(r) => Some(r) case None => Lookup(t, prev, state)
    decreases |rows|
  {
    if rows != [] && rows[0].state != 0 {
      ReplaceThenLookup(t, rows[0], prev, state);
      LatestWins(Mavl.Replace(CmpRow, t, rows[0]), rows[1..], prev, state);
    }
  }

  /** The list ends behind `n` rows. */
  ghost predicate RowsEnd(rows: seq<Row>, n: nat)
  {
    n <= |rows| && (forall j :: 0 <= j < n ==> rows[j].state != 0) && (n < |rows| ==> rows[n].state == 0)
  }

  /** Of the rows before the end the i-th is the last one for its transition. */
  ghost predicate LastRow(rows: seq<Row>, n: nat, i: nat, prev: nat, state: nat)
    requires n <= |rows|
  {
    && i < n && rows[i].prev == prev && rows[i].state == state
    && forall j :: i < j < n ==> rows[j].prev != prev || rows[j].state != state
  }

  lemma {:induction false} LatestIs(rows: seq<Row>, n: nat, prev: nat, state: nat)
    requires RowsEnd(rows, n)
    ensures match Latest(rows, prev, state)
            case Some(r) => exists i: nat :: LastRow(rows, n, i, prev, state) && r == rows[i]
            case None => forall i :: 0 <= i < n ==> rows[i].prev != prev || rows[i].state != state
    decreases n
  {
    if n > 0 {
      var rest := rows[1..];
      LatestIs(rest, n - 1, prev, state);
      if Latest(rest, prev, state).Some? {
        var i: nat :| LastRow(rest, n - 1, i, prev, state) && Latest(rest, prev, state).value == rest[i];
        assert LastRow(rows, n, i + 1, prev, state);
      } else {
        forall j | 1 <= j < n ensures rows[j].prev != prev || rows[j].state != state {
          assert rest[j - 1] == rows[j];
        }
        if rows[0].prev == prev && rows[0].state == state {
          assert LastRow(rows, n, 0, prev, state);
        }
      }
    }
  }

  /** After a list was loaded, the row for a transition is the last one that the list has for it before its
      end, or else the one that was there. */
  lemma LoadedRow(t: seq<Row>, rows: seq<Row>, n: nat, prev: nat, state: nat)
    requires Sorted(t) && RowsEnd(rows, n)
    ensures var r := Lookup(LoadAll(t, rows), prev, state);
            if forall i :: 0 <= i < n ==> rows[i].prev != prev || rows[i].state != state
            then r == Lookup(t, prev, state)
            else exists i: nat :: LastRow(rows, n, i, prev, state) && r == Some(rows[i])
  {
    LatestWins(t, rows, prev, state);
    LatestIs(rows, n, prev, state);
  }

  /** The copy of these rows in the access controller has one for discovery in front. */
  function Layer(discovery: bool): seq<Row>
  {
    if discovery then [Plain(STATE_NONE, DISCOVERY, 0)] + STATES else STATES
  }

  /** The table of the access controller from either copy, alone or with the vendor's layer on top. */
  function AcTable(discovery: bool, vendor: bool): seq<Row>
  {
    var base := LoadAll([], Layer(discovery));
    if vendor then LoadAll(base, VENDOR_STATES) else base
  }

  /** What is found in it comes from one of the two lists. */
  lemma FoundIsListed(discovery: bool, vendor: bool, prev: nat, state: nat)
    ensures Sorted(AcTable(discovery, vendor))
    ensures var r := Lookup(AcTable(discovery, vendor), prev, state);
            r.Some? ==> r.value.prev == prev && r.value.state == state
                        && (r.value in Layer(discovery) || (vendor && r.value == VENDOR_STATES[0]))
  {
    LatestWins([], Layer(discovery), prev, state);
    LatestWins(LoadAll([], Layer(discovery)), VENDOR_STATES, prev, state);
    var top := Latest(VENDOR_STATES, prev, state);
    assert top.Some? ==> top.value == VENDOR_STATES[0];
  }
}
