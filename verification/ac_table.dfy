/** What is found in the access controller's table of session states, row by row. */
module AcStates {
  import opened Prelude
  import opened StateTable

  /** The i-th row of the list. */
  function ListRow(i: nat): Row
  {
    if i == 0 then Row(DTLS_SETUP, JOIN, Some("wait-join"), 60, 1, 0, 0)
    else if i == 1 then Row(JOIN, TIMEOUT, None, 0, 0, 0, 0)
    else if i == 2 then Row(JOIN, JOIN, None, 0, 1, 0, 0)
    else if i == 3 then Row(JOIN, CONFIGURE, Some("capwap-timers/change-state-pending-timer"), 25, 1, 0, 0)
    else if i == 4 then Row(CONFIGURE, TIMEOUT, None, 0, 0, 0, 0)
    else if i == 5 then Row(CONFIGURE, DATA_CHECK, Some("capwap-timers/data-check-timer"), 30, 1, 0, 0)
    else if i == 6 then Row(DATA_CHECK, TIMEOUT, None, 0, 0, 0, 0)
    else if i == 7 then Row(DATA_CHECK, RUN, Some("capwap-timers/echo-interval"), 30, 1, 0, 0)
    else if i == 8 then Row(RUN, RUN, Some("capwap-timers/echo-interval"), 30, 1, 0, 0)
    else if i == 9 then Row(RUN, TIMEOUT, None, 0, 0, 0, 0)
    else Row(STATE_NONE, STATE_NONE, None, 0, 0, 0, 0)
  }

  /** The row for a transition. */
  function RowFor(vendor: bool, prev: nat, state: nat): Option<Row>
  {
    if prev == DTLS_SETUP && state == JOIN then Some(ListRow(0))
    else if prev == JOIN && state == TIMEOUT then Some(ListRow(1))
    else if prev == JOIN && state == JOIN then Some(ListRow(2))
    else if prev == JOIN && state == CONFIGURE then Some(ListRow(3))
    else if prev == CONFIGURE && state == TIMEOUT then Some(ListRow(4))
    else if prev == CONFIGURE && state == DATA_CHECK then
      Some(if vendor then Row(CONFIGURE, DATA_CHECK, None, 0, 1, DATA_CHECK, RUN) else ListRow(5))
    else if prev == DATA_CHECK && state == TIMEOUT then Some(ListRow(6))
    else if prev == DATA_CHECK && state == RUN then Some(ListRow(7))
    else if prev == RUN && state == RUN then Some(ListRow(8))
    else if prev == RUN && state == TIMEOUT then Some(ListRow(9))
    else None
  }

  lemma FirstRows(i: nat)
    requires i < 6
    ensures STATES[i] == ListRow(i)
  {
    if i < 3 {
      assert i == 0 || i == 1 || i == 2;
    } else {
      assert i == 3 || i == 4 || i == 5;
    }
  }

  lemma LaterRows(i: nat)
    requires 6 <= i < 11
    ensures STATES[i] == ListRow(i)
  {
    if i < 8 {
      assert i == 6 || i == 7;
    } else {
      assert i == 8 || i == 9 || i == 10;
    }
  }

  lemma ListEnds()
    ensures RowsEnd(STATES, 10)
    ensures forall i :: 0 <= i < 11 ==> STATES[i] == ListRow(i)
  {
    assert |STATES| == 11;
    forall i | 0 <= i < 11 ensures STATES[i] == ListRow(i) {
      if i < 6 { FirstRows(i); } else { LaterRows(i); }
    }
    forall i | 0 <= i < 10 ensures STATES[i].state != 0 {
      assert ListRow(i).state != 0;
    }
  }

  lemma OneRowEach(i: nat)
    requires i < 10
    ensures RowFor(false, ListRow(i).prev, ListRow(i).state) == Some(ListRow(i))
  {
  }

  lemma SomeRow(prev: nat, state: nat) returns (i: nat)
    requires RowFor(false, prev, state).Some?
    ensures i < 10 && ListRow(i).prev == prev && ListRow(i).state == state
  {
    i := if prev == DTLS_SETUP then 0
         else if prev == JOIN then (if state == TIMEOUT then 1 else if state == JOIN then 2 else 3)
         else if prev == CONFIGURE then (if state == TIMEOUT then 4 else 5)
         else if prev == DATA_CHECK then (if state == TIMEOUT then 6 else 7)
         else if state == RUN then 8 else 9;
  }

  lemma LatestInList(prev: nat, state: nat)
    ensures Latest(STATES, prev, state) == RowFor(false, prev, state)
  {
    ListEnds();
    LatestIs(STATES, 10, prev, state);
    match Latest(STATES, prev, state)
    case Some(r) =>
      var i: nat :| LastRow(STATES, 10, i, prev, state) && r == STATES[i];
      OneRowEach(i);
    case None =>
      if RowFor(false, prev, state).Some? {
        var i := SomeRow(prev, state);
      }
  }

  lemma LatestBehind(r: Row, rows: seq<Row>, prev: nat, state: nat)
    requires r.state != 0
    ensures var later := Latest(rows, prev, state);
            Latest([r] + rows, prev, state) ==
            if later.Some? then later else if r.prev == prev && r.state == state then Some(r) else None
  {
    assert ([r] + rows)[1..] == rows;
  }

  lemma LatestOfVendor(prev: nat, state: nat)
    ensures Latest(VENDOR_STATES, prev, state) ==
            if prev == CONFIGURE && state == DATA_CHECK
            then Some(Row(CONFIGURE, DATA_CHECK, None, 0, 1, DATA_CHECK, RUN)) else None
  {
    assert |VENDOR_STATES| == 2 && VENDOR_STATES[1].state == 0;
    assert VENDOR_STATES[0] == Row(CONFIGURE, DATA_CHECK, None, 0, 1, DATA_CHECK, RUN);
    assert RowsEnd(VENDOR_STATES, 1);
    LatestIs(VENDOR_STATES, 1, prev, state);
  }

  lemma LatestInLayer(discovery: bool, prev: nat, state: nat)
    ensures Latest(Layer(discovery), prev, state) ==
            if discovery && prev == STATE_NONE && state == DISCOVERY
            then Some(Row(STATE_NONE, DISCOVERY, None, 0, 0, 0, 0))
            else RowFor(false, prev, state)
  {
    LatestInList(prev, state);
    if discovery {
      LatestBehind(Plain(STATE_NONE, DISCOVERY, 0), STATES, prev, state);
    }
  }

  lemma InBaseTable(discovery: bool, prev: nat, state: nat)
    ensures Sorted(LoadAll([], Layer(discovery)))
    ensures Lookup(LoadAll([], Layer(discovery)), prev, state) == Latest(Layer(discovery), prev, state)
  {
    LatestWins([], Layer(discovery), prev, state);
  }

  lemma InAcTable(discovery: bool, vendor: bool, prev: nat, state: nat)
    ensures var top := if vendor then Latest(VENDOR_STATES, prev, state) else None;
            Lookup(AcTable(discovery, vendor), prev, state) ==
            if top.Some? then top else Latest(Layer(discovery), prev, state)
  {
    InBaseTable(discovery, prev, state);
    if vendor {
      LatestWins(LoadAll([], Layer(discovery)), VENDOR_STATES, prev, state);
    }
  }

  /** The whole table: these transitions are found, with these timers and return values, and no others. */
  lemma AcTableIs(discovery: bool, vendor: bool, prev: nat, state: nat)
    ensures Lookup(AcTable(discovery, vendor), prev, state) ==
            if discovery && prev == STATE_NONE && state == DISCOVERY
            then Some(Row(STATE_NONE, DISCOVERY, None, 0, 0, 0, 0))
            else RowFor(vendor, prev, state)
  {
    InAcTable(discovery, vendor, prev, state);
    LatestInLayer(discovery, prev, state);
    LatestOfVendor(prev, state);
  }
}
