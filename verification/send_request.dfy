/** The other side of the window: a request is sent again until something is read or the attempts are
    used up. */
module SendRequest {
  import opened Prelude
  import opened RequestWindow

  /** What reading brings: a return code, and whether an error only means "try again". */
  datatype Read = Read(rc: int, again: bool)

  datatype Error = NoError | Failed | TimedOut

  /** A read that ends the waiting. */
  predicate Decisive(r: Read) { r.rc >= 0 || !r.again }

  /** The inner loop: the last read after an interval, `w` being the one before it. */
  function Interval(w: Read, got: seq<Read>): Read
    decreases |got|
  {
    if got == [] || w.rc >= 0 then w
    else if Decisive(got[0]) then got[0]
    else Interval(got[0], got[1..])
  }

  /** The outer loop from attempt `i` on: how many copies go out, and the last read. `got(i)` is what
      the interval behind the i-th copy brings. */
  function Attempts(w: Read, i: nat, max: nat, got: nat -> seq<Read>): (nat, Read)
    requires i <= max
    decreases max - i
  {
    if i == max || w.rc >= 0 then (0, w)
    else
      var v := Interval(w, got(i));
      if v.rc < 0 && !v.again then (1, v)
      else var (n, last) := Attempts(v, i + 1, max, got); (n + 1, last)
  }

  /** Its two loops; `errno` says whether the error left by earlier calls is "try again". */
  method CwSendRequest(m: Msg, max: nat, got: nat -> seq<Read>, errno: bool)
    returns (sent: seq<Msg>, rc: int, error: Error)
    ensures var (n, last) := Attempts(Read(-1, errno), 0, max, got);
            && |sent| == n && (forall k :: k in sent ==> k == m)
            && (rc, error) == if last.rc >= 0 then (last.rc, NoError)
                              else if last.again then (-1, TimedOut) else (last.rc, Failed)
  {
    sent := [];
    var w := Read(-1, errno);
    var i := 0;
    while i < max && w.rc < 0
      invariant i <= max && |sent| == i && forall k :: k in sent ==> k == m
      invariant var (n, last) := Attempts(Read(-1, errno), 0, max, got);
                Attempts(w, i, max, got) == (n - i, last)
    {
      sent := sent + [m];
      w := WaitForReply(w, got(i));
      i := i + 1;
      if w.rc < 0 && !w.again {
        break;
      }
    }
    if w.rc < 0 && !w.again {
      return sent, w.rc, Failed;
    }
    if w.rc < 0 {
      return sent, -1, TimedOut;
    }
    return sent, w.rc, NoError;
  }

  method WaitForReply(w0: Read, got: seq<Read>) returns (w: Read)
    requires w0.rc < 0
    ensures w == Interval(w0, got)
  {
    w := w0;
    var i := 0;
    assert got[0..] == got;
    while i < |got| && w.rc < 0
      invariant i <= |got| && Interval(w, got[i..]) == Interval(w0, got)
    {
      assert got[i..][0] == got[i] && got[i..][1..] == got[i + 1..];
      w := got[i];
      i := i + 1;
      if w.rc < 0 && !w.again {
        return;
      }
    }
  }

  // ----- what the caller relies on -----

  ghost predicate Quiet(got: seq<Read>) { forall r :: r in got ==> !Decisive(r) }

  /** The first read that ends the waiting decides; an interval without one ends in "try again", or,
      without any read, as it began. */
  lemma {:induction false} IntervalResult(w: Read, got: seq<Read>)
    requires w.rc < 0
    ensures var v := Interval(w, got);
            && (Quiet(got) ==> v.rc < 0 && v.again == if got == [] then w.again else true)
            && (!Quiet(got) ==> exists k :: 0 <= k < |got| && got[k] == v && Decisive(v) && Quiet(got[..k]))
    decreases |got|
  {
    if got != [] {
      assert got[0] in got;
      assert forall r :: r in got <==> r == got[0] || r in got[1..];
      if Decisive(got[0]) {
        assert got[..0] == [];
      } else {
        IntervalResult(got[0], got[1..]);
        if !Quiet(got[1..]) {
          var v := Interval(w, got);
          var k :| 0 <= k < |got[1..]| && got[1..][k] == v && Decisive(v) && Quiet(got[1..][..k]);
          assert got[..k + 1] == [got[0]] + got[1..][..k] && got[k + 1] == v;
        }
      }
    }
  }

  /** An interval without a read takes an old error that is not "try again" for its own. */
  predicate StaleError(w: Read, got: seq<Read>) { got == [] && !w.again }

  /** Copies go out until the first interval in which a read decides, and never more than allowed: all
      of them if there is none. But with an error left by earlier calls that is not "try again", and no
      read in the first interval, one copy goes out and that error ends the sending. */
  lemma {:induction false} SentUntilDecided(w: Read, i: nat, max: nat, got: nat -> seq<Read>)
    requires i < max && w.rc < 0
    ensures var (n, last) := Attempts(w, i, max, got);
            && 0 < n <= max - i
            && (forall j: nat :: i <= j < i + n - 1 ==> Quiet(got(j)))
            && if StaleError(w, got(i)) then n == 1 && last == w
               else if Decisive(last) then !Quiet(got(i + n - 1)) && last in got(i + n - 1)
               else n == max - i && forall j: nat :: i <= j < max ==> Quiet(got(j))
    decreases max - i
  {
    IntervalResult(w, got(i));
    var v := Interval(w, got(i));
    if !Decisive(v) && i + 1 < max {
      SentUntilDecided(v, i + 1, max, got);
    }
  }

  /** So sending fails, with no read that failed, exactly when such an error is left behind and nothing
      is read after the first copy. */
  lemma FailsUnread(max: nat, got: nat -> seq<Read>, errno: bool)
    ensures var (n, last) := Attempts(Read(-1, errno), 0, max, got);
            last.rc < 0 && !last.again && (forall j: nat :: j < n ==> Quiet(got(j))) <==>
            !errno && (max == 0 || got(0) == [])
  {
    var w := Read(-1, errno);
    if 0 < max {
      SentUntilDecided(w, 0, max, got);
      var (n, last) := Attempts(w, 0, max, got);
      if !StaleError(w, got(0)) && Decisive(last) {
        assert !Quiet(got(n - 1));
      }
    }
  }

  // ----- both sides together -----

  /** The receiver of several copies, each with its own surroundings: the state it ends in, how many
      copies it processed, and what it sent. */
  function Serve(cfg: Config, c: State, m: Msg, envs: seq<Env>): (State, nat, seq<Reply>)
    decreases envs
  {
    if envs == [] then (c, 0, [])
    else
      var (d, out) := Process(cfg, c, m, envs[0]);
      var (final, n, replies) := Serve(cfg, d, m, envs[1..]);
      (final, if out.passed then n + 1 else n, if out.sent.Some? then [out.sent.value] + replies else replies)
  }

  lemma {:induction false} CopiesOnly(cfg: Config, c: State, m: Msg, envs: seq<Env>)
    requires Request(m) && c.last == m.seqnum && c.resp.kind == (m.kind + 1) % 0x1_0000_0000
    ensures var (final, n, replies) := Serve(cfg, c, m, envs);
            final == c && n == 0 && |replies| == |envs| && forall r :: r in replies ==> r == c.resp
    decreases envs
  {
    if envs != [] {
      SameKind(c.resp.kind, m.kind);
      CopiesOnly(cfg, c, m, envs[1..]);
    }
  }

  /** Of all copies of a new request that arrive in a row exactly the first is processed. If it is
      answered, every later copy brings the same response once more, even where the first was lost. */
  lemma AnsweredOnce(cfg: Config, c: State, m: Msg, envs: seq<Env>)
    requires Request(m) && Fresh(c.last, m.seqnum) && envs != [] && Answered(cfg, c, m, envs[0])
    ensures var (final, n, replies) := Serve(cfg, c, m, envs);
            && n == 1 && final == Process(cfg, c, m, envs[0]).0
            && |envs| - 1 <= |replies| <= |envs|
            && forall r :: r in replies ==> r == final.resp && r == ReplyTo(m, r.result)
  {
    var (d, out) := Process(cfg, c, m, envs[0]);
    CacheHoldsTheAnswer(cfg, c, m, envs[0]);
    CopiesOnly(cfg, d, m, envs[1..]);
  }
}
