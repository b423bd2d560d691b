/** No command is stranded: while the manager is up and the firmware answers what it was
    given, some step is always possible, and every such step brings the queue closer to
    empty. */
module CmdProgress {
  import opened CmdModel
  import opened CmdProtocol
  import opened CmdOutcomes
  import opened CmdTheorems

  /** Answers a command still waits for, an ACK counting for more than the steps that its
      successor needs to get to the firmware. */
  function Weight(c: Cmd): nat {
    (if c.waitAck then 5 else 0) + (if c.waitCfm then 1 else 0)
  }

  function Total(q: seq<Cmd>): nat {
    if q == [] then 0 else Weight(q[0]) + Total(q[1..])
  }

  function Rank(ph: Phase): nat {
    match ph
    case AtCaller => 4
    case Signalled => 3
    case Taken => 2
    case InHand => 1
    case InFlight => 0
  }

  function Distance(s: Sys): nat {
    Total(s.m.q) + Rank(PhaseOf(s))
  }

  lemma {:induction false} TotalSplit(a: seq<Cmd>, b: seq<Cmd>)
    ensures Total(a + b) == Total(a) + Total(b)
  {
    if a == [] {
      assert a + b == b;
    } else {
      assert (a + b)[0] == a[0] && (a + b)[1..] == a[1..] + b;
      TotalSplit(a[1..], b);
    }
  }

  lemma TotalAt(q: seq<Cmd>, i: nat)
    requires i < |q|
    ensures Total(q) == Total(q[..i]) + Weight(q[i]) + Total(q[i + 1..])
  {
    assert q == q[..i] + q[i..];
    TotalSplit(q[..i], q[i..]);
    assert q[i..][1..] == q[i + 1..];
  }

  lemma TotalUpdate(q: seq<Cmd>, i: nat, c: Cmd)
    requires i < |q|
    ensures Total(q[i := c]) == Total(q) - Weight(q[i]) + Weight(c)
  {
    TotalAt(q, i);
    TotalAt(q[i := c], i);
    assert q[i := c][..i] == q[..i] && q[i := c][i + 1..] == q[i + 1..];
  }

  lemma TotalWithout(q: seq<Cmd>, i: nat)
    requires i < |q|
    ensures Total(Without(q, i)) == Total(q) - Weight(q[i])
  {
    TotalAt(q, i);
    TotalSplit(q[..i], q[i + 1..]);
  }

  /** Steps that serve the commands already accepted. */
  ghost predicate Serves(s: Sys, e: Event) {
    && Enabled(s, e)
    && match e
       case CallerPush(_) => true
       case WorkerWake => true
       case WorkerFind => true
       case WorkerPush => true
       case Ack(_) => true
       case Message(reqid, accepts) => FirstTaker(s.m.q, reqid, accepts) < |s.m.q|
       case _ => false
  }

  lemma CallerNearer(s: Sys, n: nat)
    requires s.m.mode.Inited? && InvUp(s) && Enabled(s, CallerPush(n))
    ensures Distance(Apply(s, CallerPush(n))) < Distance(s)
  {
    var k := if s.bus.Pcie? then 0 else FirstUnacked(s.m.q);
    IndexUnique(s.m.q, k);
    TotalUpdate(s.m.q, k, s.m.q[k].(waitPush := true));
  }

  lemma WorkerNearer(s: Sys, e: Event)
    requires s.m.mode.Inited? && !s.bus.Pcie? && InvThreaded(s) && Enabled(s, e)
    requires e.WorkerWake? || e.WorkerFind?
    ensures Distance(Apply(s, e)) < Distance(s)
  {
    FirstWaitPushIs(s.m.q, 0, FirstUnacked(s.m.q));
  }

  lemma WorkerPushNearer(s: Sys)
    requires s.m.mode.Inited? && !s.bus.Pcie? && InvThreaded(s) && Enabled(s, WorkerPush)
    ensures Distance(Apply(s, WorkerPush)) < Distance(s)
  {
    var k := FirstUnacked(s.m.q);
    IndexUnique(s.m.q, k);
    TotalUpdate(s.m.q, k, s.m.q[k].(waitPush := false));
  }

  lemma HeadClosedTotal(m: Mgr)
    requires m.q != []
    ensures Total(HeadClosed(m).q) == Total(m.q) - Weight(m.q[0])
  {
    if |m.q| > 1 {
      TotalUpdate(m.q, 1, m.q[1].(waitPush := false));
      TotalWithout(Pushed(m, 1).q, 0);
    } else {
      TotalWithout(m.q, 0);
    }
  }

  lemma AckTotal(s: Sys, i: nat)
    requires InvUp(s) && PhaseOf(s).InFlight?
    requires i < |s.m.q| && s.m.q[i].waitAck && i == if s.bus.Pcie? then 0 else FirstUnacked(s.m.q)
    ensures Total(Acked(s.bus, s.m, i).q) == Total(s.m.q) - 5
  {
    var c := s.m.q[i].(waitAck := false);
    var m1 := s.m.(q := s.m.q[i := c]);
    TotalUpdate(s.m.q, i, c);
    TotalWithout(m1.q, i);
    if s.bus.Pcie? {
      AckedPcie(s.bus, s.m);
      HeadClosedTotal(m1);
    } else {
      AckedThreaded(s.bus, s.m, i);
    }
  }

  lemma AckNearer(s: Sys, n: nat)
    requires s.m.mode.Inited? && InvUp(s) && Enabled(s, Ack(n))
    ensures Distance(Apply(s, Ack(n))) < Distance(s)
  {
    AckTarget(s, n);
    AckIs(s, n);
    AckTotal(s, IndexOf(s.m.q, n));
  }

  lemma ConfirmTotal(s: Sys, reqid: nat, accepts: set<nat>)
    requires InvUp(s) && FirstTaker(s.m.q, reqid, accepts) < |s.m.q|
    ensures Total(Confirmed(s.bus, s.m, reqid, accepts).q) == Total(s.m.q) - 1
  {
    var i := FirstTaker(s.m.q, reqid, accepts);
    var c := s.m.q[i].(waitCfm := false);
    var m1 := s.m.(q := s.m.q[i := c]);
    TotalUpdate(s.m.q, i, c);
    if !c.waitAck {
      TotalWithout(m1.q, i);
      if s.bus.Pcie? { HeadClosedTotal(m1); }
    }
  }

  lemma MessageNearer(s: Sys, reqid: nat, accepts: set<nat>)
    requires s.m.mode.Inited? && InvUp(s) && Serves(s, Message(reqid, accepts))
    ensures Distance(Apply(s, Message(reqid, accepts))) < Distance(s)
  {
    ConfirmTotal(s, reqid, accepts);
    PhaseKept(s, reqid, accepts);
  }

  lemma PhaseKept(s: Sys, reqid: nat, accepts: set<nat>)
    ensures PhaseOf(Apply(s, Message(reqid, accepts))) == PhaseOf(s)
  {
  }

  /** Every serving step brings the queue closer to empty. */
  lemma ServingNearer(s: Sys, e: Event)
    requires s.m.mode.Inited? && InvUp(s) && Serves(s, e)
    ensures Distance(Apply(s, e)) < Distance(s)
  {
    match e
    case CallerPush(n) => CallerNearer(s, n);
    case Ack(n) => AckNearer(s, n);
    case Message(r, a) => MessageNearer(s, r, a);
    case WorkerPush => if s.bus.Pcie? { WorkerUnused(s); } else { WorkerPushNearer(s); }
    case _ => if s.bus.Pcie? { WorkerUnused(s); } else { WorkerNearer(s, e); }
  }

  /** While a command is queued, some serving step is possible. */
  lemma NeverStuck(s: Sys) returns (e: Event)
    requires s.m.mode.Inited? && InvUp(s) && Ledger(s) && s.m.q != []
    ensures Serves(s, e)
  {
    var q := s.m.q;
    var k := if s.bus.Pcie? then 0 else FirstUnacked(q);
    if k < |q| && q[k].waitAck {
      IndexUnique(q, k);
      var c := q[k];
      match PhaseOf(s)
      case AtCaller => e := CallerPush(c.num);
      case Signalled => e := WorkerWake;
      case Taken => e := WorkerFind;
      case InHand => e := WorkerPush;
      case InFlight =>
        e := Ack(c.num);
        assert s.m.pushed[c.num] == c.num;
    } else {
      e := Message(q[0].req.reqid, {q[0].num});
      assert Takes(q[0], q[0].req.reqid, {q[0].num});
    }
  }

  /** No run of serving steps alone is longer than the distance at its start. */
  lemma {:induction false} ServingEnds(s: Sys, es: seq<Event>)
    requires s.m.mode.Inited? && Inv(s) && AllServe(s, es)
    ensures |es| <= Distance(s)
    decreases |es|
  {
    if es != [] {
      ServingNearer(s, es[0]);
      StepKeeps(s, es[0]);
      StepFrame(s, es[0]);
      ServingEnds(Apply(s, es[0]), es[1..]);
    }
  }

  ghost predicate AllServe(s: Sys, es: seq<Event>)
    decreases |es|
  {
    es == [] || (Serves(s, es[0]) && AllServe(Apply(s, es[0]), es[1..]))
  }

  /** From every reachable state with the manager up, serving steps empty the queue, after
      which every accepted command has both its answers and result 0 if it blocks. */
  lemma {:induction false} Empties(s: Sys) returns (es: seq<Event>)
    requires s.m.mode.Inited? && Inv(s) && Ledger(s)
    ensures AllServe(s, es) && Run(s, es)
    ensures
      var s' := After(s, es);
      && s'.m.q == [] && s'.m.accepted == s.m.accepted
      && forall n :: 0 <= n < s.m.accepted ==>
           n in s'.gone && Answered(s', n, s'.gone[n].req) &&
           (s'.gone[n].req.nonblock || s'.gone[n].result == 0)
    decreases Distance(s)
  {
    if s.m.q == [] {
      es := [];
      assert forall n :: 0 <= n < s.m.accepted ==> n in s.gone && Settled(s, n, s.gone[n]);
    } else {
      var e := NeverStuck(s);
      ServingNearer(s, e);
      StepKeeps(s, e);
      StepFrame(s, e);
      StepLedger(s, e);
      AcceptsNone(s, e);
      var rest := Empties(Apply(s, e));
      es := [e] + rest;
      assert es[1..] == rest;
    }
  }

  lemma AcceptsNone(s: Sys, e: Event)
    requires Serves(s, e)
    ensures Apply(s, e).m.accepted == s.m.accepted
  {
  }
}
