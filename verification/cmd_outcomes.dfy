/** What becomes of each command, on every bus and over every run, crashed ones included. */
module CmdOutcomes {
  import opened CmdModel
  import opened CmdProtocol

  /** The ACK of command `n` was processed and, if a confirmation was requested, so was a
      message with the identifier it asked for. */
  ghost predicate Answered(s: Sys, n: nat, r: Request) {
    n in s.ackSeen && (r.reqCfm ==> n in s.cfmSeen && s.cfmSeen[n] == r.reqid)
  }

  /** A queued command is open, and its wait flags say which answers are missing. */
  ghost predicate Open(s: Sys, c: Cmd) {
    && !c.done && c.result == EINTR && c.signals == 0
    && (c.waitAck <==> c.num !in s.ackSeen)
    && (c.waitCfm <==> c.req.reqCfm && c.num !in s.cfmSeen)
    && (c.num in s.cfmSeen ==> s.cfmSeen[c.num] == c.req.reqid)
    && !c.WaitComplete()
  }

  /** A command that left the queue: completed, timed out (which crashes the manager) or
      drained (which takes the manager down, crashed before or not). */
  ghost predicate Settled(s: Sys, n: nat, c: Cmd) {
    && c.num == n
    && if Answered(s, n, c.req) then c.done && (!c.req.nonblock ==> c.result == 0 && c.signals == 1)
       else if c.done then s.crashed && c.result == ETIMEDOUT && c.signals == 0
       else s.m.mode.Deinit? && c.result == EINTR && c.signals == if c.req.nonblock then 0 else 1
  }

  ghost predicate Ledger(s: Sys) {
    && Counted(s.m) && (s.m.mode.Crashed? ==> s.crashed) && (s.m.mode.Inited? ==> !s.crashed)
    && (forall n :: n in s.ackSeen || n in s.cfmSeen ==> n < s.m.accepted)
    && (forall i :: 0 <= i < |s.m.q| ==> Open(s, s.m.q[i]) && s.m.q[i].num !in s.gone)
    && (forall n :: n in s.gone ==> n < s.m.accepted && Settled(s, n, s.gone[n]))
    && (forall n :: 0 <= n < s.m.accepted && n !in s.gone ==> InQueue(s.m.q, n))
  }

  // ---------------------------------------------------------------- shape of a step

  /** The same command, apart from WAIT_PUSH. */
  ghost predicate Near(c: Cmd, d: Cmd) {
    d == c.(waitPush := d.waitPush)
  }

  /** Command `i` became `c`; nothing else changed but WAIT_PUSH. */
  ghost predicate Edited(q: seq<Cmd>, q': seq<Cmd>, i: nat, c: Cmd)
    requires i < |q|
  {
    |q'| == |q| && Near(c, q'[i]) && forall j :: 0 <= j < |q| && j != i ==> Near(q[j], q'[j])
  }

  /** Command `i` was unlinked; nothing else changed but WAIT_PUSH. */
  ghost predicate Cut(q: seq<Cmd>, q': seq<Cmd>, i: nat)
    requires i < |q|
  {
    |q'| == |q| - 1 && forall j :: 0 <= j < |q'| ==> Near(q[if j < i then j else j + 1], q'[j])
  }

  lemma Present(q: seq<Cmd>, i: nat)
    requires i < |q|
    ensures InQueue(q, q[i].num)
  {
  }

  /** The lists before and after a step hold the same numbers, except that of a command cut. */
  lemma SameNumbers(q: seq<Cmd>, q': seq<Cmd>, n: nat, i: nat)
    requires i < |q| && InQueue(q, n)
    requires
      || (|q'| == |q| && forall j :: 0 <= j < |q| ==> q'[j].num == q[j].num)
      || (Cut(q, q', i) && q[i].num != n)
    ensures InQueue(q', n)
  {
    var j := IndexOf(q, n);
    if |q'| == |q| { Present(q', j); } else { Present(q', if j < i then j else j - 1); }
  }

  /** `s'` differs from `s` in the queue and in what was seen of command `n`. */
  ghost predicate Touches(s: Sys, s': Sys, n: nat) {
    && Counted(s'.m) && s'.m.accepted == s.m.accepted
    && ((s'.m.mode == s.m.mode && s'.crashed == s.crashed) || (!s.m.mode.Deinit? && s'.m.mode.Crashed? && s'.crashed))
    && s.ackSeen <= s'.ackSeen <= s.ackSeen + {n}
    && (s'.cfmSeen == s.cfmSeen || (n in s'.cfmSeen && s'.cfmSeen == s.cfmSeen[n := s'.cfmSeen[n]]))
  }

  lemma LedgerEdited(s: Sys, s': Sys, i: nat, c: Cmd)
    requires Ledger(s) && i < |s.m.q| && c.num == s.m.q[i].num
    requires Touches(s, s', c.num) && s'.gone == s.gone
    requires Edited(s.m.q, s'.m.q, i, c) && Open(s', c)
    ensures Ledger(s')
  {
    var q, q' := s.m.q, s'.m.q;
    forall j | 0 <= j < |q'|
      ensures Open(s', q'[j]) && q'[j].num !in s'.gone
    {
      assert j != i ==> q[j].num != q[i].num;
    }
    forall n | 0 <= n < s.m.accepted && n !in s.gone
      ensures InQueue(q', n)
    {
      SameNumbers(q, q', n, i);
    }
  }

  lemma LedgerCut(s: Sys, s': Sys, i: nat, c: Cmd)
    requires Ledger(s) && i < |s.m.q| && c.num == s.m.q[i].num
    requires Touches(s, s', c.num) && s'.gone == s.gone[c.num := c]
    requires Cut(s.m.q, s'.m.q, i) && Settled(s', c.num, c)
    ensures Ledger(s')
  {
    var q, q' := s.m.q, s'.m.q;
    forall j | 0 <= j < |q'|
      ensures Open(s', q'[j]) && q'[j].num !in s'.gone
    {
      var l := if j < i then j else j + 1;
      assert q[l].num != q[i].num;
    }
    forall n | 0 <= n < s.m.accepted && n !in s'.gone
      ensures InQueue(q', n)
    {
      SameNumbers(q, q', n, i);
    }
  }

  lemma EditShape(m: Mgr, i: nat, c: Cmd)
    requires Counted(m) && i < |m.q| && c.num == m.q[i].num && c.tkn == m.q[i].tkn
    ensures Counted(m.(q := m.q[i := c])) && Edited(m.q, m.q[i := c], i, c)
  {
    CountedFlags(m, i, c);
  }

  lemma PushShape(q: seq<Cmd>, m1: Mgr, i: nat, c: Cmd, j: nat)
    requires i < |q| && Edited(q, m1.q, i, c) && Counted(m1) && j < |q|
    ensures Counted(Pushed(m1, j)) && Edited(q, Pushed(m1, j).q, i, c)
  {
    CountedFlags(m1, j, m1.q[j].(waitPush := false));
  }

  lemma CutShape(q: seq<Cmd>, m2: Mgr, i: nat, c: Cmd)
    requires i < |q| && Edited(q, m2.q, i, c) && Counted(m2)
    ensures Counted(Unlinked(m2, i)) && Cut(q, Unlinked(m2, i).q, i)
  {
    CountedUnlink(m2, i);
  }

  lemma AckClosesShape(bus: Bus, m: Mgr, i: nat)
    requires i < |m.q| && Counted(m) && AckHit(m.q, m.q[i].tkn) < |m.q| && !m.q[i].waitCfm
    ensures Counted(Acked(bus, m, i)) && Cut(m.q, Acked(bus, m, i).q, i)
  {
    var next := AckNext(m.q, m.q[i].tkn);
    var c := m.q[i].(waitAck := false);
    var m1 := m.(q := m.q[i := c]);
    EditShape(m, i, c);
    CutShape(m.q, m1, i, c);
    if next < |m.q| {
      PushShape(m.q, m1, i, c, next);
      CutShape(m.q, Pushed(m1, next), i, c);
    }
  }

  /** Handling an ACK, whatever the flags on the list. */
  lemma AckedShape(bus: Bus, m: Mgr, i: nat)
    requires i < |m.q| && Counted(m)
    ensures Counted(Acked(bus, m, i))
    ensures
      var q' := Acked(bus, m, i).q;
      if AckHit(m.q, m.q[i].tkn) == |m.q| then Edited(m.q, q', i, m.q[i])
      else if m.q[i].waitCfm then Edited(m.q, q', i, m.q[i].(waitAck := false))
      else Cut(m.q, q', i)
  {
    if AckHit(m.q, m.q[i].tkn) < |m.q| && !m.q[i].waitCfm {
      AckClosesShape(bus, m, i);
    } else {
      EditShape(m, i, m.q[i].(waitAck := false));
    }
  }

  lemma ConfirmedShape(bus: Bus, m: Mgr, reqid: nat, accepts: set<nat>)
    requires Counted(m) && FirstTaker(m.q, reqid, accepts) < |m.q|
    ensures Counted(Confirmed(bus, m, reqid, accepts))
    ensures
      var q' := Confirmed(bus, m, reqid, accepts).q;
      var i := FirstTaker(m.q, reqid, accepts);
      if m.q[i].waitAck then Edited(m.q, q', i, m.q[i].(waitCfm := false))
      else Cut(m.q, q', i)
  {
    var i := FirstTaker(m.q, reqid, accepts);
    var c := m.q[i].(waitCfm := false);
    var m1 := m.(q := m.q[i := c]);
    EditShape(m, i, c);
    if !c.waitAck {
      CutShape(m.q, m1, i, c);
      if i + 1 < |m.q| {
        PushShape(m.q, m1, i, c, i + 1);
        CutShape(m.q, Pushed(m1, i + 1), i, c);
      }
    }
  }

  // ---------------------------------------------------------------- steps

  lemma LedgerAppend(s: Sys, s': Sys, c: Cmd)
    requires Ledger(s) && s'.m.q == s.m.q + [c] && c.num == s.m.accepted
    requires s'.m.accepted == s.m.accepted + 1 && s'.m.mode == s.m.mode && s'.crashed == s.crashed && Counted(s'.m)
    requires s'.ackSeen == s.ackSeen && s'.cfmSeen == s.cfmSeen && s'.gone == s.gone
    requires Open(s', c)
    ensures Ledger(s')
  {
    var q, q' := s.m.q, s'.m.q;
    forall n | 0 <= n < s'.m.accepted && n !in s.gone
      ensures InQueue(q', n)
    {
      AppendedPresent(q, c, n);
    }
    forall n | n in s'.gone
      ensures n < s'.m.accepted && Settled(s', n, s'.gone[n])
    {
      assert Settled(s, n, s.gone[n]);
    }
  }

  lemma AppendedPresent(q: seq<Cmd>, c: Cmd, n: nat)
    requires n == c.num || InQueue(q, n)
    ensures InQueue(q + [c], n)
  {
    Present(q + [c], if InQueue(q, n) then IndexOf(q, n) else |q|);
  }

  lemma SubmitLedger(s: Sys, r: Request)
    requires Ledger(s) && s.m.maxSz > 0 && Enabled(s, Submit(r))
    ensures Ledger(Apply(s, Submit(r)))
  {
    if Judge(s.bus, s.m).Accepted? {
      CountedAppend(s.bus, s.m, r);
      LedgerAppend(s, Apply(s, Submit(r)), Stamped(s.m, r, Judge(s.bus, s.m).defer));
    }
  }

  lemma CallerPushLedger(s: Sys, n: nat)
    requires Ledger(s) && Enabled(s, CallerPush(n))
    ensures Ledger(Apply(s, CallerPush(n)))
  {
    var i := IndexOf(s.m.q, n);
    if i < |s.m.q| {
      var c := s.m.q[i].(waitPush := true);
      EditShape(s.m, i, c);
      EditShape(s.m, i, s.m.q[i]);
      LedgerEdited(s, Apply(s, CallerPush(n)), i, s.m.q[i]);
    }
  }

  lemma WorkerPushLedger(s: Sys)
    requires Ledger(s) && Enabled(s, WorkerPush)
    ensures Ledger(Apply(s, WorkerPush))
  {
    var i := IndexOf(s.m.q, s.worker.num);
    if i < |s.m.q| {
      EditShape(s.m, i, s.m.q[i]);
      PushShape(s.m.q, s.m, i, s.m.q[i], i);
      LedgerEdited(s, Apply(s, WorkerPush), i, s.m.q[i]);
    }
  }

  lemma AckLedger(s: Sys, n: nat)
    requires Ledger(s) && Enabled(s, Ack(n))
    ensures Ledger(Apply(s, Ack(n)))
  {
    var i := IndexOf(s.m.q, n);
    var s' := Apply(s, Ack(n));
    AckedShape(s.bus, s.m, i);
    if AckHit(s.m.q, s.m.q[i].tkn) == |s.m.q| {
      LedgerEdited(s, s', i, s.m.q[i]);
    } else {
      AckHitLedger(s, n, i, s');
    }
  }

  /** The ACK of command `i`, when the lookup finds a command. */
  lemma AckHitLedger(s: Sys, n: nat, i: nat, s': Sys)
    requires Ledger(s) && i < |s.m.q| && s.m.q[i].num == n && i == IndexOf(s.m.q, n)
    requires s' == AfterAck(s, n) && AckHit(s.m.q, s.m.q[i].tkn) < |s.m.q|
    requires Counted(s'.m)
    requires
      if s.m.q[i].waitCfm then Edited(s.m.q, s'.m.q, i, s.m.q[i].(waitAck := false)) else Cut(s.m.q, s'.m.q, i)
    ensures Ledger(s')
  {
    var c := s.m.q[i].(waitAck := false);
    if c.waitCfm {
      LedgerEdited(s, s', i, c);
    } else {
      LedgerCut(s, s', i, c.Closed());
    }
  }

  lemma MessageLedger(s: Sys, reqid: nat, accepts: set<nat>)
    requires Ledger(s)
    ensures Ledger(Apply(s, Message(reqid, accepts)))
  {
    var i := FirstTaker(s.m.q, reqid, accepts);
    if i < |s.m.q| {
      var s' := Apply(s, Message(reqid, accepts));
      ConfirmedShape(s.bus, s.m, reqid, accepts);
      var c := s.m.q[i].(waitCfm := false);
      if c.waitAck { LedgerEdited(s, s', i, c); } else { LedgerCut(s, s', i, c.Closed()); }
    }
  }

  lemma TimeoutLedger(s: Sys, n: nat)
    requires Ledger(s) && Enabled(s, Timeout(n))
    ensures Ledger(Apply(s, Timeout(n)))
  {
    var i := IndexOf(s.m.q, n);
    if i < |s.m.q| {
      TimeoutCut(s, i, Apply(s, Timeout(n)));
    }
  }

  /** Command `i` timed out, or was answered before. */
  lemma TimeoutCut(s: Sys, i: nat, s': Sys)
    requires Ledger(s) && i < |s.m.q| && !s.m.q[i].req.nonblock && !s.m.mode.Deinit?
    requires
      var c := s.m.q[i].(result := ETIMEDOUT).Closed();
      s' == s.(crashed := true, m := TimedOut(s.m, i), gone := s.gone[c.num := c])
    ensures Ledger(s')
  {
    var c := s.m.q[i].(result := ETIMEDOUT).Closed();
    TimeoutShape(s.m, i);
    assert Open(s, s.m.q[i]);
    LedgerCut(s, s', i, c);
  }

  lemma TimeoutShape(m: Mgr, i: nat)
    requires Counted(m) && i < |m.q| && !m.q[i].done
    ensures Counted(TimedOut(m, i)) && Cut(m.q, TimedOut(m, i).q, i)
    ensures TimedOut(m, i).accepted == m.accepted && TimedOut(m, i).mode.Crashed?
  {
    EditShape(m, i, m.q[i]);
    CutShape(m.q, m.(mode := Crashed), i, m.q[i]);
  }

  lemma DrainLedger(s: Sys)
    requires Ledger(s) && Enabled(s, Drain)
    ensures Ledger(Apply(s, Drain))
  {
    var s' := Apply(s, Drain);
    forall n | n in s'.gone
      ensures n < s'.m.accepted && Settled(s', n, s'.gone[n])
    {
      if InQueue(s.m.q, n) {
        assert Open(s, s.m.q[IndexOf(s.m.q, n)]);
      } else {
        assert Settled(s, n, s.gone[n]);
      }
    }
  }

  lemma StepLedger(s: Sys, e: Event)
    requires Ledger(s) && s.m.maxSz > 0 && Enabled(s, e)
    ensures Ledger(Apply(s, e))
  {
    match e
    case Submit(r) => SubmitLedger(s, r);
    case CallerPush(n) => CallerPushLedger(s, n);
    case Ack(n) => AckLedger(s, n);
    case Message(r, a) => MessageLedger(s, r, a);
    case WorkerWake => IdleLedger(s, e);
    case WorkerFind => IdleLedger(s, e);
    case WorkerPush => WorkerPushLedger(s);
    case Timeout(n) => TimeoutLedger(s, n);
    case Drain => DrainLedger(s);
  }

  lemma IdleLedger(s: Sys, e: Event)
    requires Ledger(s) && Enabled(s, e) && (e.WorkerWake? || e.WorkerFind?)
    ensures Ledger(Apply(s, e))
  {
    LedgerSame(s, Apply(s, e));
  }

  lemma LedgerSame(s: Sys, s': Sys)
    requires Ledger(s) && s'.m == s.m.(sem := s'.m.sem)
    requires s'.gone == s.gone && s'.ackSeen == s.ackSeen && s'.cfmSeen == s.cfmSeen && s'.crashed == s.crashed
    ensures Ledger(s')
  {
    assert forall n :: n in s.gone ==> Settled(s, n, s.gone[n]);
  }

  /** The books balance after every run. */
  lemma {:induction false} RunLedger(s: Sys, es: seq<Event>)
    requires Ledger(s) && s.m.maxSz > 0 && Run(s, es)
    ensures Ledger(After(s, es))
    decreases |es|
  {
    if es != [] {
      StepLedger(s, es[0]);
      StepFrame(s, es[0]);
      RunLedger(Apply(s, es[0]), es[1..]);
    }
  }
}
