/** What holds in every state that a freshly initialised command manager can reach. */
module CmdTheorems {
  import opened CmdModel
  import opened CmdProtocol
  import opened CmdOutcomes

  /** State after the run `es` of a manager that holds at most `maxSz` commands. */
  ghost function Reached(bus: Bus, maxSz: nat, es: seq<Event>): Sys {
    After(Init(bus, maxSz), es)
  }

  ghost predicate Possible(bus: Bus, maxSz: nat, es: seq<Event>) {
    maxSz > 0 && Run(Init(bus, maxSz), es)
  }

  lemma ReachedInv(bus: Bus, maxSz: nat, es: seq<Event>)
    requires Possible(bus, maxSz, es)
    ensures var s := Reached(bus, maxSz, es); Inv(s) && Ledger(s) && s.bus == bus && s.m.maxSz == maxSz
  {
    var s := Init(bus, maxSz);
    RunKeeps(s, es);
    RunLedger(s, es);
    RunBound(s, es);
  }

  lemma {:induction false} RunBound(s: Sys, es: seq<Event>)
    requires Run(s, es)
    ensures After(s, es).m.maxSz == s.m.maxSz
    decreases |es|
  {
    if es != [] {
      StepFrame(s, es[0]);
      RunBound(Apply(s, es[0]), es[1..]);
    }
  }

  // ---------------------------------------------------------------- release on SDIO and USB

  /** Positions of the commands pushed and not acknowledged. */
  ghost function InFlightAt(m: Mgr): set<nat> {
    set i | 0 <= i < |m.q| && m.q[i].waitAck && m.q[i].num in m.pushed
  }

  /** How many permits to push the next command exist: at its caller, on the semaphore,
      with the worker, or used up by a command in flight. */
  ghost function Permits(s: Sys): nat {
    |s.callers| + s.m.sem + (if s.worker.Idle? then 0 else 1) + |InFlightAt(s.m)|
  }

  lemma OneTurn(s: Sys, k: nat, c: Cmd)
    requires Counted(s.m) && k < |s.m.q| && c == s.m.q[k] && Turn(s, c) && c.waitAck
    requires forall i :: 0 <= i < k ==> !s.m.q[i].waitAck
    ensures Permits(s) == 1
  {
    var at := InFlightAt(s.m);
    assert forall i :: i in at ==> i == k by {
      assert forall i :: k < i < |s.m.q| ==> s.m.q[k].num < s.m.q[i].num;
    }
    if PhaseOf(s).InFlight? {
      assert c.num in s.m.pushed by { assert s.m.pushed[c.num] == c.num; }
      assert at == {k};
    } else {
      assert at == {};
    }
  }

  /** On SDIO and USB the commands waiting for their ACK are a suffix of the list, and
      there is one permit while that suffix is not empty, none otherwise. */
  lemma ThreadedPermits(bus: Bus, maxSz: nat, es: seq<Event>)
    requires !bus.Pcie? && Possible(bus, maxSz, es) && Reached(bus, maxSz, es).m.mode.Inited?
    ensures
      var s := Reached(bus, maxSz, es);
      && (forall i, j :: 0 <= i < j < |s.m.q| && s.m.q[i].waitAck ==> s.m.q[j].waitAck)
      && Permits(s) == (if exists i :: 0 <= i < |s.m.q| && s.m.q[i].waitAck then 1 else 0)
  {
    ReachedInv(bus, maxSz, es);
    var s := Reached(bus, maxSz, es);
    var k := FirstUnacked(s.m.q);
    if k < |s.m.q| {
      OneTurn(s, k, s.m.q[k]);
    } else {
      assert InFlightAt(s.m) == {};
    }
  }

  /** When the worker walks the list it finds a command in WAIT_PUSH, which is the first
      one still waiting for its ACK; it never takes the list head for a command; and the
      commands it and the callers hold on to are still on the list. */
  lemma WorkerFinds(bus: Bus, maxSz: nat, es: seq<Event>)
    requires Possible(bus, maxSz, es) && Reached(bus, maxSz, es).m.mode.Inited?
    ensures
      var s := Reached(bus, maxSz, es);
      var q := s.m.q;
      && !s.worker.Stray?
      && (s.worker.Woken? ==> FirstWaitPush(q) < |q| && FirstWaitPush(q) == FirstUnacked(q))
      && (s.worker.Holding? ==> InQueue(q, s.worker.num) && q[IndexOf(q, s.worker.num)].waitPush)
      && (forall n :: n in s.callers ==> InQueue(q, n))
  {
    ReachedInv(bus, maxSz, es);
    var s := Reached(bus, maxSz, es);
    var q := s.m.q;
    if !bus.Pcie? {
      var k := FirstUnacked(q);
      if k < |q| {
        if q[k].waitPush { FirstWaitPushIs(q, 0, k); }
        Present(q, k);
        IndexUnique(q, k);
      }
    } else if q != [] {
      Present(q, 0);
    }
  }

  // ---------------------------------------------------------------- release on PCIe

  /** On PCIe a non-empty queue has its head, and only its head, at the firmware or on the
      way there; all later commands are in WAIT_PUSH. */
  lemma PcieHeadOnly(bus: Bus, maxSz: nat, es: seq<Event>)
    requires bus.Pcie? && Possible(bus, maxSz, es) && Reached(bus, maxSz, es).m.mode.Inited?
    ensures
      var s := Reached(bus, maxSz, es);
      forall i :: 0 <= i < |s.m.q| ==>
        && (s.m.q[i].waitPush <==> i > 0)
        && (i == 0 <==> s.m.q[i].num in s.callers || s.m.q[i].num in s.m.pushed)
        && !(s.m.q[i].num in s.callers && s.m.q[i].num in s.m.pushed)
        && (i > 0 ==> s.m.q[i].waitAck)
  {
    ReachedInv(bus, maxSz, es);
    var s := Reached(bus, maxSz, es);
    if s.m.q != [] {
      var h := s.m.q[0].num;
      if !PhaseOf(s).AtCaller? { assert s.m.pushed[h] == h; }
      assert forall i :: 0 < i < |s.m.q| ==> s.m.q[i].num > h;
    }
  }

  /** On PCIe whatever closes the head pushes the next command in the same step. */
  lemma PcieReleases(bus: Bus, maxSz: nat, es: seq<Event>, e: Event)
    requires bus.Pcie? && Possible(bus, maxSz, es)
    requires var s := Reached(bus, maxSz, es); Enabled(s, e) && s.m.mode.Inited? && Apply(s, e).m.mode.Inited?
    ensures
      var s := Reached(bus, maxSz, es);
      var s' := Apply(s, e);
      |s'.m.q| < |s.m.q| ==>
        && |s'.m.q| == |s.m.q| - 1
        && s'.m.pushed == if |s.m.q| > 1 then s.m.pushed + [s.m.q[1].num] else s.m.pushed
  {
    ReachedInv(bus, maxSz, es);
    var s := Reached(bus, maxSz, es);
    match e
    case Ack(n) => AckTarget(s, n); AckedPcie(s.bus, s.m); AckIs(s, n);
    case Message(id, a) => if FirstTaker(s.m.q, id, a) < |s.m.q| { ConfirmedIsPcie(s.bus, s.m, id, a); }
    case CallerPush(n) =>
    case _ => if e.WorkerPush? { WorkerUnused(s); }
  }

  /** Counting modulo 2^32 from any number gives the same tokens. */
  lemma TokenOf(num: nat, accepted: nat, back: int)
    requires num == accepted + back
    ensures num % TKN_MOD == (accepted % TKN_MOD + back) % TKN_MOD
  {
    assert num == (accepted % TKN_MOD + back) + (accepted / TKN_MOD) * TKN_MOD;
  }

  lemma TokensApart(x: nat, y: nat)
    requires 0 < y - x < TKN_MOD
    ensures x % TKN_MOD != y % TKN_MOD
  {
    assert y == x + (y / TKN_MOD - x / TKN_MOD) * TKN_MOD + (y % TKN_MOD - x % TKN_MOD);
  }

  /** On PCIe the i-th queued command carries token next - size + i modulo 2^32.  So no two
      queued commands share a token, and the lookup of an ACK hits exactly its command. */
  lemma PcieTokens(bus: Bus, maxSz: nat, es: seq<Event>)
    requires bus.Pcie? && maxSz < TKN_MOD
    requires Possible(bus, maxSz, es) && Reached(bus, maxSz, es).m.mode.Inited?
    ensures
      var m := Reached(bus, maxSz, es).m;
      && (forall i :: 0 <= i < |m.q| ==> m.q[i].tkn == (m.nextTkn - m.queueSz + i) % TKN_MOD)
      && (forall i, j :: 0 <= i < j < |m.q| ==> m.q[i].tkn != m.q[j].tkn)
      && (m.q != [] ==> FirstTkn(m.q, m.q[0].tkn) == 0 && AckHit(m.q, m.q[0].tkn) == 0)
  {
    ReachedInv(bus, maxSz, es);
    TokensLine(Reached(bus, maxSz, es).m);
  }

  lemma TokensLine(m: Mgr)
    requires OneAtATime(m) && m.maxSz < TKN_MOD
    ensures forall i :: 0 <= i < |m.q| ==> m.q[i].tkn == (m.nextTkn - m.queueSz + i) % TKN_MOD
    ensures forall i, j :: 0 <= i < j < |m.q| ==> m.q[i].tkn != m.q[j].tkn
    ensures m.q != [] ==> FirstTkn(m.q, m.q[0].tkn) == 0 && AckHit(m.q, m.q[0].tkn) == 0
  {
    forall i | 0 <= i < |m.q|
      ensures m.q[i].tkn == (m.nextTkn - m.queueSz + i) % TKN_MOD
    {
      TokenOf(m.q[i].num, m.accepted, i - |m.q|);
    }
    forall i, j | 0 <= i < j < |m.q|
      ensures m.q[i].tkn != m.q[j].tkn
    {
      TokensApart(m.q[i].num, m.q[j].num);
    }
    if m.q != [] { AckLookup(m.q, 0); }
  }

  // ---------------------------------------------------------------- order of pushes

  /** What was accepted and not pushed is still queued. */
  lemma UnpushedQueued(s: Sys, n: nat)
    requires InvUp(s) && |s.m.pushed| <= n < s.m.accepted
    ensures InQueue(s.m.q, n)
  {
    var q := s.m.q;
    var k := if s.bus.Pcie? then 0 else FirstUnacked(q);
    assert k < |q| && q[k].num <= n;
    Present(q, n - s.m.accepted + |q|);
  }

  /** On every bus the commands pushed are the first ones accepted, in that order and each
      once; and a command that left the queue was pushed. */
  lemma PushedInOrder(bus: Bus, maxSz: nat, es: seq<Event>)
    requires Possible(bus, maxSz, es) && Reached(bus, maxSz, es).m.mode.Inited?
    ensures
      var s := Reached(bus, maxSz, es);
      && (forall i :: 0 <= i < |s.m.pushed| ==> s.m.pushed[i] == i)
      && |s.m.pushed| <= s.m.accepted
      && (forall n :: n in s.gone ==> n in s.m.pushed)
  {
    ReachedInv(bus, maxSz, es);
    var s := Reached(bus, maxSz, es);
    var p := |s.m.pushed|;
    assert s.m.pushed == Range(p);
    forall n | p <= n < s.m.accepted
      ensures n !in s.gone
    {
      UnpushedQueued(s, n);
    }
    forall n | n in s.gone
      ensures n in s.m.pushed
    {
      assert n < p;
      assert s.m.pushed[n] == n;
    }
  }

  // ---------------------------------------------------------------- outcomes

  /** A blocking command that left the queue has result 0 exactly if its ACK and, where it
      asked for one, its confirmation were processed; its caller was woken at most once,
      and was woken unless it gave up waiting.  That holds for a manager that is drained
      after a crash, too. */
  lemma BlockingOutcome(bus: Bus, maxSz: nat, es: seq<Event>, n: nat)
    requires Possible(bus, maxSz, es)
    requires n in Reached(bus, maxSz, es).gone && !Reached(bus, maxSz, es).gone[n].req.nonblock
    ensures
      var s := Reached(bus, maxSz, es);
      var c := s.gone[n];
      && (c.result == 0 <==> Answered(s, n, c.req))
      && c.result in {0, ETIMEDOUT, EINTR}
      && c.signals == (if c.result == ETIMEDOUT then 0 else 1)
      && (c.result == ETIMEDOUT ==> s.crashed)
      && (c.result == EINTR ==> s.m.mode.Deinit?)
  {
    ReachedInv(bus, maxSz, es);
  }

  /** The size field is the length of the list and stays within the bound; every accepted
      command is either queued, open, or settled, never both. */
  lemma NothingLost(bus: Bus, maxSz: nat, es: seq<Event>)
    requires Possible(bus, maxSz, es)
    ensures
      var s := Reached(bus, maxSz, es);
      && s.m.queueSz == |s.m.q| <= maxSz
      && (forall n :: 0 <= n < s.m.accepted ==> (InQueue(s.m.q, n) <==> n !in s.gone))
      && (s.m.mode.Deinit? ==> s.m.q == [])
  {
    ReachedInv(bus, maxSz, es);
    DownIsEmpty(Init(bus, maxSz), es);
  }

  lemma {:induction false} DownIsEmpty(s: Sys, es: seq<Event>)
    requires Run(s, es) && (s.m.mode.Deinit? ==> s.m.q == [])
    ensures After(s, es).m.mode.Deinit? ==> After(s, es).m.q == []
    decreases |es|
  {
    if es != [] {
      StepFrame(s, es[0]);
      DownStaysEmpty(s, es[0]);
      DownIsEmpty(Apply(s, es[0]), es[1..]);
    }
  }

  lemma DownStaysEmpty(s: Sys, e: Event)
    requires Enabled(s, e)
    ensures !s.m.mode.Deinit?
    ensures Apply(s, e).m.mode.Deinit? ==> Apply(s, e).m.q == []
  {
    StepFrame(s, e);
  }

  lemma SettledStep(s: Sys, e: Event, n: nat)
    requires Ledger(s) && Enabled(s, e) && n in s.gone
    ensures n in Apply(s, e).gone && Apply(s, e).gone[n] == s.gone[n]
  {
    match e
    case Ack(a) => SettledAck(s, a, n);
    case Message(r, acc) => SettledMessage(s, r, acc, n);
    case Timeout(t) => SettledTimeout(s, t, n);
    case Drain => SettledDrain(s, n);
    case Submit(_) =>
    case CallerPush(_) =>
    case WorkerWake =>
    case WorkerFind =>
    case WorkerPush =>
  }

  lemma SettledAck(s: Sys, a: nat, n: nat)
    requires Ledger(s) && n in s.gone
    ensures n in Apply(s, Ack(a)).gone && Apply(s, Ack(a)).gone[n] == s.gone[n]
  {
    if InQueue(s.m.q, a) {
      QueuedNotGone(s, IndexOf(s.m.q, a));
      AckIs(s, a);
    }
  }

  lemma SettledMessage(s: Sys, reqid: nat, accepts: set<nat>, n: nat)
    requires Ledger(s) && n in s.gone
    ensures n in Apply(s, Message(reqid, accepts)).gone
    ensures Apply(s, Message(reqid, accepts)).gone[n] == s.gone[n]
  {
    var i := FirstTaker(s.m.q, reqid, accepts);
    if i < |s.m.q| { QueuedNotGone(s, i); }
  }

  lemma SettledTimeout(s: Sys, t: nat, n: nat)
    requires Ledger(s) && n in s.gone
    ensures n in Apply(s, Timeout(t)).gone && Apply(s, Timeout(t)).gone[n] == s.gone[n]
  {
    if InQueue(s.m.q, t) { QueuedNotGone(s, IndexOf(s.m.q, t)); }
  }

  lemma SettledDrain(s: Sys, n: nat)
    requires Ledger(s) && n in s.gone
    ensures n in Apply(s, Drain).gone && Apply(s, Drain).gone[n] == s.gone[n]
  {
    assert forall j :: 0 <= j < |s.m.q| ==> s.m.q[j].num != n;
  }

  lemma QueuedNotGone(s: Sys, i: nat)
    requires Ledger(s) && i < |s.m.q|
    ensures s.m.q[i].num !in s.gone
  {
  }

  /** A settled command never changes again. */
  lemma {:induction false} SettledForGood(s: Sys, es: seq<Event>, n: nat)
    requires Ledger(s) && s.m.maxSz > 0 && Run(s, es) && n in s.gone
    ensures n in After(s, es).gone && After(s, es).gone[n] == s.gone[n]
    decreases |es|
  {
    if es != [] {
      StepLedger(s, es[0]);
      StepFrame(s, es[0]);
      SettledStep(s, es[0], n);
      SettledForGood(Apply(s, es[0]), es[1..], n);
    }
  }

  /** A crashed manager accepts nothing, and is crashed until it is drained: then nothing is
      queued, and what was left is settled. */
  lemma {:induction false} CrashIsFinal(s: Sys, es: seq<Event>)
    requires s.m.mode.Crashed? && Ledger(s) && s.m.maxSz > 0 && Run(s, es)
    ensures
      var s' := After(s, es);
      && s'.m.accepted == s.m.accepted && |s'.m.q| <= |s.m.q| && Ledger(s')
      && if s'.m.mode.Deinit?
         then s'.m.q == [] && forall n :: 0 <= n < s.m.accepted ==> n in s'.gone && Settled(s', n, s'.gone[n])
         else s'.m.mode.Crashed?
    decreases |es|
  {
    if es != [] {
      CrashedStep(s, es[0]);
      StepLedger(s, es[0]);
      StepFrame(s, es[0]);
      if es[0].Drain? {
        DownIsLast(Apply(s, es[0]), es[1..]);
        DrainedSettled(Apply(s, es[0]));
      } else {
        CrashIsFinal(Apply(s, es[0]), es[1..]);
      }
    }
  }

  /** Nothing follows a drain. */
  lemma DownIsLast(s: Sys, es: seq<Event>)
    requires s.m.mode.Deinit? && Run(s, es)
    ensures es == []
  {
    if es != [] {
      DownStaysEmpty(s, es[0]);
    }
  }

  lemma DrainedSettled(s: Sys)
    requires Ledger(s) && s.m.q == []
    ensures forall n :: 0 <= n < s.m.accepted ==> n in s.gone && Settled(s, n, s.gone[n])
  {
    assert forall n :: !InQueue(s.m.q, n);
  }

  lemma CrashedStep(s: Sys, e: Event)
    requires s.m.mode.Crashed? && Enabled(s, e)
    ensures Apply(s, e).m.accepted == s.m.accepted && |Apply(s, e).m.q| <= |s.m.q|
    ensures if e.Drain? then Apply(s, e).m.mode.Deinit? && Apply(s, e).m.q == [] else Apply(s, e).m.mode.Crashed?
  {
    StepFrame(s, e);
    match e
    case Ack(n) => AckIs(s, n); AckedShrinks(s.bus, s.m, IndexOf(s.m.q, n));
    case Message(id, accepts) => ConfirmedShrinks(s.bus, s.m, id, accepts);
    case Timeout(n) => TimedOutShrinks(s, n);
    case _ =>
  }

  lemma AckedShrinks(bus: Bus, m: Mgr, i: nat)
    requires i < |m.q|
    ensures |Acked(bus, m, i).q| <= |m.q|
  {
  }

  lemma ConfirmedShrinks(bus: Bus, m: Mgr, id: nat, accepts: set<nat>)
    ensures |Confirmed(bus, m, id, accepts).q| <= |m.q|
  {
  }

  lemma TimedOutShrinks(s: Sys, n: nat)
    ensures var s' := Apply(s, Timeout(n)); |s'.m.q| <= |s.m.q| && s'.m.accepted == s.m.accepted
  {
  }
}
